/** The auth database as one object: whole calls, each of them a run of the registry's atomic steps. */
module AuthDatabase {
  import opened Wrappers
  import opened AuthRegistry
  import opened AuthRuns

  /** The items of an email's active OTPs, as the query with `contains` returns them. */
  function ActiveOtps(db: Db, email: string): set<Key> {
    set key | key in db.otps && key.pk == email && Contains(OtpName(db.otps[key].status), OtpName(OtpActive))
  }

  function ExpireAll(db: Db, keys: set<Key>): Db {
    db.(otps := map key | key in db.otps :: if key in keys then db.otps[key].(status := OtpExpired) else db.otps[key])
  }

  lemma ExpireOne(db: Db, keys: set<Key>, key: Key)
    requires key in db.otps && key !in keys && db.otps[key].status == OtpActive
    ensures UpdateOtp(ExpireAll(db, keys), key, OtpExpired) == Some(ExpireAll(db, keys + {key}))
  {
    NamesApart(OtpActive, OtpExpired);
    var next := UpdateOtp(ExpireAll(db, keys), key, OtpExpired);
    assert next.value.otps == ExpireAll(db, keys + {key}).otps;
  }

  /** After a new code is made, it is the email's only active OTP. */
  lemma OnlyNewestActive(db: Db, email: string, otp: string, now: int)
    ensures ActiveOtps(AddOtp(ExpireAll(db, ActiveOtps(db, email)), email, otp, now), email) == {Key(email, otp)}
  {
    var db' := AddOtp(ExpireAll(db, ActiveOtps(db, email)), email, otp, now);
    forall key | key in db'.otps
      ensures Contains(OtpName(db'.otps[key].status), OtpName(OtpActive)) <==> db'.otps[key].status == OtpActive
    {
      NamesApart(db'.otps[key].status, OtpActive);
    }
    forall key | key in db.otps
      ensures Contains(OtpName(db.otps[key].status), OtpName(OtpActive)) <==> db.otps[key].status == OtpActive
    {
      NamesApart(db.otps[key].status, OtpActive);
    }
  }

  /**
   * The new code is active for thirty minutes, the email's other active codes are expired, and no other code, of this
   * email or of another, is touched; nor is any DID.
   */
  ghost predicate CodeIsNew(db: Db, db': Db, email: string, otp: string, now: int) {
    && db'.dids == db.dids
    && db'.otps.Keys == db.otps.Keys + {Key(email, otp)}
    && db'.otps[Key(email, otp)] == Otp(OtpActive, now + 1800)
    && forall key | key in db.otps && key != Key(email, otp) ::
         && db'.otps[key].expiresAt == db.otps[key].expiresAt
         && db'.otps[key].status == if key.pk == email && db.otps[key].status == OtpActive then OtpExpired
                                    else db.otps[key].status
  }

  lemma NewCode(db: Db, email: string, otp: string, now: int)
    ensures CodeIsNew(db, AddOtp(ExpireAll(db, ActiveOtps(db, email)), email, otp, now), email, otp, now)
  {
    forall key | key in db.otps
      ensures key in ActiveOtps(db, email) <==> key.pk == email && db.otps[key].status == OtpActive
    {
      NamesApart(db.otps[key].status, OtpActive);
    }
  }

  datatype RegisterError = InvalidOtp | InvalidDid(did: string)

  /** Registering the first `n` DIDs: the database, and the DIDs that were new. */
  function RegisterFirst(db: Db, email: string, dids: seq<string>, n: nat): (Db, seq<string>)
    requires n <= |dids|
  {
    if n == 0 then (db, [])
    else
      var (before, registered) := RegisterFirst(db, email, dids, n - 1);
      match Register(before, email, dids[n - 1])
      case Some(after) => (after, registered + [dids[n - 1]])
      case None => (before, registered)
  }

  /** `registered` are the DIDs without a row, each once; they belong to the email now, and all else is as it was. */
  ghost predicate IsOutcome(db: Db, after: Db, email: string, dids: seq<string>, registered: seq<string>) {
    && (forall did :: did in registered <==> did in dids && Key(did, INITIAL_NONCE) !in db.dids)
    && (forall i, j | 0 <= i < j < |registered| :: registered[i] != registered[j])
    && after.otps == db.otps
    && after.dids.Keys == db.dids.Keys + (set did | did in registered :: Key(did, INITIAL_NONCE))
    && (forall did | did in registered :: after.dids[Key(did, INITIAL_NONCE)] == Registration(email, DidActive))
    && (forall key | key in db.dids :: after.dids[key] == db.dids[key])
  }

  /** Exactly the DIDs that had no row are reported, each once, and belong to the email; no other row changes. */
  lemma {:induction false} RegisteredExactly(db: Db, email: string, dids: seq<string>, n: nat)
    requires n <= |dids|
    ensures var (after, registered) := RegisterFirst(db, email, dids, n);
            IsOutcome(db, after, email, dids[..n], registered)
  {
    if n > 0 {
      RegisteredExactly(db, email, dids, n - 1);
      var (before, registered) := RegisterFirst(db, email, dids, n - 1);
      OneMoreRegistered(db, before, email, dids, n, registered);
    }
  }

  lemma OneMoreRegistered(db: Db, before: Db, email: string, dids: seq<string>, n: nat, registered: seq<string>)
    requires 0 < n <= |dids| && IsOutcome(db, before, email, dids[..n - 1], registered)
    ensures var did := dids[n - 1];
            match Register(before, email, did)
            case Some(after) => IsOutcome(db, after, email, dids[..n], registered + [did])
            case None => IsOutcome(db, before, email, dids[..n], registered)
  {
    assert dids[..n] == dids[..n - 1] + [dids[n - 1]];
    var key := Key(dids[n - 1], INITIAL_NONCE);
    assert key in before.dids <==> key in db.dids || dids[n - 1] in registered;
  }

  /** One more DID, by the checked call or by an administrator's call without a check. */
  lemma RegisterStep(t: Trace, x: nat, email: string, did: string, skipOtp: bool) returns (more: Trace)
    requires Steps(t.states, t.events)
    requires !skipOtp ==> MayAct(t.Final(), x, ToRegister) && OtpOf(t.Final(), x).pk == email
    ensures more.IsRun(t.states[0], Register(t.Final().db, email, did).GetOr(t.Final().db))
    ensures !skipOtp ==> MayAct(more.Final(), x, ToRegister) && OtpOf(more.Final(), x).pk == email
  {
    if skipOtp {
      more := RegisterUncheckedRun(t, email, did);
    } else {
      more := RegisterRun(t, x, did);
    }
  }

  class AuthDb {
    var db: Db

    constructor ()
      ensures db == Db(map[], map[])
    {
      db := Db(map[], map[]);
    }

    /** `createEmailVerificationCode`: the active codes expire one by one, and the generated one is added. */
    method CreateEmailVerificationCode(email: string, otp: string, now: int, ghost s: State) returns (ghost t: Trace)
      requires s.db == db && s.now <= now
      modifies this
      ensures Key(email, otp) !in old(db).otps ==> t.IsRun(s, db)
      ensures db == AddOtp(ExpireAll(old(db), ActiveOtps(old(db), email)), email, otp, now)
      ensures CodeIsNew(old(db), db, email, otp, now)
    {
      var rest := ActiveOtps(db, email);
      ghost var active, done := rest, {};
      t := Start(s);
      assert ExpireAll(db, {}) == db;
      while rest != {}
        invariant done + rest == active && done !! rest
        invariant db == ExpireAll(old(db), done)
        invariant t.IsRun(s, db) && t.Final() == s.(db := db)
        decreases rest
      {
        var key :| key in rest;
        NamesApart(old(db).otps[key].status, OtpActive);
        ExpireOne(old(db), done, key);
        t := ExpireRun(t, key);
        db := UpdateOtp(db, key, OtpExpired).value;
        rest := rest - {key};
        done := done + {key};
      }
      assert done == active;
      if Key(email, otp) !in db.otps {
        t := NewOtpRun(t, email, otp, now);
      }
      NewCode(old(db), email, otp, now);
      db := AddOtp(db, email, otp, now);
    }

    /** An active code is used up by the check, even when it turns out to be expired. */
    method CheckCorrectOtp(email: string, otp: string, now: int) returns (ok: bool)
      modifies this
      ensures db == UseOtp(old(db), Key(email, otp)).GetOr(old(db))
      ensures ok <==> UseOtp(old(db), Key(email, otp)).Some? && old(db).otps[Key(email, otp)].expiresAt > now
      ensures db.dids == old(db).dids && db.otps.Keys == old(db).otps.Keys
      ensures forall key | key in db.otps && key != Key(email, otp) :: db.otps[key] == old(db).otps[key]
      ensures var key := Key(email, otp);
              key in db.otps ==>
                && db.otps[key].expiresAt == old(db).otps[key].expiresAt
                && db.otps[key].status == (if old(db).otps[key].status == OtpActive then OtpUsed
                                           else old(db).otps[key].status)
      ensures var key := Key(email, otp);
              ok <==> key in old(db).otps && old(db).otps[key].status == OtpActive && now < old(db).otps[key].expiresAt
    {
      if Key(email, otp) in db.otps {
        NamesApart(db.otps[Key(email, otp)].status, OtpActive);
      }
      var used := UseOtp(db, Key(email, otp));
      if used.None? {
        return false;
      }
      db := used.value;
      ok := db.otps[Key(email, otp)].expiresAt > now;
    }

    /** The code is checked first, so it is spent also when one of the DIDs is not valid. */
    method RegisterDids(email: string, otp: string, dids: seq<string>, skipOtp: bool, didRegex: string -> bool,
                        now: int, ghost s: State, ghost x: nat)
      returns (r: Result<seq<string>, RegisterError>, ghost t: Trace)
      requires s.db == db && s.now <= now
      modifies this
      ensures t.IsRun(s, db)
      ensures var used := UseOtp(old(db), Key(email, otp));
              var checked := if skipOtp then old(db) else used.GetOr(old(db));
              if !skipOtp && !(used.Some? && old(db).otps[Key(email, otp)].expiresAt > now)
              then r == Err(InvalidOtp) && db == checked
              else if exists i :: 0 <= i < |dids| && !didRegex(dids[i])
              then db == checked && r.Err? && r.error.InvalidDid? && r.error.did in dids && !didRegex(r.error.did)
              else (db, r) == (RegisterFirst(checked, email, dids, |dids|).0,
                               Ok(RegisterFirst(checked, email, dids, |dids|).1))
      ensures r.Ok? ==>
                && (forall did | did in dids :: didRegex(did))
                && (forall did :: did in r.value <==> did in dids && Key(did, "0") !in old(db).dids)
                && (forall did | did in r.value ::
                      Key(did, "0") in db.dids && db.dids[Key(did, "0")] == Registration(email, DidActive))
      ensures forall key | key in old(db).dids :: key in db.dids && db.dids[key] == old(db).dids[key]
    {
      t := Start(s);
      if !skipOtp {
        t := CheckRun(t, x, Key(email, otp), now, ToRegister);
        var ok := CheckCorrectOtp(email, otp, now);
        if !ok {
          return Err(InvalidOtp), t;
        }
      }
      for i := 0 to |dids|
        invariant forall k | 0 <= k < i :: didRegex(dids[k])
      {
        if !didRegex(dids[i]) {
          return Err(InvalidDid(dids[i])), t;
        }
      }
      ghost var checked := db;
      var results: seq<string> := [];
      for i := 0 to |dids|
        invariant (db, results) == RegisterFirst(checked, email, dids, i)
        invariant t.IsRun(s, db)
        invariant !skipOtp ==> MayAct(t.Final(), x, ToRegister) && OtpOf(t.Final(), x).pk == email
      {
        t := RegisterStep(t, x, email, dids[i], skipOtp);
        var stored := Register(db, email, dids[i]);
        if stored.Some? {
          db := stored.value;
          results := results + [dids[i]];
        }
      }
      RegisteredExactly(checked, email, dids, |dids|);
      assert dids[..|dids|] == dids;
      return Ok(results), t;
    }

    method RevokeDid(email: string, otp: string, did: string, now: int, ghost s: State, ghost x: nat)
      returns (revoked: bool, ghost t: Trace)
      requires s.db == db && s.now <= now
      modifies this
      ensures t.IsRun(s, db)
      ensures var used := UseOtp(old(db), Key(email, otp));
              if used.Some? && old(db).otps[Key(email, otp)].expiresAt > now
              then
                && db == Revoke(used.value, email, did).GetOr(used.value)
                && (revoked <==> Revoke(used.value, email, did).Some?)
              else db == used.GetOr(old(db)) && !revoked
      ensures db.dids.Keys == old(db).dids.Keys
      ensures forall key | key in db.dids && key != Key(did, "0") :: db.dids[key] == old(db).dids[key]
      ensures Key(did, "0") in db.dids ==>
                var row := old(db).dids[Key(did, "0")];
                db.dids[Key(did, "0")]
                == if revoked && row.Registration? then Registration(row.email, DidRevoked) else row
      ensures revoked <==>
                && Key(email, otp) in old(db).otps && old(db).otps[Key(email, otp)].status == OtpActive
                && now < old(db).otps[Key(email, otp)].expiresAt
                && Key(did, "0") in old(db).dids && old(db).dids[Key(did, "0")].Registration?
                && old(db).dids[Key(did, "0")].status == DidActive
                && Contains(old(db).dids[Key(did, "0")].email, email)
    {
      RevokeIff(db, email, did);
      if Key(email, otp) in db.otps {
        NamesApart(db.otps[Key(email, otp)].status, OtpActive);
        RevokeIff(UseOtp(db, Key(email, otp)).GetOr(db), email, did);
      }
      t := CheckRun(Start(s), x, Key(email, otp), now, ToRevoke);
      var ok := CheckCorrectOtp(email, otp, now);
      if !ok {
        return false, t;
      }
      t := RevokeRun(t, x, did);
      var stored := Revoke(db, email, did);
      if stored.None? {
        return false, t;
      }
      db := stored.value;
      return true, t;
    }

    method AddNonce(did: string, nonce: string, ghost s: State, ghost x: nat) returns (added: bool, ghost t: Trace)
      requires s.db == db
      modifies this
      ensures t.IsRun(s, db)
      ensures added <==> IsActive(old(db), did) && Key(did, nonce) !in old(db).dids
      ensures db == if added then PutNonce(old(db), did, nonce).value else old(db)
      ensures added <==>
                && Key(did, "0") in old(db).dids && old(db).dids[Key(did, "0")].Registration?
                && old(db).dids[Key(did, "0")].status == DidActive && Key(did, nonce) !in old(db).dids
      ensures db.otps == old(db).otps
      ensures db.dids == if added then old(db).dids[Key(did, nonce) := Nonce] else old(db).dids
    {
      t := NonceRun(s, x, did, nonce);
      if !IsActive(db, did) {
        return false, t;
      }
      var stored := PutNonce(db, did, nonce);
      if stored.None? {
        return false, t;
      }
      db := stored.value;
      return true, t;
    }
  }
}
