/** Runs of the auth registry: the calls of the database as sequences of its atomic steps, and a revocation. */
module AuthRuns {
  import opened AuthRegistry

  /** Some steps, from `first` to a state whose database is `last`. */
  datatype Trace = Trace(states: seq<State>, events: seq<Event>) {
    ghost predicate IsRun(first: State, last: Db) {
      && Steps(states, events)
      && states[0] == first && Final().db == last
    }

    function Final(): State
      requires states != []
    {
      states[|states| - 1]
    }
  }

  function Start(s: State): Trace {
    Trace([s], [])
  }

  lemma Extend(t: Trace, s: State, e: Event) returns (more: Trace)
    requires Steps(t.states, t.events) && Next(t.Final(), s, e)
    ensures Steps(more.states, more.events)
    ensures more == Trace(t.states + [s], t.events + [e]) && more.states[0] == t.states[0] && more.Final() == s
  {
    more := Trace(t.states + [s], t.events + [e]);
    forall i | 0 <= i < |more.events|
      ensures StepAt(more.states, more.events, i)
    {
      if i < |t.events| {
        assert StepAt(t.states, t.events, i);
      }
    }
  }

  // ----- Parts of calls -----

  /** The check of an OTP, by client `x`. */
  lemma CheckRun(t: Trace, x: nat, key: Key, at: int, purpose: Purpose) returns (more: Trace)
    requires Steps(t.states, t.events) && t.Final().now <= at
    ensures var s, used := t.Final(), UseOtp(t.Final().db, key);
            && more.IsRun(t.states[0], used.GetOr(s.db))
            && (used.Some? && s.db.otps[key].expiresAt > at ==>
                  MayAct(more.Final(), x, purpose) && OtpOf(more.Final(), x) == key)
  {
    var s, used := t.Final(), UseOtp(t.Final().db, key);
    var s' := if used.Some? && used.value.otps[key].expiresAt > at
              then s.(db := used.value, now := at, calls := s.calls[x := Authorized(|s.authorized|, purpose)],
                      authorized := s.authorized + [Authorization(key, at)])
              else After(s, used).(now := at, calls := s.calls[x := NoCall]);
    more := Extend(t, s', CheckOtp(x, key, at, purpose));
  }

  /** One registration by a checked call, which may go on. */
  lemma RegisterRun(t: Trace, x: nat, did: string) returns (more: Trace)
    requires Steps(t.states, t.events) && MayAct(t.Final(), x, ToRegister)
    ensures more.IsRun(t.states[0], Register(t.Final().db, OtpOf(t.Final(), x).pk, did).GetOr(t.Final().db))
    ensures MayAct(more.Final(), x, ToRegister) && OtpOf(more.Final(), x) == OtpOf(t.Final(), x)
  {
    more := Extend(t, After(t.Final(), Register(t.Final().db, OtpOf(t.Final(), x).pk, did)), RegisterDid(x, did));
  }

  lemma RegisterUncheckedRun(t: Trace, email: string, did: string) returns (more: Trace)
    requires Steps(t.states, t.events)
    ensures more.IsRun(t.states[0], Register(t.Final().db, email, did).GetOr(t.Final().db))
  {
    more := Extend(t, After(t.Final(), Register(t.Final().db, email, did)), RegisterUnchecked(email, did));
  }

  lemma RevokeRun(t: Trace, x: nat, did: string) returns (more: Trace)
    requires Steps(t.states, t.events) && MayAct(t.Final(), x, ToRevoke)
    ensures more.IsRun(t.states[0], Revoke(t.Final().db, OtpOf(t.Final(), x).pk, did).GetOr(t.Final().db))
    ensures more == Trace(t.states + [more.Final()], t.events + [RevokeDid(x, did)])
  {
    var s := t.Final();
    more := Extend(t, After(s, Revoke(s.db, OtpOf(s, x).pk, did)).(calls := s.calls[x := NoCall]), RevokeDid(x, did));
  }

  lemma NewOtpRun(t: Trace, email: string, otp: string, now: int) returns (more: Trace)
    requires Steps(t.states, t.events) && Key(email, otp) !in t.Final().db.otps && t.Final().now <= now
    ensures more.IsRun(t.states[0], AddOtp(t.Final().db, email, otp, now))
    ensures more.Final() == t.Final().(now := now, db := more.Final().db)
  {
    more := Extend(t, t.Final().(now := now), Tick(now));
    more := Extend(more, more.Final().(db := AddOtp(more.Final().db, email, otp, now)), NewOtp(email, otp));
  }

  lemma ExpireRun(t: Trace, key: Key) returns (more: Trace)
    requires Steps(t.states, t.events)
    ensures more.IsRun(t.states[0], UpdateOtp(t.Final().db, key, OtpExpired).GetOr(t.Final().db))
    ensures more.Final() == t.Final().(db := more.Final().db)
  {
    more := Extend(t, After(t.Final(), UpdateOtp(t.Final().db, key, OtpExpired)), RetireOtp(key, OtpExpired));
  }

  lemma NonceRun(s: State, x: nat, did: string, nonce: string) returns (t: Trace)
    ensures t.IsRun(s, if IsActive(s.db, did) then PutNonce(s.db, did, nonce).GetOr(s.db) else s.db)
  {
    t := Extend(Start(s), s.(calls := s.calls[x := if IsActive(s.db, did) then ReadActive(did) else NoCall]),
                ReadDid(x, did));
    if IsActive(s.db, did) {
      var s1, put := t.Final(), PutNonce(s.db, did, nonce);
      t := Extend(t, After(s1, put).(calls := s1.calls[x := NoCall],
                                     accepted := if put.Some? then s1.accepted + [Key(did, nonce)] else s1.accepted),
                  AcceptNonce(x, nonce));
    }
  }

  // ----- A revocation for another email -----

  const EMPTY: State := State(Db(map[], map[]), 0, map[], [], [])

  lemma RegisteredFor(owner: Key, did: string) returns (t: Trace)
    ensures Run(t.states, t.events)
    ensures IsRegistered(t.Final().db, did) && RegistrationOf(t.Final().db, did) == Registration(owner.pk, DidActive)
    ensures t.Final().db.otps.Keys == {owner}
  {
    t := NewOtpRun(Start(EMPTY), owner.pk, owner.sk, 0);
    NamesApart(OtpActive, OtpActive);
    t := CheckRun(t, 0, owner, 0, ToRegister);
    t := RegisterRun(t, 0, did);
  }

  /** The OTP of one email revokes the DID of another, when the email of the DID contains the other one. */
  lemma RevokedForContainedEmail(did: string) returns (t: Trace)
    ensures Run(t.states, t.events)
    ensures var n := |t.events| - 1;
            && n >= 0 && t.events[n] == RevokeDid(1, did)
            && IsRegistered(t.states[n].db, did)
            && RegistrationOf(t.states[n].db, did) == Registration("xa@b.c", DidActive)
            && MayAct(t.states[n], 1, ToRevoke) && OtpOf(t.states[n], 1).pk == "a@b.c"
            && IsRegistered(t.states[n + 1].db, did)
            && RegistrationOf(t.states[n + 1].db, did) == Registration("xa@b.c", DidRevoked)
  {
    var owner, other := Key("xa@b.c", "1"), Key("a@b.c", "1");
    t := RegisteredFor(owner, did);
    NamesApart(OtpActive, OtpActive);
    t := NewOtpRun(t, other.pk, other.sk, t.Final().now);
    t := CheckRun(t, 1, other, t.Final().now, ToRevoke);
    assert OccursAt("xa@b.c", "a@b.c", 1);
    RevokeIff(t.Final().db, "a@b.c", did);
    t := RevokeRun(t, 1, did);
  }
}
