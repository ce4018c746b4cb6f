/**
 * One-time passwords, DID registrations and nonces: conditional writes of single items, interleaved by many clients.
 */
module AuthRegistry {
  import opened Wrappers

  /** Every item has a partition key and a sort key: email and OTP, or DID and nonce. */
  datatype Key = Key(pk: string, sk: string)

  datatype OtpStatus = OtpActive | OtpRevoked | OtpExpired | OtpUsed

  datatype Otp = Otp(status: OtpStatus, expiresAt: int)

  datatype DidStatus = DidActive | DidRevoked

  /** The row with sort key '0' registers the DID, the others are its nonces. */
  datatype DidRow = Registration(email: string, status: DidStatus) | Nonce

  datatype Db = Db(otps: map<Key, Otp>, dids: map<Key, DidRow>)

  const INITIAL_NONCE: string := "0"

  /** Thirty minutes, in seconds. */
  const OTP_LIFETIME: int := 30 * 60

  // ----- The `contains` of condition expressions -----

  predicate OccursAt(s: string, part: string, i: nat) {
    i + |part| <= |s| && s[i..i + |part|] == part
  }

  predicate Contains(s: string, part: string) {
    exists i: nat | i <= |s| :: OccursAt(s, part, i)
  }

  /** The part may be anywhere, also at either end, and every string contains the empty one. */
  lemma ContainsIff(s: string, part: string)
    ensures Contains(s, part) <==> exists before, after :: s == before + part + after
  {
    forall i: nat | i <= |s| && OccursAt(s, part, i)
      ensures exists before, after :: s == before + part + after
    {
      assert s == s[..i] + part + s[i + |part|..];
    }
    forall before, after | s == before + part + after
      ensures Contains(s, part)
    {
      assert OccursAt(s, part, |before|);
    }
  }

  function OtpName(status: OtpStatus): string {
    match status
    case OtpActive => "Active"
    case OtpRevoked => "Revoked"
    case OtpExpired => "Expired"
    case OtpUsed => "Used"
  }

  function DidName(status: DidStatus): string {
    match status
    case DidActive => "Active"
    case DidRevoked => "Revoked"
  }

  /** Among the status names `contains` is equality: the capital letter of one occurs in no other. */
  lemma NamesApart(a: OtpStatus, b: OtpStatus)
    ensures Contains(OtpName(a), OtpName(b)) <==> a == b
  {
    if a == b {
      assert OccursAt(OtpName(a), OtpName(b), 0);
    } else {
      forall i: nat | i <= |OtpName(a)|
        ensures !OccursAt(OtpName(a), OtpName(b), i)
      {
        assert i + |OtpName(b)| <= |OtpName(a)| ==> OtpName(a)[i..i + |OtpName(b)|][0] == OtpName(a)[i];
      }
    }
  }

  lemma DidNamesApart(a: DidStatus, b: DidStatus)
    ensures Contains(DidName(a), DidName(b)) <==> a == b
  {
    if a == b {
      assert OccursAt(DidName(a), DidName(b), 0);
    } else {
      forall i: nat | i <= |DidName(a)|
        ensures !OccursAt(DidName(a), DidName(b), i)
      {
        assert i + |DidName(b)| <= |DidName(a)| ==> DidName(a)[i..i + |DidName(b)|][0] == DidName(a)[i];
      }
    }
  }

  // ----- Atomic writes; None when the condition fails -----

  function AddOtp(db: Db, email: string, otp: string, now: int): Db {
    db.(otps := db.otps[Key(email, otp) := Otp(OtpActive, now + OTP_LIFETIME)])
  }

  function UpdateOtp(db: Db, key: Key, next: OtpStatus): Option<Db> {
    if key in db.otps && !Contains(OtpName(db.otps[key].status), OtpName(next))
    then Some(db.(otps := db.otps[key := db.otps[key].(status := next)]))
    else None
  }

  /** The write of `_checkCorrectOTP`. */
  function UseOtp(db: Db, key: Key): Option<Db> {
    if key in db.otps && Contains(OtpName(db.otps[key].status), OtpName(OtpActive))
    then Some(db.(otps := db.otps[key := db.otps[key].(status := OtpUsed)]))
    else None
  }

  function Register(db: Db, email: string, did: string): Option<Db> {
    var key := Key(did, INITIAL_NONCE);
    if key !in db.dids then Some(db.(dids := db.dids[key := Registration(email, DidActive)])) else None
  }

  function IsRegistered(db: Db, did: string): bool {
    var key := Key(did, INITIAL_NONCE);
    key in db.dids && db.dids[key].Registration?
  }

  function RegistrationOf(db: Db, did: string): DidRow
    requires IsRegistered(db, did)
  {
    db.dids[Key(did, INITIAL_NONCE)]
  }

  /** The email given only has to occur in the registered one. */
  function Revoke(db: Db, email: string, did: string): Option<Db> {
    var key := Key(did, INITIAL_NONCE);
    if IsRegistered(db, did)
       && Contains(RegistrationOf(db, did).email, email)
       && !Contains(DidName(RegistrationOf(db, did).status), DidName(DidRevoked))
    then Some(db.(dids := db.dids[key := RegistrationOf(db, did).(status := DidRevoked)]))
    else None
  }

  predicate IsActive(db: Db, did: string) {
    IsRegistered(db, did) && RegistrationOf(db, did).status == DidActive
  }

  /** Only an active DID can be revoked; its own email always suffices. */
  lemma RevokeIff(db: Db, email: string, did: string)
    ensures Revoke(db, email, did).Some? <==> IsActive(db, did) && Contains(RegistrationOf(db, did).email, email)
    ensures Revoke(db, email, did).Some? ==> !IsActive(Revoke(db, email, did).value, did)
    ensures IsActive(db, did) ==> Revoke(db, RegistrationOf(db, did).email, did).Some?
  {
    if IsRegistered(db, did) {
      var r := RegistrationOf(db, did);
      DidNamesApart(r.status, DidRevoked);
      assert OccursAt(r.email, r.email, 0);
    }
  }

  function PutNonce(db: Db, did: string, nonce: string): Option<Db> {
    var key := Key(did, nonce);
    if key !in db.dids then Some(db.(dids := db.dids[key := Nonce])) else None
  }

  // ----- Interleaved clients -----

  /**
   * How far a client's call has got: a call that passed the OTP check, as number `check` in the record of checks, acts
   * on it; one that adds a nonce has read the DID.
   */
  datatype Call =
    | NoCall
    | Authorized(check: nat, purpose: Purpose)
    | ReadActive(did: string)

  datatype Purpose = ToRegister | ToRevoke

  datatype Authorization = Authorization(key: Key, at: int)

  /** `authorized` and `accepted` record, in order, every OTP check passed and every nonce accepted. */
  datatype State = State(
    db: Db,
    now: int,
    calls: map<nat, Call>,
    authorized: seq<Authorization>,
    accepted: seq<Key>)

  function CallOf(s: State, client: nat): Call {
    if client in s.calls then s.calls[client] else NoCall
  }

  predicate MayAct(s: State, client: nat, purpose: Purpose) {
    CallOf(s, client).Authorized? && CallOf(s, client).purpose == purpose && CallOf(s, client).check < |s.authorized|
  }

  /** The email and the OTP that a client's call has been checked for. */
  function OtpOf(s: State, client: nat): Key
    requires CallOf(s, client).Authorized? && CallOf(s, client).check < |s.authorized|
  {
    s.authorized[CallOf(s, client).check].key
  }

  datatype Event =
    | Tick(to: int)
    | NewOtp(email: string, otp: string)
    | RetireOtp(key: Key, next: OtpStatus)
    | CheckOtp(client: nat, key: Key, at: int, purpose: Purpose)
    | RegisterDid(client: nat, did: string)
    | RegisterUnchecked(email: string, did: string)
    | RevokeDid(client: nat, did: string)
    | ReadDid(client: nat, did: string)
    | AcceptNonce(client: nat, nonce: string)
    | Abandon(client: nat)

  function After(s: State, db: Option<Db>): State {
    s.(db := db.GetOr(s.db))
  }

  ghost predicate Next(s: State, s': State, e: Event) {
    match e
    case Tick(to) => s.now <= to && s' == s.(now := to)
    case NewOtp(email, otp) =>
      // The generator never repeats an OTP for the same email.
      Key(email, otp) !in s.db.otps && s' == s.(db := AddOtp(s.db, email, otp, s.now))
    case RetireOtp(key, next) =>
      next in {OtpExpired, OtpRevoked} && s' == After(s, UpdateOtp(s.db, key, next))
    case CheckOtp(client, key, at, purpose) =>
      && s.now <= at
      && var used := UseOtp(s.db, key);
         if used.Some? && used.value.otps[key].expiresAt > at then
           s' == s.(db := used.value, now := at, calls := s.calls[client := Authorized(|s.authorized|, purpose)],
                    authorized := s.authorized + [Authorization(key, at)])
         else
           s' == After(s, used).(now := at, calls := s.calls[client := NoCall])
    case RegisterDid(client, did) =>
      && MayAct(s, client, ToRegister)
      && s' == After(s, Register(s.db, OtpOf(s, client).pk, did))
    case RegisterUnchecked(email, did) => s' == After(s, Register(s.db, email, did))
    case RevokeDid(client, did) =>
      && MayAct(s, client, ToRevoke)
      && s' == After(s, Revoke(s.db, OtpOf(s, client).pk, did)).(calls := s.calls[client := NoCall])
    case ReadDid(client, did) =>
      s' == s.(calls := s.calls[client := if IsActive(s.db, did) then ReadActive(did) else NoCall])
    case AcceptNonce(client, nonce) =>
      && CallOf(s, client).ReadActive?
      && var did := CallOf(s, client).did;
         var put := PutNonce(s.db, did, nonce);
         s' == After(s, put).(calls := s.calls[client := NoCall],
                              accepted := if put.Some? then s.accepted + [Key(did, nonce)] else s.accepted)
    case Abandon(client) => s' == s.(calls := s.calls[client := NoCall])
  }

  ghost predicate Run(ss: seq<State>, events: seq<Event>) {
    && ss != []
    && ss[0].db == Db(map[], map[]) && ss[0].calls == map[] && ss[0].authorized == [] && ss[0].accepted == []
    && Steps(ss, events)
  }

  ghost predicate Steps(ss: seq<State>, events: seq<Event>) {
    |ss| == |events| + 1 && forall i | 0 <= i < |events| :: StepAt(ss, events, i)
  }

  ghost predicate StepAt(ss: seq<State>, events: seq<Event>, i: int)
    requires 0 <= i < |events| < |ss|
  {
    Next(ss[i], ss[i + 1], events[i])
  }

  // ----- What every write keeps -----

  /** OTPs are never removed, prolonged or activated again. */
  ghost predicate OtpsOnlyAge(db: Db, db': Db) {
    forall key | key in db.otps ::
      && key in db'.otps
      && db'.otps[key].expiresAt == db.otps[key].expiresAt
      && (db.otps[key].status != OtpActive ==> db'.otps[key].status != OtpActive)
  }

  /** Rows are never removed, a DID keeps its email, and Revoked stays Revoked. */
  ghost predicate DidsOnlyAge(db: Db, db': Db) {
    forall key | key in db.dids ::
      && key in db'.dids
      && (db.dids[key].Registration? <==> db'.dids[key].Registration?)
      && (db.dids[key].Registration? ==>
            && db'.dids[key].email == db.dids[key].email
            && (db.dids[key].status == DidRevoked ==> db'.dids[key].status == DidRevoked))
  }

  lemma StepAges(s: State, s': State, e: Event)
    requires Next(s, s', e)
    ensures OtpsOnlyAge(s.db, s'.db) && DidsOnlyAge(s.db, s'.db)
  {
  }

  lemma AgeTransitive(a: Db, b: Db, c: Db)
    requires OtpsOnlyAge(a, b) && OtpsOnlyAge(b, c) && DidsOnlyAge(a, b) && DidsOnlyAge(b, c)
    ensures OtpsOnlyAge(a, c) && DidsOnlyAge(a, c)
  {
  }

  lemma {:induction false} RunAges(ss: seq<State>, events: seq<Event>, i: nat, j: nat)
    requires Run(ss, events) && i <= j < |ss|
    ensures OtpsOnlyAge(ss[i].db, ss[j].db) && DidsOnlyAge(ss[i].db, ss[j].db)
  {
    if i < j {
      RunAges(ss, events, i, j - 1);
      assert StepAt(ss, events, j - 1);
      StepAges(ss[j - 1], ss[j], events[j - 1]);
      AgeTransitive(ss[i].db, ss[j - 1].db, ss[j].db);
    }
  }

  // ----- Invariants -----

  /** An OTP that passed a check did so before it expired, and is not active any more. */
  ghost predicate Spent(db: Db, a: Authorization) {
    && a.key in db.otps
    && db.otps[a.key].status != OtpActive
    && a.at < db.otps[a.key].expiresAt
  }

  ghost predicate OtpsInv(db: Db, authorized: seq<Authorization>) {
    && (forall a | a in authorized :: Spent(db, a))
    && (forall i, j | 0 <= i < j < |authorized| :: authorized[i].key != authorized[j].key)
  }

  ghost predicate NoncesInv(db: Db, accepted: seq<Key>) {
    && (forall key | key in accepted :: key in db.dids)
    && (forall i, j | 0 <= i < j < |accepted| :: accepted[i] != accepted[j])
  }

  lemma SpentStays(db: Db, db': Db, authorized: seq<Authorization>)
    requires OtpsInv(db, authorized) && OtpsOnlyAge(db, db')
    ensures OtpsInv(db', authorized)
  {
  }

  /** Only an active OTP passes, and a spent one is not active. */
  lemma CheckKeepsOtpsInv(s: State, s': State, e: Event)
    requires OtpsInv(s.db, s.authorized) && e.CheckOtp? && Next(s, s', e) && s'.authorized != s.authorized
    ensures OtpsInv(s'.db, s'.authorized)
  {
    StepAges(s, s', e);
    SpentStays(s.db, s'.db, s.authorized);
    var last := s'.authorized[|s.authorized|];
    NamesApart(s.db.otps[e.key].status, OtpActive);
    assert Spent(s'.db, last);
    forall i | 0 <= i < |s.authorized|
      ensures s.authorized[i].key != last.key
    {
      assert s.authorized[i] in s.authorized;
      assert Spent(s.db, s.authorized[i]);
    }
  }

  lemma NextKeepsInv(s: State, s': State, e: Event)
    requires OtpsInv(s.db, s.authorized) && NoncesInv(s.db, s.accepted) && Next(s, s', e)
    ensures OtpsInv(s'.db, s'.authorized) && NoncesInv(s'.db, s'.accepted)
  {
    StepAges(s, s', e);
    if s'.authorized != s.authorized {
      CheckKeepsOtpsInv(s, s', e);
    } else {
      SpentStays(s.db, s'.db, s.authorized);
    }
    if e.AcceptNonce? && s'.accepted != s.accepted {
      forall i | 0 <= i < |s.accepted|
        ensures s.accepted[i] != s'.accepted[|s.accepted|]
      {
        assert s.accepted[i] in s.accepted;
      }
    }
  }

  lemma {:induction false} RunKeepsInv(ss: seq<State>, events: seq<Event>, i: nat)
    requires Run(ss, events) && i < |ss|
    ensures OtpsInv(ss[i].db, ss[i].authorized) && NoncesInv(ss[i].db, ss[i].accepted)
  {
    if i > 0 {
      RunKeepsInv(ss, events, i - 1);
      assert StepAt(ss, events, i - 1);
      NextKeepsInv(ss[i - 1], ss[i], events[i - 1]);
    }
  }

  // ----- Main results -----

  /** Each OTP authorizes at most one call, and only before it expires. */
  lemma OtpAuthorizesOnce(ss: seq<State>, events: seq<Event>, i: nat, j: nat, k: nat)
    requires Run(ss, events) && i < |ss| && j < |ss[i].authorized| && k < |ss[i].authorized|
    ensures ss[i].authorized[j].key == ss[i].authorized[k].key ==> j == k
    ensures var a := ss[i].authorized[j];
            && a.key in ss[i].db.otps
            && a.at < ss[i].db.otps[a.key].expiresAt
            && ss[i].db.otps[a.key].status != OtpActive
  {
    RunKeepsInv(ss, events, i);
    assert ss[i].authorized[j] in ss[i].authorized;
    assert Spent(ss[i].db, ss[i].authorized[j]);
  }

  /** Every authorized call names a check, and no two calls name the same one. */
  ghost predicate CallsInv(s: State) {
    && (forall client | client in s.calls && s.calls[client].Authorized? :: s.calls[client].check < |s.authorized|)
    && (forall x, y | x in s.calls && y in s.calls && x != y && s.calls[x].Authorized? && s.calls[y].Authorized? ::
          s.calls[x].check != s.calls[y].check)
  }

  lemma {:induction false} RunKeepsCalls(ss: seq<State>, events: seq<Event>, i: nat)
    requires Run(ss, events) && i < |ss|
    ensures CallsInv(ss[i])
  {
    if i > 0 {
      RunKeepsCalls(ss, events, i - 1);
      assert StepAt(ss, events, i - 1);
    }
  }

  lemma {:induction false} ChecksStay(ss: seq<State>, events: seq<Event>, i: nat, j: nat)
    requires Run(ss, events) && i <= j < |ss|
    ensures ss[i].authorized <= ss[j].authorized
  {
    if i < j {
      ChecksStay(ss, events, i, j - 1);
      assert StepAt(ss, events, j - 1);
    }
  }

  /** The client's call has not changed from state `i` to state `j`. */
  ghost predicate SameCall(ss: seq<State>, i: nat, j: nat, client: nat)
    requires i <= j < |ss|
  {
    forall k | i <= k <= j :: CallOf(ss[k], client) == CallOf(ss[i], client)
  }

  /** A check belongs to the call it was made for, and to no later one. */
  lemma {:induction false} CheckIsOneCall(ss: seq<State>, events: seq<Event>, i: nat, j: nat, x: nat, y: nat)
    requires Run(ss, events) && i <= j < |ss|
    requires CallOf(ss[i], x).Authorized? && CallOf(ss[j], y).Authorized?
    requires CallOf(ss[i], x).check == CallOf(ss[j], y).check
    ensures x == y && SameCall(ss, i, j, x)
    decreases j
  {
    RunKeepsCalls(ss, events, i);
    if i < j {
      assert StepAt(ss, events, j - 1);
      ChecksStay(ss, events, i, j - 1);
      assert CallOf(ss[j - 1], y) == CallOf(ss[j], y);
      CheckIsOneCall(ss, events, i, j - 1, x, y);
    }
  }

  predicate IsAct(e: Event) {
    e.RegisterDid? || e.RevokeDid?
  }

  /** The OTP that a registration or revocation was checked for. */
  function OtpOfAct(ss: seq<State>, events: seq<Event>, i: nat): Key
    requires i < |events| < |ss| && IsAct(events[i])
    requires CallOf(ss[i], events[i].client).Authorized? && CallOf(ss[i], events[i].client).check < |ss[i].authorized|
  {
    OtpOf(ss[i], events[i].client)
  }

  /** Whoever registers or revokes has spent an OTP before it expired, and registers for the email of that OTP. */
  lemma ActsAreAuthorized(ss: seq<State>, events: seq<Event>, i: nat)
    requires Run(ss, events) && i < |events| && IsAct(events[i])
    ensures CallOf(ss[i], events[i].client).Authorized? && CallOf(ss[i], events[i].client).check < |ss[i].authorized|
    ensures Spent(ss[i].db, ss[i].authorized[CallOf(ss[i], events[i].client).check])
    ensures var did := events[i].did;
            !IsRegistered(ss[i].db, did) && IsRegistered(ss[i + 1].db, did) ==>
              RegistrationOf(ss[i + 1].db, did).email == OtpOfAct(ss, events, i).pk
  {
    assert StepAt(ss, events, i);
    RunKeepsInv(ss, events, i);
    assert ss[i].authorized[CallOf(ss[i], events[i].client).check] in ss[i].authorized;
  }

  /**
   * An OTP stands behind one call only: two acts on the same OTP are registrations of one call of one client, and a
   * revocation is the only act on its OTP.
   */
  lemma OtpServesOneCall(ss: seq<State>, events: seq<Event>, i: nat, j: nat)
    requires Run(ss, events) && i < j < |events| && IsAct(events[i]) && IsAct(events[j])
    ensures CallOf(ss[i], events[i].client).Authorized? && CallOf(ss[i], events[i].client).check < |ss[i].authorized|
    ensures CallOf(ss[j], events[j].client).Authorized? && CallOf(ss[j], events[j].client).check < |ss[j].authorized|
    ensures OtpOfAct(ss, events, i) == OtpOfAct(ss, events, j) ==>
              && events[i].RegisterDid? && events[j].RegisterDid? && events[i].client == events[j].client
              && SameCall(ss, i, j, events[i].client)
  {
    ActsAreAuthorized(ss, events, i);
    ActsAreAuthorized(ss, events, j);
    ChecksStay(ss, events, i, j);
    RunKeepsInv(ss, events, j);
    var x, y := events[i].client, events[j].client;
    if OtpOfAct(ss, events, i) == OtpOfAct(ss, events, j) {
      assert ss[i].authorized[CallOf(ss[i], x).check] == ss[j].authorized[CallOf(ss[i], x).check];
      CheckIsOneCall(ss, events, i, j, x, y);
      assert StepAt(ss, events, i) && StepAt(ss, events, j);
      assert CallOf(ss[i + 1], x) == CallOf(ss[i], x);
    }
  }

  ghost predicate WasActive(ss: seq<State>, i: nat, did: string) {
    exists k: nat :: k <= i && k < |ss| && IsActive(ss[k].db, did)
  }

  lemma WasActiveLater(ss: seq<State>, i: nat, did: string)
    requires WasActive(ss, i, did)
    ensures WasActive(ss, i + 1, did)
  {
  }

  ghost predicate NoncesWereActive(ss: seq<State>, i: nat)
    requires i < |ss|
  {
    && (forall client | client in ss[i].calls && ss[i].calls[client].ReadActive? ::
          WasActive(ss, i, ss[i].calls[client].did))
    && (forall key | key in ss[i].accepted :: WasActive(ss, i, key.pk))
  }

  lemma NextWasActive(ss: seq<State>, events: seq<Event>, i: nat)
    requires Run(ss, events) && i + 1 < |ss| && NoncesWereActive(ss, i)
    ensures NoncesWereActive(ss, i + 1)
  {
    assert StepAt(ss, events, i);
    var s, s', e := ss[i], ss[i + 1], events[i];
    forall client | client in s'.calls && s'.calls[client].ReadActive?
      ensures WasActive(ss, i + 1, s'.calls[client].did)
    {
      if client in s.calls && s'.calls[client] == s.calls[client] {
        WasActiveLater(ss, i, s.calls[client].did);
      } else {
        assert IsActive(ss[i].db, s'.calls[client].did);
      }
    }
    forall key | key in s'.accepted
      ensures WasActive(ss, i + 1, key.pk)
    {
      if key !in s.accepted {
        assert CallOf(s, e.client).did == key.pk;
      }
      WasActiveLater(ss, i, key.pk);
    }
  }

  lemma {:induction false} NonceNeedsActive(ss: seq<State>, events: seq<Event>, i: nat)
    requires Run(ss, events) && i < |ss|
    ensures NoncesWereActive(ss, i)
  {
    if i > 0 {
      NonceNeedsActive(ss, events, i - 1);
      NextWasActive(ss, events, i - 1);
    }
  }

  /** Each nonce of a DID is accepted at most once, and only after the DID was registered and active. */
  lemma NonceAcceptedOnce(ss: seq<State>, events: seq<Event>, i: nat, j: nat, k: nat)
    requires Run(ss, events) && i < |ss| && j < |ss[i].accepted| && k < |ss[i].accepted|
    ensures ss[i].accepted[j] == ss[i].accepted[k] ==> j == k
    ensures WasActive(ss, i, ss[i].accepted[j].pk)
    ensures ss[i].accepted[j].sk != INITIAL_NONCE
  {
    RunKeepsInv(ss, events, i);
    NonceNeedsActive(ss, events, i);
    var key := ss[i].accepted[j];
    assert key in ss[i].accepted;
    NonceRowsAreNonces(ss, events, i);
    var m: nat :| m <= i && m < |ss| && IsActive(ss[m].db, key.pk);
    RunAges(ss, events, m, i);
  }

  lemma {:induction false} NonceRowsAreNonces(ss: seq<State>, events: seq<Event>, i: nat)
    requires Run(ss, events) && i < |ss|
    ensures forall key | key in ss[i].accepted :: key in ss[i].db.dids && ss[i].db.dids[key].Nonce?
  {
    if i > 0 {
      NonceRowsAreNonces(ss, events, i - 1);
      assert StepAt(ss, events, i - 1);
      StepAges(ss[i - 1], ss[i], events[i - 1]);
    }
  }

  /** A registered DID keeps its email for ever, and once revoked it is never active again. */
  lemma RegistrationIsPermanent(ss: seq<State>, events: seq<Event>, i: nat, j: nat, did: string)
    requires Run(ss, events) && i <= j < |ss| && IsRegistered(ss[i].db, did)
    ensures IsRegistered(ss[j].db, did)
    ensures RegistrationOf(ss[j].db, did).email == RegistrationOf(ss[i].db, did).email
    ensures !IsActive(ss[i].db, did) ==> !IsActive(ss[j].db, did)
  {
    RunAges(ss, events, i, j);
  }
}
