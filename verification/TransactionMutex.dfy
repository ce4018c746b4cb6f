/** The advisory lock around submitting: calls follow one another, and so return different transactions. */
module TransactionMutex {
  import opened Wrappers
  import opened Ethereum

  type Client = nat

  /**
   * The holder of the lock, the transactions mined when it got it, and what has been finished under the lock so far.
   */
  datatype State = State(mined: seq<nat>, holder: Option<Client>, since: seq<nat>, finished: seq<Call>)

  datatype Event =
    | Mine(hash: nat)
    | TryLock(client: Client)
    | Finish(client: Client, call: Call)
    | Abort(client: Client)

  ghost predicate Next(hashOf: Submission -> nat, s: State, s': State, e: Event) {
    match e
    case Mine(hash) => s' == s.(mined := s.mined + [hash])
    case TryLock(client) =>
      // A try that fails is repeated after a delay.
      if s.holder.None? then s' == s.(holder := Some(client), since := s.mined) else s' == s
    case Finish(client, call) =>
      && s.holder == Some(client)
      && ValidCall(call, hashOf) && s.since <= call.before && call.after <= s.mined
      && s' == s.(holder := None, finished := s.finished + [call])
    case Abort(client) => s.holder == Some(client) && s' == s.(holder := None)
  }

  ghost predicate Run(hashOf: Submission -> nat, ss: seq<State>, events: seq<Event>) {
    && |ss| == |events| + 1
    && ss[0].holder.None? && ss[0].finished == []
    && forall i | 0 <= i < |events| :: StepAt(hashOf, ss, events, i)
  }

  ghost predicate StepAt(hashOf: Submission -> nat, ss: seq<State>, events: seq<Event>, i: int)
    requires 0 <= i < |events| < |ss|
  {
    Next(hashOf, ss[i], ss[i + 1], events[i])
  }

  /** What is finished was finished before the present holder began, and in turn. */
  ghost predicate Inv(hashOf: Submission -> nat, s: State) {
    && Serial(s.finished, hashOf)
    && (forall i | 0 <= i < |s.finished| :: s.finished[i].after <= s.mined)
    && (s.holder.Some? ==> s.since <= s.mined && forall i | 0 <= i < |s.finished| :: s.finished[i].after <= s.since)
  }

  lemma FinishKeepsInv(hashOf: Submission -> nat, s: State, s': State, e: Event)
    requires Inv(hashOf, s) && e.Finish? && Next(hashOf, s, s', e)
    ensures Inv(hashOf, s')
  {
    forall i, j | 0 <= i < j < |s'.finished|
      ensures s'.finished[i].after <= s'.finished[j].before
    {
      if j == |s.finished| {
        assert s.finished[i].after <= s.since;
      }
    }
  }

  lemma NextKeepsInv(hashOf: Submission -> nat, s: State, s': State, e: Event)
    requires Inv(hashOf, s) && Next(hashOf, s, s', e)
    ensures Inv(hashOf, s')
  {
    if e.Finish? {
      FinishKeepsInv(hashOf, s, s', e);
    } else {
      assert s.mined <= s'.mined && s'.finished == s.finished;
    }
  }

  lemma {:induction false} RunKeepsInv(hashOf: Submission -> nat, ss: seq<State>, events: seq<Event>, i: nat)
    requires Run(hashOf, ss, events) && i < |ss|
    ensures Inv(hashOf, ss[i])
  {
    if i > 0 {
      RunKeepsInv(hashOf, ss, events, i - 1);
      assert StepAt(hashOf, ss, events, i - 1);
      NextKeepsInv(hashOf, ss[i - 1], ss[i], events[i - 1]);
    }
  }

  function ResultOfCall(c: Call): Option<nat> {
    if c.attempts > 0 && ResultOf(c.schedule, c.base, c.attempts).Ok?
    then Some(ResultOf(c.schedule, c.base, c.attempts).value.txHash)
    else None
  }

  /** However many clients compete for the lock: what they submit under it succeeds with a transaction of its own. */
  lemma EachCallItsTransaction(hashOf: Submission -> nat, ss: seq<State>, events: seq<Event>, n: nat, i: nat, j: nat)
    requires Run(hashOf, ss, events) && n < |ss| && i < j < |ss[n].finished|
    requires forall s, t :: hashOf(s) == hashOf(t) ==> s == t
    ensures ResultOfCall(ss[n].finished[i]).Some? ==> ResultOfCall(ss[n].finished[i]) != ResultOfCall(ss[n].finished[j])
  {
    RunKeepsInv(hashOf, ss, events, n);
    var calls := ss[n].finished;
    assert ValidCall(calls[i], hashOf) && ValidCall(calls[j], hashOf);
    if ResultOfCall(calls[i]).Some? && ResultOfCall(calls[j]).Some? {
      TransactionsDiffer(calls, hashOf, i, j);
    }
  }

  /** `withTransactionMutex`: the number of tries until the lock is granted, or none within the limit. */
  method AcquireTransactionMutex(granted: nat -> bool, maxAttempts: Option<nat>, ghost eventually: nat)
    returns (tries: Option<nat>)
    requires maxAttempts.None? ==> eventually > 0 && granted(eventually)
    ensures tries.Some? ==> tries.value > 0 && granted(tries.value)
    ensures tries.Some? && maxAttempts.Some? ==> tries.value <= maxAttempts.value
    ensures tries.Some? ==> forall k: nat | 0 < k < tries.value :: !granted(k)
    ensures tries.None? ==> maxAttempts.Some? && forall k: nat | 0 < k <= maxAttempts.value :: !granted(k)
    ensures maxAttempts.None? ==> tries.Some?
  {
    var attempt := 1;
    while maxAttempts.None? || attempt <= maxAttempts.value
      invariant 0 < attempt
      invariant maxAttempts.None? ==> attempt <= eventually
      invariant maxAttempts.Some? ==> attempt <= maxAttempts.value + 1
      invariant forall k: nat | 0 < k < attempt :: !granted(k)
      decreases (if maxAttempts.Some? then maxAttempts.value else eventually) - attempt
    {
      if granted(attempt) {
        return Some(attempt);
      }
      attempt := attempt + 1;
    }
    return None;
  }
}
