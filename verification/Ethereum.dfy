/** Submitting a Merkle root to Ethereum: bounded retries against any schedule of provider answers. */
module Ethereum {
  import opened Wrappers
  import opened PathLine
  import opened Fees
  import opened Anchors

  const MAX_RETRIES: nat := 3
  const TX_FAILURE: nat := 0

  /** A signed transaction as the network sees it. */
  datatype Submission = Submission(to: string, data: string, nonce: nat, fields: TxFields)

  /** What becomes of one `wallet.sendTransaction`: an error may come although the network has the transaction. */
  datatype Sending = Rejected(code: ErrorCode) | Unanswered(code: ErrorCode) | Answered(chainId: nat)

  /** What becomes of one wait for a transaction. */
  datatype Confirmation =
    | Thrown(code: ErrorCode)
    | Receipt(blockNumber: nat, byzantium: bool, status: nat, timestamp: nat)
  {
    predicate Succeeds() {
      Receipt? && !(byzantium && status == TX_FAILURE)
    }
  }

  datatype Outcome = Outcome(quote: Quote, sending: Sending, confirmation: Confirmation)

  /** The service, and every answer that the provider is going to give during one call. */
  datatype Schedule = Schedule(
    chainId: Option<nat>,
    overrideGasLimit: Option<nat>,
    hashOf: Submission -> nat,
    startingBalance: int,
    endingBalanceKnown: bool,
    attempts: nat -> Outcome,
    recheck: nat -> Confirmation)

  /** The part of a transaction request that all attempts share. */
  datatype Base = Base(to: string, data: string, nonce: nat)

  datatype SendError = AttemptsSpent | InsufficientFunds | NotPriced | NonceExpired | NothingConfirmed | BalanceUnknown

  function CaipChainId(chainId: nat): string {
    "eip155:" + Decimal(chainId)
  }

  /** The name of the namespace, and the number, which can be read back. */
  lemma CaipChainIdReads(chainId: nat)
    ensures |CaipChainId(chainId)| > 7 && CaipChainId(chainId)[..7] == "eip155:"
    ensures forall i | 7 <= i < |CaipChainId(chainId)| :: '0' <= CaipChainId(chainId)[i] <= '9'
    ensures DigitsValue(CaipChainId(chainId)[7..], 0) == chainId
  {
    DecimalValue(chainId);
    assert CaipChainId(chainId)[7..] == Decimal(chainId);
  }

  // ----- One attempt, as a function of the schedule -----

  function NextFields(e: Schedule, f: TxFields, k: nat): TxFields {
    var q := e.attempts(k).quote;
    if e.overrideGasLimit.Some? then f.(gasLimit := e.overrideGasLimit)
    else
      var priority := Priced(f.maxPriorityFeePerGas, k, PriorityEstimate(q));
      TxFields(Priced(f.gasPrice, k, LegacyEstimate(q)),
               priority,
               MaxFee(f.maxFeePerGas, q, priority),
               if PricingError(q).None? && q.gas.Ok? then Some(q.gas.value) else f.gasLimit)
  }

  /** The fields of the request after its first `n` attempts. */
  function FieldsAfter(e: Schedule, n: nat): TxFields {
    if n == 0 then UNPRICED else NextFields(e, FieldsAfter(e, n - 1), n - 1)
  }

  function QuoteError(e: Schedule, k: nat): Option<ErrorCode> {
    var q := e.attempts(k).quote;
    if e.overrideGasLimit.Some? then None
    else if PricingError(q).Some? then PricingError(q)
    else if q.gas.Err? then Some(q.gas.error)
    else None
  }

  function SubmissionAt(e: Schedule, b: Base, k: nat): Submission {
    Submission(b.to, b.data, b.nonce, FieldsAfter(e, k + 1))
  }

  predicate IsSubmitted(e: Schedule, k: nat) {
    QuoteError(e, k).None? && !e.attempts(k).sending.Rejected?
  }

  /** The response arrived, from the chain the service is connected to. */
  predicate IsAnswered(e: Schedule, k: nat) {
    && IsSubmitted(e, k)
    && e.attempts(k).sending.Answered?
    && e.chainId == Some(e.attempts(k).sending.chainId)
  }

  function ErrorAt(e: Schedule, k: nat): Option<ErrorCode> {
    var outcome := e.attempts(k);
    if QuoteError(e, k).Some? then QuoteError(e, k)
    else if outcome.sending.Answered? then
      if !IsAnswered(e, k) then Some(OTHER)
      else if outcome.confirmation.Thrown? then Some(outcome.confirmation.code)
      else if outcome.confirmation.Succeeds() then None
      else Some(OTHER)
    else Some(outcome.sending.code)
  }

  function SubmittedIn(e: Schedule, b: Base, n: nat): seq<Submission> {
    if n == 0 then []
    else SubmittedIn(e, b, n - 1) + if IsSubmitted(e, n - 1) then [SubmissionAt(e, b, n - 1)] else []
  }

  function ResponsesIn(e: Schedule, b: Base, n: nat): seq<nat> {
    if n == 0 then []
    else ResponsesIn(e, b, n - 1) + if IsAnswered(e, n - 1) then [e.hashOf(SubmissionAt(e, b, n - 1))] else []
  }

  function TransactionOf(chainId: nat, hash: nat, c: Confirmation): Transaction
    requires c.Receipt?
  {
    Transaction(CaipChainId(chainId), hash, c.blockNumber, c.timestamp)
  }

  datatype End = Returns(tx: Transaction) | Raises(error: SendError) | Retries

  /** `handleInsufficientFundsError`, which fails on a request without a fee cap or a gas limit. */
  function FundsCheck(f: TxFields, balance: int): End {
    if f.gasLimit.None? || f.maxFeePerGas.None? then Raises(NotPriced)
    else if f.gasLimit.value * f.maxFeePerGas.value > balance then Raises(InsufficientFunds)
    else Retries
  }

  /** The newest of the first `n` responses that confirms now, if there is one. */
  function NewestConfirmed(e: Schedule, responses: seq<nat>, n: nat): Option<Transaction>
    requires n <= |responses| && (responses != [] ==> e.chainId.Some?)
  {
    if n == 0 then None
    else if e.recheck(responses[n - 1]).Succeeds() then
      Some(TransactionOf(e.chainId.value, responses[n - 1], e.recheck(responses[n - 1])))
    else NewestConfirmed(e, responses, n - 1)
  }

  lemma {:induction false} ResponsesFromChain(e: Schedule, b: Base, n: nat)
    ensures ResponsesIn(e, b, n) != [] ==> e.chainId.Some?
  {
    if n > 0 {
      ResponsesFromChain(e, b, n - 1);
    }
  }

  function EndOf(e: Schedule, b: Base, k: nat): End {
    var responses := ResponsesIn(e, b, k + 1);
    ResponsesFromChain(e, b, k + 1);
    match ErrorAt(e, k)
    case None => Returns(TransactionOf(e.chainId.value, e.hashOf(SubmissionAt(e, b, k)), e.attempts(k).confirmation))
    case Some(INSUFFICIENT_FUNDS) => FundsCheck(FieldsAfter(e, k + 1), e.startingBalance)
    case Some(TIMEOUT) => Retries
    case Some(NONCE_EXPIRED) =>
      if k == 0 || responses == [] then Raises(NonceExpired)
      else
        var newest := NewestConfirmed(e, responses, |responses|);
        if newest.Some? then Returns(newest.value) else Raises(NothingConfirmed)
    case Some(OTHER) => Retries
  }

  // ----- A whole call -----

  /** `n` attempts were made, and all but the last one asked for another. */
  predicate Made(e: Schedule, b: Base, n: nat) {
    && 0 < n <= MAX_RETRIES
    && (forall k: nat | k < n - 1 :: EndOf(e, b, k).Retries?)
    && (n < MAX_RETRIES ==> !EndOf(e, b, n - 1).Retries?)
  }

  function ResultOf(e: Schedule, b: Base, n: nat): Result<Transaction, SendError>
    requires n > 0
  {
    match EndOf(e, b, n - 1)
    case Returns(tx) => if e.endingBalanceKnown then Ok(tx) else Err(BalanceUnknown)
    case Raises(error) => Err(error)
    case Retries => Err(AttemptsSpent)
  }

  /** `_checkForPreviousTransactionSuccess`. */
  method CheckForPreviousTransactionSuccess(e: Schedule, txResponses: seq<nat>) returns (found: Option<Transaction>)
    requires txResponses != [] ==> e.chainId.Some?
    ensures found == NewestConfirmed(e, txResponses, |txResponses|)
  {
    var i := |txResponses|;
    while i > 0
      invariant 0 <= i <= |txResponses|
      invariant NewestConfirmed(e, txResponses, |txResponses|) == NewestConfirmed(e, txResponses, i)
    {
      i := i - 1;
      var c := e.recheck(txResponses[i]);
      if c.Succeeds() {
        return Some(TransactionOf(e.chainId.value, txResponses[i], c));
      }
    }
    return None;
  }

  /** The body of the retry loop: price, submit, confirm, and decide what an error means. */
  method Attempt(e: Schedule, b: Base, txData: TxData, k: nat, txResponses: seq<nat>, submissions: seq<Submission>)
    returns (end: End, responses: seq<nat>, submitted: seq<Submission>)
    requires Base(txData.to, txData.data, txData.nonce) == b && txData.Fields() == FieldsAfter(e, k)
    requires txResponses == ResponsesIn(e, b, k) && submissions == SubmittedIn(e, b, k)
    modifies txData
    ensures txData.Fields() == FieldsAfter(e, k + 1)
    ensures responses == ResponsesIn(e, b, k + 1) && submitted == SubmittedIn(e, b, k + 1)
    ensures end == EndOf(e, b, k)
  {
    responses, submitted := txResponses, submissions;
    var outcome := e.attempts(k);
    ResponsesFromChain(e, b, k + 1);
    var error := txData.SetGasPrice(e.overrideGasLimit, outcome.quote, k);
    if error.None? {
      var submission := Submission(txData.to, txData.data, txData.nonce, txData.Fields());
      match outcome.sending {
        case Rejected(code) => error := Some(code);
        case Unanswered(code) =>
          submitted := submitted + [submission];
          error := Some(code);
        case Answered(chainId) =>
          submitted := submitted + [submission];
          if e.chainId != Some(chainId) {
            error := Some(OTHER);
          } else {
            var hash := e.hashOf(submission);
            responses := responses + [hash];
            match outcome.confirmation {
              case Thrown(code) => error := Some(code);
              case Receipt(_, _, _, _) =>
                if outcome.confirmation.Succeeds() {
                  return Returns(TransactionOf(chainId, hash, outcome.confirmation)), responses, submitted;
                }
                error := Some(OTHER);
            }
          }
      }
    }
    match error.value {
      case INSUFFICIENT_FUNDS => end := FundsCheck(txData.Fields(), e.startingBalance);
      case TIMEOUT => end := Retries;
      case NONCE_EXPIRED =>
        if k == 0 || responses == [] {
          end := Raises(NonceExpired);
        } else {
          var found := CheckForPreviousTransactionSuccess(e, responses);
          end := if found.Some? then Returns(found.value) else Raises(NothingConfirmed);
        }
      case OTHER => end := Retries;
    }
  }

  /** `sendTransaction`, with the transactions that reached the network. */
  method SendTransaction(e: Schedule, b: Base)
    returns (r: Result<Transaction, SendError>, submissions: seq<Submission>, attempts: nat)
    ensures Made(e, b, attempts)
    ensures r == ResultOf(e, b, attempts) && submissions == SubmittedIn(e, b, attempts)
    ensures MeansWhatItSays(e, b, r, submissions, attempts)
  {
    var txData := new TxData(b.to, b.data, b.nonce);
    var txResponses: seq<nat> := [];
    submissions, attempts := [], 0;
    while attempts < MAX_RETRIES
      invariant attempts <= MAX_RETRIES
      invariant Base(txData.to, txData.data, txData.nonce) == b && txData.Fields() == FieldsAfter(e, attempts)
      invariant txResponses == ResponsesIn(e, b, attempts) && submissions == SubmittedIn(e, b, attempts)
      invariant forall k: nat | k < attempts :: EndOf(e, b, k).Retries?
    {
      var end;
      end, txResponses, submissions := Attempt(e, b, txData, attempts, txResponses, submissions);
      attempts := attempts + 1;
      if !end.Retries? {
        r := if end.Raises? then Err(end.error) else if e.endingBalanceKnown then Ok(end.tx) else Err(BalanceUnknown);
        ResultMeaning(e, b, attempts);
        return;
      }
    }
    r := Err(AttemptsSpent);
    ResultMeaning(e, b, attempts);
  }

  // ----- What a result means, in terms of the provider's answers -----

  /**
   * `c` is what the provider said of the transaction of attempt `j`, at once or when asked again: a receipt that does
   * not report a failure, for the block and time that `tx` has.
   */
  predicate ReceiptOf(e: Schedule, b: Base, j: nat, c: Confirmation, tx: Transaction) {
    && e.attempts(j).sending.Answered? && e.chainId == Some(e.attempts(j).sending.chainId)
    && c in {e.attempts(j).confirmation, e.recheck(e.hashOf(SubmissionAt(e, b, j)))}
    && c.Receipt? && (c.byzantium ==> c.status != 0)
    && tx.txHash == e.hashOf(SubmissionAt(e, b, j))
    && tx.chain == "eip155:" + Decimal(e.attempts(j).sending.chainId)
    && tx.blockNumber == c.blockNumber && tx.blockTimestamp == c.timestamp
  }

  /**
   * At most three attempts, three if they were spent, with submissions that differ in prices only. A transaction comes
   * with a receipt that does not report a failure, and a failure that is reported last is no success.
   */
  ghost predicate MeansWhatItSays(e: Schedule, b: Base, r: Result<Transaction, SendError>, submissions: seq<Submission>,
                                  n: nat)
  {
    && 0 < n <= 3 && |submissions| <= n
    && (forall s | s in submissions :: s.to == b.to && s.data == b.data && s.nonce == b.nonce)
    && (r == Err(AttemptsSpent) ==> n == 3)
    && (r == Err(BalanceUnknown) ==> !e.endingBalanceKnown)
    && (r.Ok? ==> exists j: nat, c :: j < n && ReceiptOf(e, b, j, c, r.value))
    && (IsAnswered(e, n - 1) && ReportsFailure(e.attempts(n - 1).confirmation) ==> r.Err?)
  }

  predicate ReportsFailure(c: Confirmation) {
    c.Receipt? && c.byzantium && c.status == 0
  }

  lemma ResultMeaning(e: Schedule, b: Base, n: nat)
    requires Made(e, b, n)
    ensures MeansWhatItSays(e, b, ResultOf(e, b, n), SubmittedIn(e, b, n), n)
  {
    SubmissionsShareBase(e, b, n);
    ReturnsOwnTransaction(e, b, n);
    if ResultOf(e, b, n).Ok? {
      var tx := ResultOf(e, b, n).value;
      if IsTransactionOf(e, b, n - 1, tx, e.attempts(n - 1).confirmation) {
        TransactionHasReceipt(e, b, n - 1, tx, e.attempts(n - 1).confirmation);
      } else {
        var j: nat :| j < n && IsTransactionOf(e, b, j, tx, e.recheck(e.hashOf(SubmissionAt(e, b, j))));
        TransactionHasReceipt(e, b, j, tx, e.recheck(e.hashOf(SubmissionAt(e, b, j))));
      }
    }
  }

  lemma TransactionHasReceipt(e: Schedule, b: Base, j: nat, tx: Transaction, c: Confirmation)
    requires IsTransactionOf(e, b, j, tx, c)
    requires c == e.attempts(j).confirmation || c == e.recheck(e.hashOf(SubmissionAt(e, b, j)))
    ensures ReceiptOf(e, b, j, c, tx)
  {
  }

  /** The provider quotes a legacy price, or a fee cap and a priority fee. */
  predicate HasPrice(q: Quote) {
    && q.feeData.Ok?
    && (q.feeData.value.gasPrice.Some?
        || (q.feeData.value.maxFeePerGas.Some? && q.feeData.value.maxPriorityFeePerGas.Some?))
  }

  predicate IsPriced(e: Schedule, k: nat) {
    e.overrideGasLimit.None? ==> HasPrice(e.attempts(k).quote) && e.attempts(k).quote.gas.Ok?
  }

  /** An attempt is submitted when it is priced and sent, and answered when a response comes from the chain expected. */
  lemma SubmittedIff(e: Schedule, k: nat)
    ensures var sending := e.attempts(k).sending;
            && (IsSubmitted(e, k) <==> IsPriced(e, k) && (sending.Unanswered? || sending.Answered?))
            && (IsAnswered(e, k) <==>
                  IsSubmitted(e, k) && sending.Answered? && e.chainId == Some(sending.chainId))
  {
  }

  /** Where the error of an attempt comes from: pricing, then sending, then waiting; a wrong chain has no code. */
  lemma ErrorSource(e: Schedule, k: nat)
    ensures var q, sending, c := e.attempts(k).quote, e.attempts(k).sending, e.attempts(k).confirmation;
            && (e.overrideGasLimit.None? && q.feeData.Err? ==> ErrorAt(e, k) == Some(q.feeData.error))
            && (e.overrideGasLimit.None? && q.feeData.Ok? && !HasPrice(q) ==> ErrorAt(e, k) == Some(OTHER))
            && (e.overrideGasLimit.None? && HasPrice(q) && q.gas.Err? ==> ErrorAt(e, k) == Some(q.gas.error))
            && (IsPriced(e, k) && sending.Rejected? ==> ErrorAt(e, k) == Some(sending.code))
            && (IsPriced(e, k) && sending.Unanswered? ==> ErrorAt(e, k) == Some(sending.code))
            && (IsSubmitted(e, k) && sending.Answered? && !IsAnswered(e, k) ==> ErrorAt(e, k) == Some(OTHER))
            && (IsAnswered(e, k) && c.Thrown? ==> ErrorAt(e, k) == Some(c.code))
            && (ErrorAt(e, k).None? <==> IsAnswered(e, k) && c.Receipt? && (c.byzantium ==> c.status != 0))
  {
  }

  /** An answered attempt returns if and only if its receipt does not report a failure; then it is tried again. */
  lemma AnsweredReturnsIff(e: Schedule, b: Base, k: nat)
    requires IsAnswered(e, k) && e.attempts(k).confirmation.Receipt?
    ensures var c := e.attempts(k).confirmation;
            && (EndOf(e, b, k).Returns? <==> !c.byzantium || c.status != 0)
            && (EndOf(e, b, k).Retries? <==> c.byzantium && c.status == 0)
  {
  }

  /** What makes a call fail at once, and with which error. */
  lemma RaisesExactly(e: Schedule, b: Base, k: nat)
    ensures var f, end, error := FieldsAfter(e, k + 1), EndOf(e, b, k), ErrorAt(e, k);
            && (end == Raises(NotPriced) <==>
                  error == Some(INSUFFICIENT_FUNDS) && (f.gasLimit.None? || f.maxFeePerGas.None?))
            && (end == Raises(InsufficientFunds) <==>
                  && error == Some(INSUFFICIENT_FUNDS) && f.gasLimit.Some? && f.maxFeePerGas.Some?
                  && f.gasLimit.value * f.maxFeePerGas.value > e.startingBalance)
            && (end == Raises(NonceExpired) <==>
                  error == Some(NONCE_EXPIRED) && (k == 0 || forall j: nat | j <= k :: !IsAnswered(e, j)))
            && (end == Raises(NothingConfirmed) <==>
                  && error == Some(NONCE_EXPIRED) && k > 0 && (exists j: nat :: j <= k && IsAnswered(e, j))
                  && forall j: nat | j <= k :: !ConfirmsLater(e, b, j))
  {
    ResponsesFromChain(e, b, k + 1);
    NewestIsNewest(e, b, k + 1);
    NoResponsesIff(e, b, k + 1);
    NoResponses(e, b, k + 1);
  }

  lemma {:induction false} NoResponsesIff(e: Schedule, b: Base, n: nat)
    ensures ResponsesIn(e, b, n) == [] <==> forall j: nat | j < n :: !IsAnswered(e, j)
  {
    if n > 0 {
      NoResponsesIff(e, b, n - 1);
    }
  }

  /**
   * Another attempt follows exactly a timeout, an unknown error, or too little money that would yet have been enough.
   */
  lemma RetriesExactly(e: Schedule, b: Base, k: nat)
    ensures var f := FieldsAfter(e, k + 1);
            EndOf(e, b, k).Retries? <==>
              || ErrorAt(e, k) == Some(TIMEOUT)
              || ErrorAt(e, k) == Some(OTHER)
              || (ErrorAt(e, k) == Some(INSUFFICIENT_FUNDS) && f.gasLimit.Some? && f.maxFeePerGas.Some?
                  && f.gasLimit.value * f.maxFeePerGas.value <= e.startingBalance)
  {
  }

  // ----- What a call submits -----

  lemma MadeOnce(e: Schedule, b: Base, m: nat, n: nat)
    requires Made(e, b, m) && Made(e, b, n)
    ensures m == n
  {
  }

  /** At most one submission per attempt, all with the request's receiver, data and nonce. */
  lemma {:induction false} SubmissionsShareBase(e: Schedule, b: Base, n: nat)
    ensures |SubmittedIn(e, b, n)| <= n
    ensures forall s | s in SubmittedIn(e, b, n) :: Base(s.to, s.data, s.nonce) == b
    ensures forall k: nat | k < n && IsSubmitted(e, k) :: SubmissionAt(e, b, k) in SubmittedIn(e, b, n)
    ensures forall s | s in SubmittedIn(e, b, n) ::
              exists k: nat :: k < n && IsSubmitted(e, k) && s == SubmissionAt(e, b, k)
  {
    if n > 0 {
      SubmissionsShareBase(e, b, n - 1);
      forall s | s in SubmittedIn(e, b, n)
        ensures exists k: nat :: k < n && IsSubmitted(e, k) && s == SubmissionAt(e, b, k)
      {
        if s !in SubmittedIn(e, b, n - 1) {
          assert IsSubmitted(e, n - 1) && s == SubmissionAt(e, b, n - 1);
        }
      }
    }
  }

  /** The transaction of attempt `j` is in `tx`, as confirmed by `c`. */
  predicate IsTransactionOf(e: Schedule, b: Base, j: nat, tx: Transaction, c: Confirmation) {
    && IsAnswered(e, j)
    && c.Succeeds()
    && tx == TransactionOf(e.attempts(j).sending.chainId, e.hashOf(SubmissionAt(e, b, j)), c)
  }

  predicate ConfirmsLater(e: Schedule, b: Base, j: nat) {
    IsAnswered(e, j) && e.recheck(e.hashOf(SubmissionAt(e, b, j))).Succeeds()
  }

  /** `tx` is what the re-check after attempt `n - 1` found: the newest response that confirms by then. */
  ghost predicate NewestOf(e: Schedule, b: Base, n: nat, tx: Transaction) {
    exists j: nat ::
      && j < n && ConfirmsLater(e, b, j)
      && IsTransactionOf(e, b, j, tx, e.recheck(e.hashOf(SubmissionAt(e, b, j))))
      && forall i: nat | j < i < n :: !ConfirmsLater(e, b, i)
  }

  lemma {:induction false} NewestIsNewest(e: Schedule, b: Base, n: nat)
    requires ResponsesIn(e, b, n) != [] ==> e.chainId.Some?
    ensures var rs := ResponsesIn(e, b, n);
            match NewestConfirmed(e, rs, |rs|)
            case Some(tx) => NewestOf(e, b, n, tx)
            case None => forall j: nat | j < n :: !ConfirmsLater(e, b, j)
  {
    if n > 0 {
      NewestIsNewest(e, b, n - 1);
      var rs, front := ResponsesIn(e, b, n), ResponsesIn(e, b, n - 1);
      NewestOfPrefix(e, rs, front, |front|);
      if ConfirmsLater(e, b, n - 1) {
        LastIsNewest(e, b, n);
      } else {
        NewestOfMore(e, b, n);
      }
    }
  }

  lemma LastIsNewest(e: Schedule, b: Base, n: nat)
    requires n > 0 && ConfirmsLater(e, b, n - 1) && e.chainId.Some?
    ensures var rs := ResponsesIn(e, b, n);
            var newest := NewestConfirmed(e, rs, |rs|);
            newest.Some? && NewestOf(e, b, n, newest.value)
  {
    var rs := ResponsesIn(e, b, n);
    assert IsTransactionOf(e, b, n - 1, NewestConfirmed(e, rs, |rs|).value, e.recheck(rs[|rs| - 1]));
  }

  /** A later attempt whose transaction does not confirm changes nothing. */
  lemma NewestOfMore(e: Schedule, b: Base, n: nat)
    requires n > 0 && !ConfirmsLater(e, b, n - 1)
    ensures forall tx | NewestOf(e, b, n - 1, tx) :: NewestOf(e, b, n, tx)
  {
  }

  lemma {:induction false} NewestOfPrefix(e: Schedule, responses: seq<nat>, front: seq<nat>, n: nat)
    requires front <= responses && n <= |front| && (responses != [] ==> e.chainId.Some?)
    ensures NewestConfirmed(e, responses, n) == NewestConfirmed(e, front, n)
  {
    if n > 0 {
      NewestOfPrefix(e, responses, front, n - 1);
    }
  }

  /**
   * A returned transaction is one of this call's own: the last one submitted, confirmed right away, or after an
   * expired nonce the newest one that confirms by then. A call that fails on an expired nonce has none that does.
   */
  lemma ReturnsOwnTransaction(e: Schedule, b: Base, n: nat)
    requires Made(e, b, n)
    ensures ResultOf(e, b, n).Ok? ==>
              var tx := ResultOf(e, b, n).value;
              || IsTransactionOf(e, b, n - 1, tx, e.attempts(n - 1).confirmation)
              || (n > 1 && ErrorAt(e, n - 1) == Some(NONCE_EXPIRED) && NewestOf(e, b, n, tx))
    ensures ResultOf(e, b, n) == Err(NothingConfirmed) ==> forall j: nat | j < n :: !ConfirmsLater(e, b, j)
  {
    ResponsesFromChain(e, b, n);
    NewestIsNewest(e, b, n);
  }

  // ----- The chain -----

  predicate HasReceipt(e: Schedule, b: Base, k: nat) {
    e.attempts(k).confirmation.Receipt? || e.recheck(e.hashOf(SubmissionAt(e, b, k))).Receipt?
  }

  /** Of the transactions mined so far, one for each nonce, these are the hashes; a receipt is for a mined one. */
  ghost predicate HonestReceipts(e: Schedule, b: Base, mined: map<nat, nat>) {
    forall k: nat | IsAnswered(e, k) && HasReceipt(e, b, k) ::
      b.nonce in mined && mined[b.nonce] == e.hashOf(SubmissionAt(e, b, k))
  }

  predicate IsMined(mined: map<nat, nat>, hashOf: Submission -> nat, s: Submission) {
    s.nonce in mined && mined[s.nonce] == hashOf(s)
  }

  /** A call submits at most three transactions, no two different ones are mined, and it returns the mined one. */
  lemma OneIsMined(e: Schedule, b: Base, n: nat, mined: map<nat, nat>)
    requires Made(e, b, n) && HonestReceipts(e, b, mined)
    ensures |SubmittedIn(e, b, n)| <= MAX_RETRIES
    ensures forall s, t | s in SubmittedIn(e, b, n) && t in SubmittedIn(e, b, n)
                          && IsMined(mined, e.hashOf, s) && IsMined(mined, e.hashOf, t) :: e.hashOf(s) == e.hashOf(t)
    ensures ResultOf(e, b, n).Ok? ==>
              exists s :: s in SubmittedIn(e, b, n) && IsMined(mined, e.hashOf, s) && s.data == b.data
                          && e.hashOf(s) == ResultOf(e, b, n).value.txHash
  {
    SubmissionsShareBase(e, b, n);
    ReturnsOwnTransaction(e, b, n);
    if ResultOf(e, b, n).Ok? {
      var tx := ResultOf(e, b, n).value;
      var j: nat;
      if IsTransactionOf(e, b, n - 1, tx, e.attempts(n - 1).confirmation) {
        j := n - 1;
      } else {
        j :| j < n && ConfirmsLater(e, b, j)
             && IsTransactionOf(e, b, j, tx, e.recheck(e.hashOf(SubmissionAt(e, b, j))));
      }
      assert IsAnswered(e, j) && SubmissionAt(e, b, j) in SubmittedIn(e, b, n);
    }
  }

  /**
   * A call comes back with a transaction if and only if its last attempt confirms one: its own right away, or after an
   * expired nonce an earlier one of its own that confirms by then.
   */
  predicate Confirms(e: Schedule, b: Base, n: nat)
    requires n > 0
  {
    || ErrorAt(e, n - 1).None?
    || (ErrorAt(e, n - 1) == Some(NONCE_EXPIRED) && n > 1 && exists j: nat | j < n :: ConfirmsLater(e, b, j))
  }

  /**
   * A submission of the call that is mined is returned if and only if the last attempt confirms one, and the balance
   * can be read afterwards. So it is lost to the caller after a third timeout, a submission whose answer never came,
   * or an expired nonce at the first attempt.
   */
  lemma MinedIsReturnedIff(e: Schedule, b: Base, n: nat, mined: map<nat, nat>, s: Submission)
    requires Made(e, b, n) && HonestReceipts(e, b, mined)
    requires s in SubmittedIn(e, b, n) && IsMined(mined, e.hashOf, s)
    ensures (ResultOf(e, b, n).Ok? && ResultOf(e, b, n).value.txHash == e.hashOf(s)) <==>
              e.endingBalanceKnown && Confirms(e, b, n)
  {
    ReturnsIff(e, b, n);
    SubmissionsShareBase(e, b, n);
    if ResultOf(e, b, n).Ok? {
      OneIsMined(e, b, n, mined);
    }
  }

  lemma ReturnsIff(e: Schedule, b: Base, n: nat)
    requires Made(e, b, n)
    ensures ResultOf(e, b, n).Ok? <==> e.endingBalanceKnown && Confirms(e, b, n)
  {
    ResponsesFromChain(e, b, n);
    NewestIsNewest(e, b, n);
    NoResponses(e, b, n);
  }

  lemma {:induction false} NoResponses(e: Schedule, b: Base, n: nat)
    ensures ResponsesIn(e, b, n) == [] ==> forall j: nat | j < n :: !ConfirmsLater(e, b, j)
  {
    if n > 0 {
      NoResponses(e, b, n - 1);
    }
  }

  /** Three submissions that time out fail the call, whatever is mined. */
  lemma TimeoutsLoseMined(e: Schedule, b: Base, mined: map<nat, nat>)
    requires forall k: nat | k < MAX_RETRIES :: IsSubmitted(e, k) && ErrorAt(e, k) == Some(TIMEOUT)
    requires IsMined(mined, e.hashOf, SubmissionAt(e, b, 0))
    ensures Made(e, b, MAX_RETRIES) && ResultOf(e, b, MAX_RETRIES) == Err(AttemptsSpent)
    ensures exists s :: s in SubmittedIn(e, b, MAX_RETRIES) && IsMined(mined, e.hashOf, s)
  {
    SubmissionsShareBase(e, b, MAX_RETRIES);
  }

  // ----- Prices of a call -----

  function LegacyEstimates(e: Schedule, n: nat): (estimates: seq<Option<nat>>)
    ensures |estimates| == n
  {
    seq(n, k requires 0 <= k => if e.overrideGasLimit.Some? then None else LegacyEstimate(e.attempts(k).quote))
  }

  function PriorityEstimates(e: Schedule, n: nat): (estimates: seq<Option<nat>>)
    ensures |estimates| == n
  {
    seq(n, k requires 0 <= k => if e.overrideGasLimit.Some? then None else PriorityEstimate(e.attempts(k).quote))
  }

  /** Both prices of the request follow their estimates, also when the network changes between the two kinds. */
  lemma {:induction false} FieldsFollowEstimates(e: Schedule, n: nat)
    ensures FieldsAfter(e, n).gasPrice == PriceAfter(LegacyEstimates(e, n))
    ensures FieldsAfter(e, n).maxPriorityFeePerGas == PriceAfter(PriorityEstimates(e, n))
  {
    if n > 0 {
      FieldsFollowEstimates(e, n - 1);
      assert LegacyEstimates(e, n)[..n - 1] == LegacyEstimates(e, n - 1);
      assert PriorityEstimates(e, n)[..n - 1] == PriorityEstimates(e, n - 1);
    }
  }

  /** A resubmission pays more than the earlier one, in whichever of the two prices both of them have. */
  lemma ResubmissionsPayMore(e: Schedule, b: Base, i: nat, j: nat)
    requires i < j
    ensures var f, g := SubmissionAt(e, b, i).fields, SubmissionAt(e, b, j).fields;
            && (f.gasPrice.Some? ==>
                  && g.gasPrice.Some?
                  && PaysMore(LegacyEstimates(e, j + 1), i + 1, f.gasPrice.value, g.gasPrice.value))
            && (f.maxPriorityFeePerGas.Some? ==>
                  && g.maxPriorityFeePerGas.Some?
                  && PaysMore(PriorityEstimates(e, j + 1), i + 1, f.maxPriorityFeePerGas.value,
                              g.maxPriorityFeePerGas.value))
  {
    FieldsFollowEstimates(e, i + 1);
    FieldsFollowEstimates(e, j + 1);
    assert LegacyEstimates(e, j + 1)[..i + 1] == LegacyEstimates(e, i + 1);
    assert PriorityEstimates(e, j + 1)[..i + 1] == PriorityEstimates(e, i + 1);
    LaterPaysMore(LegacyEstimates(e, j + 1), i + 1);
    LaterPaysMore(PriorityEstimates(e, j + 1), i + 1);
  }

  lemma LaterPaysMore(estimates: seq<Option<nat>>, i: nat)
    requires i < |estimates|
    ensures PriceAfter(estimates[..i]).Some? ==>
              && PriceAfter(estimates).Some?
              && PaysMore(estimates, i, PriceAfter(estimates[..i]).value, PriceAfter(estimates).value)
  {
    if PriceAfter(estimates[..i]).Some? {
      CompoundBound(estimates, i);
    }
  }

  /** The quote that set the fee cap: the last of the first `n` that is for EIP-1559. */
  function LastPriorityQuote(e: Schedule, n: nat): Option<Quote> {
    if n == 0 || e.overrideGasLimit.Some? then None
    else if PriorityEstimate(e.attempts(n - 1).quote).Some? then Some(e.attempts(n - 1).quote)
    else LastPriorityQuote(e, n - 1)
  }

  /**
   * The fee cap exceeds the priority fee by exactly what the estimates of the last quote differ, so it covers the
   * priority fee, as EIP-1559 requires, exactly when that quote's estimates do.
   */
  lemma {:induction false} FeeCapKeepsDistance(e: Schedule, n: nat)
    ensures var f, q := FieldsAfter(e, n), LastPriorityQuote(e, n);
            && (f.maxFeePerGas.Some? <==> q.Some?)
            && (f.maxPriorityFeePerGas.Some? <==> q.Some?)
            && (q.Some? ==>
                  && PriorityEstimate(q.value).Some?
                  && var fees := q.value.feeData.value;
                     && f.maxFeePerGas.value - f.maxPriorityFeePerGas.value
                          == fees.maxFeePerGas.value - fees.maxPriorityFeePerGas.value
                     && (f.maxFeePerGas.value >= f.maxPriorityFeePerGas.value
                         <==> fees.maxFeePerGas.value >= fees.maxPriorityFeePerGas.value))
  {
    if n > 0 {
      FeeCapKeepsDistance(e, n - 1);
    }
  }

  // ----- Calls under the transaction mutex -----

  /** A finished call: the transactions mined before it, by nonce, and those mined when it returned. */
  datatype Call = Call(schedule: Schedule, base: Base, attempts: nat, before: seq<nat>, after: seq<nat>)

  function ByNonce(mined: seq<nat>): map<nat, nat> {
    map i: nat | i < |mined| :: mined[i]
  }

  ghost predicate ValidCall(c: Call, hashOf: Submission -> nat) {
    && c.schedule.hashOf == hashOf
    && c.base.nonce == |c.before|
    && c.before <= c.after
    && Made(c.schedule, c.base, c.attempts)
    && HonestReceipts(c.schedule, c.base, ByNonce(c.after))
  }

  /** The mutex makes calls follow one another, and the chain only grows. */
  ghost predicate Serial(calls: seq<Call>, hashOf: Submission -> nat) {
    && (forall i | 0 <= i < |calls| :: ValidCall(calls[i], hashOf))
    && (forall i, j | 0 <= i < j < |calls| :: calls[i].after <= calls[j].before)
  }

  /** Two calls that succeed return different transactions, each carrying the data of its own call. */
  lemma TransactionsDiffer(calls: seq<Call>, hashOf: Submission -> nat, i: nat, j: nat)
    requires Serial(calls, hashOf) && i < j < |calls|
    requires forall s, t :: hashOf(s) == hashOf(t) ==> s == t
    requires ResultOf(calls[i].schedule, calls[i].base, calls[i].attempts).Ok?
    requires ResultOf(calls[j].schedule, calls[j].base, calls[j].attempts).Ok?
    ensures calls[i].base.nonce < calls[j].base.nonce
    ensures ResultOf(calls[i].schedule, calls[i].base, calls[i].attempts).value.txHash
         != ResultOf(calls[j].schedule, calls[j].base, calls[j].attempts).value.txHash
  {
    var c, d := calls[i], calls[j];
    assert ValidCall(c, hashOf) && ValidCall(d, hashOf);
    OneIsMined(c.schedule, c.base, c.attempts, ByNonce(c.after));
    OneIsMined(d.schedule, d.base, d.attempts, ByNonce(d.after));
    SubmissionsShareBase(c.schedule, c.base, c.attempts);
    SubmissionsShareBase(d.schedule, d.base, d.attempts);
    assert |c.before| < |c.after| <= |d.before|;
  }
}
