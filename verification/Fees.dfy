/** The price of a transaction over the attempts to submit it. */
module Fees {
  import opened Wrappers

  function Pow(b: nat, n: nat): nat {
    if n == 0 then 1 else b * Pow(b, n - 1)
  }

  /** The least price that replaces a transaction: 10% more, rounded down as the integer division does. */
  function Bump(price: nat): nat {
    price + price / 10
  }

  function BumpTimes(price: nat, n: nat): nat {
    if n == 0 then price else Bump(BumpTimes(price, n - 1))
  }

  /** An estimate, raised by 10% of itself for every attempt made before. */
  function Scaled(estimate: nat, attempt: nat): nat {
    estimate + estimate / 10 * attempt
  }

  function IncreaseGasPricePerAttempt(estimate: nat, attempt: nat, previousGas: Option<nat>): nat {
    var increaseEstimate := Scaled(estimate, attempt);
    if attempt == 0 || previousGas.None? then increaseEstimate
    else
      var increaseTransaction := Bump(previousGas.value);
      if increaseEstimate > increaseTransaction then increaseEstimate else increaseTransaction
  }

  /** A price of the transaction data after one attempt; without an estimate the attempt does not set it. */
  function Priced(previous: Option<nat>, attempt: nat, estimate: Option<nat>): Option<nat> {
    if estimate.None? then previous
    else Some(IncreaseGasPricePerAttempt(estimate.value, attempt, Some(previous.GetOr(estimate.value))))
  }

  /** The price after attempts 0, 1, ... with these estimates. */
  function PriceAfter(estimates: seq<Option<nat>>): Option<nat> {
    if estimates == [] then None
    else
      var n := |estimates| - 1;
      Priced(PriceAfter(estimates[..n]), n, estimates[n])
  }

  function PricedIn(estimates: seq<Option<nat>>): nat {
    if estimates == [] then 0
    else PricedIn(estimates[..|estimates| - 1]) + if estimates[|estimates| - 1].Some? then 1 else 0
  }

  // ----- Arithmetic of one bump -----

  lemma BumpMonotone(p: nat, q: nat)
    requires p <= q
    ensures Bump(p) <= Bump(q)
  {
  }

  lemma {:induction false} BumpTimesMonotone(p: nat, q: nat, n: nat)
    requires p <= q
    ensures BumpTimes(p, n) <= BumpTimes(q, n)
  {
    if n > 0 {
      BumpTimesMonotone(p, q, n - 1);
      BumpMonotone(BumpTimes(p, n - 1), BumpTimes(q, n - 1));
    }
  }

  lemma {:induction false} BumpTimesAdd(p: nat, m: nat, n: nat)
    ensures BumpTimes(BumpTimes(p, m), n) == BumpTimes(p, m + n)
  {
    if n > 0 {
      BumpTimesAdd(p, m, n - 1);
    }
  }

  lemma {:induction false} BumpTimesGrows(p: nat, n: nat)
    ensures BumpTimes(p, n) >= p
    ensures n > 0 && p >= 10 ==> BumpTimes(p, n) > p
    ensures p < 10 ==> BumpTimes(p, n) == p
  {
    if n > 0 {
      BumpTimesGrows(p, n - 1);
    }
  }

  lemma OneMore(d: nat, n: nat)
    requires n > 0
    ensures d * n == d * (n - 1) + d
  {
  }

  /** Compounding never loses to adding 10% of the first price each time. */
  lemma {:induction false} ScaledBelowBumps(e: nat, n: nat)
    ensures Scaled(e, n) <= BumpTimes(e, n)
  {
    if n > 0 {
      ScaledBelowBumps(e, n - 1);
      BumpTimesGrows(e, n - 1);
      OneMore(e / 10, n);
    }
  }

  lemma ScaledMonotone(d: nat, e: nat, n: nat)
    requires d <= e
    ensures Scaled(d, n) <= Scaled(e, n)
  {
  }

  /**
   * A retry is meant to pay at least 10% more than before. The division rounds down, so it does exactly if the
   * previous price is a multiple of 10 or the raised estimate is that high by itself.
   */
  lemma TenPercentMoreIff(estimate: nat, attempt: nat, previous: nat)
    requires attempt > 0
    ensures 10 * IncreaseGasPricePerAttempt(estimate, attempt, Some(previous)) >= 11 * previous
            <==> previous % 10 == 0 || 10 * Scaled(estimate, attempt) >= 11 * previous
  {
  }

  /** A raise adds, per attempt made before, a tenth of the estimate without its last digit. */
  lemma ScaledExactly(estimate: nat, attempt: nat)
    ensures 10 * (Scaled(estimate, attempt) - estimate) == attempt * (estimate - estimate % 10)
    ensures Scaled(1000, 0) == 1000 && Scaled(1000, 1) == 1100 && Scaled(1000, 2) == 1200
  {
    assert estimate / 10 * 10 == estimate - estimate % 10;
    assert 10 * (estimate / 10 * attempt) == attempt * (estimate / 10 * 10);
  }

  /** The first attempt pays the estimate; a retry pays the raised estimate or the bumped price, whichever is more. */
  lemma IncreaseIsTheHigher(estimate: nat, attempt: nat, previous: nat)
    ensures var price := IncreaseGasPricePerAttempt(estimate, attempt, Some(previous));
            && (attempt == 0 ==> price == estimate)
            && (attempt > 0 ==> price >= Scaled(estimate, attempt) && price >= previous + previous / 10)
            && (attempt > 0 ==> price == Scaled(estimate, attempt) || price == previous + previous / 10)
    ensures IncreaseGasPricePerAttempt(estimate, attempt, None) == Scaled(estimate, attempt)
    ensures IncreaseGasPricePerAttempt(1000, 2, Some(1100)) == 1210
  {
  }

  lemma LessThanTenPercentMore()
    ensures IncreaseGasPricePerAttempt(15, 1, Some(15)) == 16
    ensures 10 * IncreaseGasPricePerAttempt(15, 1, Some(15)) < 11 * 15
  {
  }

  // ----- Closed form -----

  /** What the estimate of attempt `j` amounts to now: bumped once by every priced attempt since. */
  function Offer(estimates: seq<Option<nat>>, j: nat): nat
    requires j < |estimates| && estimates[j].Some?
  {
    BumpTimes(Scaled(estimates[j].value, j), PricedIn(estimates[j + 1..]))
  }

  lemma OfferNext(estimates: seq<Option<nat>>, j: nat)
    requires j < |estimates| - 1 && estimates[j].Some?
    ensures var before := Offer(estimates[..|estimates| - 1], j);
            Offer(estimates, j) == if estimates[|estimates| - 1].Some? then Bump(before) else before
  {
    var n := |estimates| - 1;
    assert estimates[j + 1..][..|estimates[j + 1..]| - 1] == estimates[..n][j + 1..];
  }

  ghost predicate IsBestOffer(estimates: seq<Option<nat>>, price: nat) {
    && (exists j: nat :: j < |estimates| && estimates[j].Some? && price == Offer(estimates, j))
    && (forall j: nat | j < |estimates| && estimates[j].Some? :: Offer(estimates, j) <= price)
  }

  /** The price is the best of all offers so far, and is unset exactly when there was no estimate. */
  lemma {:induction false} ClosedForm(estimates: seq<Option<nat>>)
    ensures PriceAfter(estimates).None? <==> forall j | 0 <= j < |estimates| :: estimates[j].None?
    ensures PriceAfter(estimates).Some? ==> IsBestOffer(estimates, PriceAfter(estimates).value)
  {
    if estimates != [] {
      var n := |estimates| - 1;
      var front := estimates[..n];
      ClosedForm(front);
      assert forall j | 0 <= j < n :: front[j] == estimates[j];
      if estimates[n].Some? {
        assert estimates[n + 1..] == [];
        BestOfferNext(estimates);
      } else if PriceAfter(estimates).Some? {
        BestOfferStays(estimates, PriceAfter(front).value);
      }
    }
  }

  lemma BestOfferStays(estimates: seq<Option<nat>>, price: nat)
    requires estimates != [] && estimates[|estimates| - 1].None? && IsBestOffer(estimates[..|estimates| - 1], price)
    ensures IsBestOffer(estimates, price)
  {
    var n := |estimates| - 1;
    var i: nat :| i < n && estimates[..n][i].Some? && price == Offer(estimates[..n], i);
    OfferNext(estimates, i);
    assert price == Offer(estimates, i);
    forall j: nat | j < |estimates| && estimates[j].Some?
      ensures Offer(estimates, j) <= price
    {
      OfferNext(estimates, j);
      assert estimates[..n][j].Some?;
    }
  }

  lemma BestOfferNext(estimates: seq<Option<nat>>)
    requires estimates != [] && estimates[|estimates| - 1].Some?
    requires var front := estimates[..|estimates| - 1];
             if PriceAfter(front).Some? then IsBestOffer(front, PriceAfter(front).value)
             else forall j | 0 <= j < |front| :: front[j].None?
    ensures IsBestOffer(estimates, PriceAfter(estimates).value)
  {
    var n := |estimates| - 1;
    var front, e := estimates[..n], estimates[n].value;
    var price := PriceAfter(estimates).value;
    assert estimates[n + 1..] == [];
    assert Offer(estimates, n) == Scaled(e, n);
    if PriceAfter(front).None? {
      LeastRaise(e, n);
      assert forall j | 0 <= j < n :: front[j] == estimates[j];
    } else {
      var p := PriceAfter(front).value;
      assert n > 0;
      var i: nat :| i < n && front[i].Some? && p == Offer(front, i);
      OfferNext(estimates, i);
      assert Offer(estimates, i) == Bump(p);
      forall j: nat | j < |estimates| && estimates[j].Some?
        ensures Offer(estimates, j) <= price
      {
        if j < n {
          OfferNext(estimates, j);
          assert front[j].Some?;
          BumpMonotone(Offer(front, j), p);
        }
      }
    }
  }

  /** On a retry the raised estimate is at least the bumped one. */
  lemma LeastRaise(e: nat, n: nat)
    ensures n > 0 ==> Scaled(e, n) >= Bump(e)
    ensures Scaled(e, 0) == e
  {
  }

  /** Every attempt has an estimate, and none exceeds the first. */
  predicate FirstIsHighest(estimates: seq<Option<nat>>) {
    && estimates != [] && estimates[0].Some?
    && forall j | 0 <= j < |estimates| :: estimates[j].Some? && estimates[j].value <= estimates[0].value
  }

  lemma OfferBelowFirst(estimates: seq<Option<nat>>, j: nat)
    requires FirstIsHighest(estimates) && j < |estimates|
    ensures Offer(estimates, j) <= BumpTimes(estimates[0].value, |estimates| - 1)
    ensures j == 0 ==> Offer(estimates, j) == BumpTimes(estimates[0].value, |estimates| - 1)
  {
    var first, n := estimates[0].value, |estimates| - 1;
    AllPriced(estimates[j + 1..]);
    ScaledMonotone(estimates[j].value, first, j);
    ScaledBelowBumps(first, j);
    BumpTimesMonotone(Scaled(estimates[j].value, j), BumpTimes(first, j), n - j);
    BumpTimesAdd(first, j, n - j);
    LeastRaise(first, j);
  }

  /** Then the first estimate is compounded. */
  lemma FirstEstimateRules(estimates: seq<Option<nat>>)
    requires FirstIsHighest(estimates)
    ensures PriceAfter(estimates) == Some(BumpTimes(estimates[0].value, |estimates| - 1))
  {
    ClosedForm(estimates);
    var price := PriceAfter(estimates).value;
    var i: nat :| i < |estimates| && estimates[i].Some? && price == Offer(estimates, i);
    OfferBelowFirst(estimates, i);
    OfferBelowFirst(estimates, 0);
  }

  lemma {:induction false} AllPriced(estimates: seq<Option<nat>>)
    requires forall j | 0 <= j < |estimates| :: estimates[j].Some?
    ensures PricedIn(estimates) == |estimates|
  {
    if estimates != [] {
      AllPriced(estimates[..|estimates| - 1]);
    }
  }

  // ----- Bounds over a run -----

  /** `q` is at least `p` raised `n` times by 10%, up to the 9 wei that rounding may cost. */
  predicate Compounded(p: int, q: int, n: nat) {
    Pow(10, n) * (q - 9) >= Pow(11, n) * (p - 9)
  }

  lemma CompoundedMore(p: int, q: int, more: int, n: nat)
    requires Compounded(p, q, n) && q <= more
    ensures Compounded(p, more, n)
  {
  }

  lemma {:induction false} CompoundBumps(p: nat, n: nat)
    ensures Compounded(p, BumpTimes(p, n), n)
  {
    if n > 0 {
      CompoundBumps(p, n - 1);
      CompoundStep(Pow(10, n - 1), Pow(11, n - 1), p - 9, BumpTimes(p, n - 1) - 9, BumpTimes(p, n) - 9);
    }
  }

  lemma CompoundStep(a: nat, b: nat, x: int, y: int, z: int)
    requires a * y >= b * x && 10 * z >= 11 * y
    ensures 10 * a * z >= 11 * b * x
  {
  }

  /**
   * Whatever the estimates, the price after more attempts is at least the earlier one, bumped by each priced attempt.
   */
  lemma {:induction false} PriceBumped(estimates: seq<Option<nat>>, i: nat)
    requires i <= |estimates| && PriceAfter(estimates[..i]).Some?
    ensures PriceAfter(estimates).Some?
    ensures PriceAfter(estimates).value >= BumpTimes(PriceAfter(estimates[..i]).value, PricedIn(estimates[i..]))
  {
    if i == |estimates| {
      assert estimates[..i] == estimates;
    } else {
      var n := |estimates| - 1;
      assert estimates[..n][..i] == estimates[..i] && estimates[..n][i..] == estimates[i..][..|estimates[i..]| - 1];
      PriceBumped(estimates[..n], i);
      var p := PriceAfter(estimates[..i]).value;
      BumpMonotone(BumpTimes(p, PricedIn(estimates[..n][i..])), PriceAfter(estimates[..n]).value);
      assert i > 0;
    }
  }

  /**
   * The replacement bound between the price `p` after `i` attempts and `q` after all of them: compounded by every
   * priced attempt since, never lower, and strictly higher from 10 wei up if the last attempt was priced.
   */
  predicate PaysMore(estimates: seq<Option<nat>>, i: nat, p: nat, q: nat)
    requires i < |estimates|
  {
    && Compounded(p, q, PricedIn(estimates[i..]))
    && q >= p
    && (p >= 10 && estimates[|estimates| - 1].Some? ==> q > p)
  }

  lemma CompoundBound(estimates: seq<Option<nat>>, i: nat)
    requires i < |estimates| && PriceAfter(estimates[..i]).Some?
    ensures PriceAfter(estimates).Some?
    ensures PaysMore(estimates, i, PriceAfter(estimates[..i]).value, PriceAfter(estimates).value)
  {
    PriceBumped(estimates, i);
    var p, n := PriceAfter(estimates[..i]).value, PricedIn(estimates[i..]);
    BumpTimesGrows(p, n);
    CompoundBumps(p, n);
    CompoundedMore(p, BumpTimes(p, n), PriceAfter(estimates).value, n);
    assert estimates[i..][|estimates[i..]| - 1] == estimates[|estimates| - 1];
  }

  // ----- The fields of a transaction request -----

  datatype ErrorCode = INSUFFICIENT_FUNDS | TIMEOUT | NONCE_EXPIRED | OTHER

  datatype FeeData = FeeData(gasPrice: Option<nat>, maxFeePerGas: Option<nat>, maxPriorityFeePerGas: Option<nat>) {
    predicate Is1559() {
      maxFeePerGas.Some? && maxPriorityFeePerGas.Some?
    }
  }

  datatype TxFields = TxFields(gasPrice: Option<nat>, maxPriorityFeePerGas: Option<nat>, maxFeePerGas: Option<int>,
                               gasLimit: Option<nat>)

  const UNPRICED := TxFields(None, None, None, None)

  /** What the provider answers while an attempt is priced. */
  datatype Quote = Quote(feeData: Result<FeeData, ErrorCode>, gas: Result<nat, ErrorCode>)

  function LegacyEstimate(q: Quote): Option<nat> {
    if q.feeData.Ok? && !q.feeData.value.Is1559() then q.feeData.value.gasPrice else None
  }

  function PriorityEstimate(q: Quote): Option<nat> {
    if q.feeData.Ok? && q.feeData.value.Is1559() then q.feeData.value.maxPriorityFeePerGas else None
  }

  /** Whether the pricing half of `setGasPrice` throws, before it asks for the gas limit. */
  function PricingError(q: Quote): Option<ErrorCode> {
    if q.feeData.Err? then Some(q.feeData.error)
    else if !q.feeData.value.Is1559() && q.feeData.value.gasPrice.None? then Some(OTHER)
    else None
  }

  /** The transaction data, updated in place by every attempt. */
  class TxData {
    const to: string
    const data: string
    const nonce: nat
    var gasPrice: Option<nat>
    var maxPriorityFeePerGas: Option<nat>
    var maxFeePerGas: Option<int>
    var gasLimit: Option<nat>

    constructor (to: string, data: string, nonce: nat)
      ensures this.to == to && this.data == data && this.nonce == nonce && Fields() == UNPRICED
    {
      this.to, this.data, this.nonce := to, data, nonce;
      gasPrice, maxPriorityFeePerGas, maxFeePerGas, gasLimit := None, None, None, None;
    }

    function Fields(): TxFields
      reads this
    {
      TxFields(gasPrice, maxPriorityFeePerGas, maxFeePerGas, gasLimit)
    }

    /** `setGasPrice`: a failure leaves what was set before it. */
    method SetGasPrice(overrideGasLimit: Option<nat>, q: Quote, attempt: nat) returns (error: Option<ErrorCode>)
      modifies this
      ensures overrideGasLimit.Some? ==> error == None && Fields() == old(Fields()).(gasLimit := overrideGasLimit)
      ensures overrideGasLimit.None? ==>
                && error == (if PricingError(q).Some? then PricingError(q)
                             else if q.gas.Err? then Some(q.gas.error) else None)
                && gasPrice == Priced(old(gasPrice), attempt, LegacyEstimate(q))
                && maxPriorityFeePerGas == Priced(old(maxPriorityFeePerGas), attempt, PriorityEstimate(q))
                && maxFeePerGas == MaxFee(old(maxFeePerGas), q, maxPriorityFeePerGas)
                && gasLimit == (if error.None? then Some(q.gas.value) else old(gasLimit))
      ensures overrideGasLimit.None? && q.feeData.Err? ==> error == Some(q.feeData.error) && Fields() == old(Fields())
      ensures overrideGasLimit.None? && q.feeData.Ok? &&
              (q.feeData.value.Is1559() || q.feeData.value.gasPrice.Some?) ==>
                if q.gas.Ok? then error == None && gasLimit == Some(q.gas.value)
                else error == Some(q.gas.error) && gasLimit == old(gasLimit)
      ensures overrideGasLimit.None? && q.feeData.Ok? ==>
                var fees := q.feeData.value;
                if fees.maxFeePerGas.Some? && fees.maxPriorityFeePerGas.Some? then
                  var tip := fees.maxPriorityFeePerGas.value;
                  && gasPrice == old(gasPrice)
                  && maxPriorityFeePerGas
                     == Some(IncreaseGasPricePerAttempt(tip, attempt, Some(old(maxPriorityFeePerGas).GetOr(tip))))
                  && maxFeePerGas == Some(fees.maxFeePerGas.value - tip + maxPriorityFeePerGas.value)
                else
                  && maxPriorityFeePerGas == old(maxPriorityFeePerGas) && maxFeePerGas == old(maxFeePerGas)
                  && if fees.gasPrice.None? then error == Some(OTHER) && Fields() == old(Fields())
                     else var price := fees.gasPrice.value;
                          gasPrice == Some(IncreaseGasPricePerAttempt(price, attempt, Some(old(gasPrice).GetOr(price))))
    {
      if overrideGasLimit.Some? {
        gasLimit := overrideGasLimit;
        return None;
      }
      if q.feeData.Err? {
        return Some(q.feeData.error);
      }
      var feeData := q.feeData.value;
      if feeData.maxPriorityFeePerGas.Some? && feeData.maxFeePerGas.Some? {
        var estimate := feeData.maxPriorityFeePerGas.value;
        var prevPriorityFee := maxPriorityFeePerGas.GetOr(estimate);
        var nextPriorityFee := IncreaseGasPricePerAttempt(estimate, attempt, Some(prevPriorityFee));
        maxPriorityFeePerGas := Some(nextPriorityFee);
        var baseFee := feeData.maxFeePerGas.value - estimate;
        maxFeePerGas := Some(baseFee + nextPriorityFee);
      } else {
        if feeData.gasPrice.None? {
          return Some(OTHER);
        }
        var prevGasPrice := gasPrice.GetOr(feeData.gasPrice.value);
        gasPrice := Some(IncreaseGasPricePerAttempt(feeData.gasPrice.value, attempt, Some(prevGasPrice)));
      }
      if q.gas.Err? {
        return Some(q.gas.error);
      }
      gasLimit := Some(q.gas.value);
      return None;
    }
  }

  /** The fee cap keeps the distance to the priority fee that the current estimates have. */
  function MaxFee(previous: Option<int>, q: Quote, priority: Option<nat>): Option<int>
    requires PriorityEstimate(q).Some? ==> priority.Some?
  {
    if PriorityEstimate(q).None? then previous
    else Some(q.feeData.value.maxFeePerGas.value - PriorityEstimate(q).value + priority.value)
  }
}
