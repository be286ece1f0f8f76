/**
 The EIP-1559 fee check for Cosmos txs, ante/evm/fee_checker.go.  A LegacyDec is its
 raw integer, 10^18 times the value; the library's rounding is written out.
 */
module FeeChecker {
  import opened Prelude

  const ONE: nat := 1_000_000_000_000_000_000
  const MAX_INT64: nat := INT64_LIMIT - 1

  datatype Error = InsufficientFee | InvalidRequest

  /** A tx extension option: the dynamic fee option with its price, possibly nil, or any other. */
  datatype ExtOption = DynamicFee(maxPriorityPrice: Option<int>) | OtherOption

  datatype FeeTx = FeeTx(fee: nat, gas: nat, options: seq<ExtOption>)

  /** The fee charged and the tx priority. */
  datatype Charge = Charge(amount: nat, priority: nat)

  /** The first dynamic fee option decides the tip cap; there is a default, and a nil price is zero. */
  function TipCap(options: seq<ExtOption>): int {
    if options == [] then MAX_INT64 * ONE
    else if options[0].DynamicFee? then
      if options[0].maxPriorityPrice.None? then 0 else options[0].maxPriorityPrice.value
    else TipCap(options[1..])
  }

  /** Dec.QuoInt and Dec.TruncateInt of non-negative values. */
  function Quo(x: nat, y: nat): nat
    requires y > 0
  {
    x / y
  }

  /** Dec.Ceil().RoundInt() of a non-negative value. */
  function CeilInt(x: nat): nat {
    if x % ONE == 0 then x / ONE else x / ONE + 1
  }

  /** effectiveGasPriceLegacyDec: min(baseFee + tipCap, feeCap) */
  function EffectivePrice(baseFee: nat, feeCap: nat, tipCap: nat): nat {
    if tipCap + baseFee < feeCap then tipCap + baseFee else feeCap
  }

  /** The first dynamic fee option decides, a nil price counting as zero. */
  lemma {:induction false} TipCapIsFirst(options: seq<ExtOption>, i: nat)
    requires i < |options| && options[i].DynamicFee? && forall j | 0 <= j < i :: options[j].OtherOption?
    ensures options[i].maxPriorityPrice.Some? ==> TipCap(options) == options[i].maxPriorityPrice.value
    ensures options[i].maxPriorityPrice.None? ==> TipCap(options) == 0
  {
    if i > 0 { TipCapIsFirst(options[1..], i - 1); }
  }

  /** Without one the cap is the largest int64, as a decimal. */
  lemma {:induction false} TipCapByDefault(options: seq<ExtOption>)
    requires forall j | 0 <= j < |options| :: options[j].OtherOption?
    ensures TipCap(options) == 9_223_372_036_854_775_807 * 1_000_000_000_000_000_000
  {
    if options != [] { TipCapByDefault(options[1..]); }
  }

  /** FeeChecker after London.  `baseFee` is zero when it is nil or not enabled; `reduction` scales priorities. */
  function Check(tx: FeeTx, baseFee: nat, reduction: nat): Result<Charge, Error>
    requires reduction > 0
  {
    var tipCap := TipCap(tx.options);
    if tipCap < 0 then Err(InsufficientFee)
    else if tx.gas == 0 then Err(InvalidRequest)
    else
      var feeCap := Quo(tx.fee * ONE, tx.gas);
      if feeCap < baseFee then Err(InsufficientFee)
      else
        var price := EffectivePrice(baseFee, feeCap, tipCap);
        var priority := Quo(Quo(price - baseFee, reduction), ONE);
        Ok(Charge(CeilInt(price * tx.gas), if priority <= MAX_INT64 then priority else MAX_INT64))
  }

  /** FeeChecker with its loop over the extension options. */
  method CheckFee(tx: FeeTx, baseFee: nat, reduction: nat) returns (r: Result<Charge, Error>)
    requires reduction > 0
    ensures r == Check(tx, baseFee, reduction)
  {
    var maxPriorityPrice: int := MAX_INT64 * ONE;
    for i := 0 to |tx.options|
      invariant maxPriorityPrice == MAX_INT64 * ONE && TipCap(tx.options[i..]) == TipCap(tx.options)
    {
      assert tx.options[i..][0] == tx.options[i] && tx.options[i..][1..] == tx.options[i + 1..];
      match tx.options[i]
      case OtherOption =>
      case DynamicFee(price) =>
        maxPriorityPrice := if price.None? then 0 else price.value;
        assert maxPriorityPrice == TipCap(tx.options);
        break;
    }
    assert tx.options[|tx.options|..] == [];
    if maxPriorityPrice < 0 {
      return Err(InsufficientFee);
    }
    if tx.gas == 0 {
      return Err(InvalidRequest);
    }
    var feeCap := Quo(tx.fee * ONE, tx.gas);
    if feeCap < baseFee {
      return Err(InsufficientFee);
    }
    var effectivePrice := EffectivePrice(baseFee, feeCap, maxPriorityPrice);
    var amount := CeilInt(effectivePrice * tx.gas);
    var priorityInt := Quo(Quo(effectivePrice - baseFee, reduction), ONE);
    var priority := MAX_INT64;
    if priorityInt <= MAX_INT64 {
      priority := priorityInt;
    }
    return Ok(Charge(amount, priority));
  }

  // ---------- Rounding ----------

  /** Truncated division: the quotient is the largest that fits. */
  lemma QuoBounds(x: nat, y: nat)
    requires y > 0
    ensures Quo(x, y) * y <= x < (Quo(x, y) + 1) * y
  {
    assert x == Quo(x, y) * y + x % y;
  }

  lemma QuoReaches(x: nat, y: nat, c: nat)
    requires y > 0
    ensures c <= Quo(x, y) <==> c * y <= x
  {
    QuotientReaches(x, y, c);
  }

  lemma TimesMonotone(a: nat, b: nat, y: nat)
    requires a <= b
    ensures a * y <= b * y
  {
  }

  lemma QuoMonotone(a: nat, b: nat, y: nat)
    requires a <= b && y > 0
    ensures Quo(a, y) <= Quo(b, y)
  {
    QuoBounds(a, y);
    QuoReaches(b, y, Quo(a, y));
  }

  /** The ceiling is the least integer amount that covers x. */
  lemma CeilBounds(x: nat)
    ensures CeilInt(x) * ONE >= x && CeilInt(x) * ONE < x + ONE
  {
  }

  lemma CeilReaches(x: nat, c: nat)
    ensures CeilInt(x) <= c <==> x <= c * ONE
  {
    CeilBounds(x);
  }

  lemma CeilMonotone(a: nat, b: nat)
    requires a <= b
    ensures CeilInt(a) <= CeilInt(b)
  {
    CeilBounds(a);
    CeilBounds(b);
  }

  // ---------- The check ----------

  /** The tx is accepted exactly when its tip cap is not negative, it has gas, and its fee covers the base fee. */
  lemma AcceptsExactly(tx: FeeTx, baseFee: nat, reduction: nat)
    requires reduction > 0
    ensures Check(tx, baseFee, reduction).Ok? <==>
            TipCap(tx.options) >= 0 && tx.gas > 0 && baseFee * tx.gas <= tx.fee * ONE
    ensures Check(tx, baseFee, reduction) == Err(InvalidRequest) <==> TipCap(tx.options) >= 0 && tx.gas == 0
  {
    if tx.gas > 0 {
      QuoReaches(tx.fee * ONE, tx.gas, baseFee);
    }
  }

  /**
   The charge is the least amount that pays for all the gas either the price the tx offers,
   rounded down, or the base fee and the whole tip, whichever is less.
   */
  lemma ChargeIsLeast(tx: FeeTx, baseFee: nat, reduction: nat, amount: nat)
    requires reduction > 0 && Check(tx, baseFee, reduction).Ok?
    ensures Check(tx, baseFee, reduction).value.amount <= amount <==>
            || Quo(tx.fee * ONE, tx.gas) * tx.gas <= amount * ONE
            || (baseFee + TipCap(tx.options)) * tx.gas <= amount * ONE
  {
    var tipCap, feeCap := TipCap(tx.options), Quo(tx.fee * ONE, tx.gas);
    var price := EffectivePrice(baseFee, feeCap, tipCap);
    hide Quo, CeilInt, TipCap;
    CeilReaches(price * tx.gas, amount);
    TimesMonotone(price, feeCap, tx.gas);
    TimesMonotone(price, baseFee + tipCap, tx.gas);
  }

  /** The priority counts the whole reduction units in the effective tip, up to the largest int64. */
  lemma PriorityCountsTip(tx: FeeTx, baseFee: nat, reduction: nat, p: nat)
    requires reduction > 0 && Check(tx, baseFee, reduction).Ok? && p <= MAX_INT64
    ensures p <= Check(tx, baseFee, reduction).value.priority <==>
            && p * ONE * reduction <= TipCap(tx.options)
            && p * ONE * reduction + baseFee <= Quo(tx.fee * ONE, tx.gas)
  {
    var price := EffectivePrice(baseFee, Quo(tx.fee * ONE, tx.gas), TipCap(tx.options));
    hide Quo, CeilInt, TipCap;
    QuoReaches(Quo(price - baseFee, reduction), ONE, p);
    QuoReaches(price - baseFee, reduction, p * ONE);
  }

  /**
   Despite truncation and ceiling, the charge never exceeds the offered fee and never falls
   below the base fee, and what it adds to the base fee is less than the tip plus one unit.
   */
  lemma ChargeIsBounded(tx: FeeTx, baseFee: nat, reduction: nat)
    requires reduction > 0 && Check(tx, baseFee, reduction).Ok?
    ensures var charge := Check(tx, baseFee, reduction).value;
            && charge.amount <= tx.fee
            && baseFee * tx.gas <= charge.amount * ONE
            && charge.amount * ONE < (baseFee + TipCap(tx.options)) * tx.gas + ONE
            && 0 <= charge.priority <= MAX_INT64
  {
    var tipCap, feeCap := TipCap(tx.options), Quo(tx.fee * ONE, tx.gas);
    var price := EffectivePrice(baseFee, feeCap, tipCap);
    hide Quo, CeilInt, TipCap;
    QuoBounds(tx.fee * ONE, tx.gas);
    CeilBounds(price * tx.gas);
    TimesMonotone(price, feeCap, tx.gas);
    TimesMonotone(baseFee, price, tx.gas);
    TimesMonotone(price, baseFee + tipCap, tx.gas);
  }

  /** If the tip cap does not bind, the whole fee is charged, up to less than one unit per 10^18 gas. */
  lemma WholeFeeWithoutTipCap(tx: FeeTx, baseFee: nat, reduction: nat)
    requires reduction > 0 && Check(tx, baseFee, reduction).Ok?
    requires Quo(tx.fee * ONE, tx.gas) <= baseFee + TipCap(tx.options)
    ensures var charge := Check(tx, baseFee, reduction).value;
            && tx.fee * ONE < charge.amount * ONE + tx.gas
            && (tx.gas <= ONE ==> charge.amount == tx.fee)
  {
    hide Quo, CeilInt, TipCap, Check;
    AcceptsExactly(tx, baseFee, reduction);
    ChargeIsBounded(tx, baseFee, reduction);
    ChargeAtFeeCap(tx, baseFee, reduction);
    var paid := Quo(tx.fee * ONE, tx.gas) * tx.gas;
    QuoFloor(tx.fee * ONE, tx.gas);
    CeilBounds(paid);
    LessThanOneUnit(tx.fee, Check(tx, baseFee, reduction).value.amount, paid, tx.gas);
  }

  lemma ChargeAtFeeCap(tx: FeeTx, baseFee: nat, reduction: nat)
    requires reduction > 0 && Check(tx, baseFee, reduction).Ok?
    requires Quo(tx.fee * ONE, tx.gas) <= baseFee + TipCap(tx.options)
    ensures Check(tx, baseFee, reduction).value.amount == CeilInt(Quo(tx.fee * ONE, tx.gas) * tx.gas)
  {
    hide Quo, CeilInt, TipCap;
  }

  lemma QuoFloor(x: nat, y: nat)
    requires y > 0
    ensures Quo(x, y) * y <= x < Quo(x, y) * y + y
  {
    QuoBounds(x, y);
    hide Quo;
    assert (Quo(x, y) + 1) * y == Quo(x, y) * y + y;
  }

  lemma LessThanOneUnit(fee: nat, amount: nat, paid: nat, gas: nat)
    requires amount <= fee && paid <= amount * ONE && fee * ONE < paid + gas
    ensures fee * ONE < amount * ONE + gas && (gas <= ONE ==> amount == fee)
  {
  }

  /**
   A tx without a dynamic fee option that covers the base fee is charged its whole fee, as
   long as its price does not exceed the base fee by more than the default cap.
   */
  lemma WholeFeeByDefault(tx: FeeTx, baseFee: nat, reduction: nat)
    requires reduction > 0 && 0 < tx.gas <= 1_000_000_000_000_000_000
    requires forall j | 0 <= j < |tx.options| :: tx.options[j].OtherOption?
    requires baseFee * tx.gas <= tx.fee * ONE
             <= (baseFee + 9_223_372_036_854_775_807 * 1_000_000_000_000_000_000) * tx.gas
    ensures Check(tx, baseFee, reduction).Ok? && Check(tx, baseFee, reduction).value.amount == tx.fee
  {
    TipCapByDefault(tx.options);
    AcceptsExactly(tx, baseFee, reduction);
    var cap := baseFee + TipCap(tx.options);
    hide Quo, TipCap, Check;
    assert (cap + 1) * tx.gas == cap * tx.gas + tx.gas;
    QuoReaches(tx.fee * ONE, tx.gas, cap + 1);
    WholeFeeWithoutTipCap(tx, baseFee, reduction);
  }

  /** Offering more never gets one charged less or ranked lower. */
  lemma ChargeIsMonotone(tx: FeeTx, more: FeeTx, baseFee: nat, reduction: nat)
    requires reduction > 0 && Check(tx, baseFee, reduction).Ok?
    requires more.gas == tx.gas && more.options == tx.options && tx.fee <= more.fee
    ensures Check(more, baseFee, reduction).Ok?
    ensures var a, b := Check(tx, baseFee, reduction).value, Check(more, baseFee, reduction).value;
            a.amount <= b.amount && a.priority <= b.priority
  {
    var tipCap := TipCap(tx.options);
    hide Quo, CeilInt, TipCap;
    QuoMonotone(tx.fee * ONE, more.fee * ONE, tx.gas);
    var a := EffectivePrice(baseFee, Quo(tx.fee * ONE, tx.gas), tipCap);
    var b := EffectivePrice(baseFee, Quo(more.fee * ONE, tx.gas), tipCap);
    TimesMonotone(a, b, tx.gas);
    CeilMonotone(a * tx.gas, b * tx.gas);
    QuoMonotone(a - baseFee, b - baseFee, reduction);
    QuoMonotone(Quo(a - baseFee, reduction), Quo(b - baseFee, reduction), ONE);
  }

  // ---------- Before London: the naive priority ----------

  function CoinPriority(amount: nat, gas: nat, reduction: nat): nat
    requires gas > 0 && reduction > 0
  {
    var p := Quo(Quo(amount, gas), reduction);
    if p <= MAX_INT64 then p else MAX_INT64
  }

  /** getTxPriority: the loop over the fee coins; a gas of zero would panic. */
  method GetTxPriority(amounts: seq<nat>, gas: nat, reduction: nat) returns (priority: nat)
    requires gas > 0 && reduction > 0
    ensures priority == Naive(Priorities(amounts, gas, reduction))
  {
    priority := 0;
    ghost var ps := Priorities(amounts, gas, reduction);
    for i := 0 to |amounts|
      invariant priority == Naive(ps[..i])
    {
      assert ps[..i + 1][..i] == ps[..i];
      var p := CoinPriority(amounts[i], gas, reduction);
      if priority == 0 || p < priority {
        priority := p;
      }
    }
    assert ps[..|amounts|] == ps;
  }

  function Priorities(amounts: seq<nat>, gas: nat, reduction: nat): seq<nat>
    requires gas > 0 && reduction > 0
  {
    seq(|amounts|, i requires 0 <= i < |amounts| => CoinPriority(amounts[i], gas, reduction))
  }

  function Naive(ps: seq<nat>): nat {
    if ps == [] then 0
    else
      var before, p := Naive(ps[..|ps| - 1]), ps[|ps| - 1];
      if before == 0 || p < before then p else before
  }

  ghost predicate IsMin(ps: seq<nat>, m: nat) {
    m in ps && forall i | 0 <= i < |ps| :: m <= ps[i]
  }

  lemma {:induction false} NaiveWithoutZeros(ps: seq<nat>)
    requires ps != [] && 0 !in ps
    ensures IsMin(ps, Naive(ps))
  {
    var n := |ps| - 1;
    if n > 0 {
      NaiveWithoutZeros(ps[..n]);
    }
    assert ps == ps[..n] + [ps[n]];
  }

  /** A coin's priority counts the whole reduction units it pays per gas, up to the largest int64. */
  lemma CoinPriorityCounts(amount: nat, gas: nat, reduction: nat, p: nat)
    requires gas > 0 && reduction > 0
    ensures p <= CoinPriority(amount, gas, reduction) <==> p <= 9_223_372_036_854_775_807 && p * reduction * gas <= amount
  {
    QuotientReaches(amount, gas, p * reduction);
    QuotientReaches(amount / gas, reduction, p);
  }

  /** A coin has priority zero exactly if it pays less than one reduction unit for all the gas. */
  lemma ZeroPriorityIff(amount: nat, gas: nat, reduction: nat)
    requires gas > 0 && reduction > 0
    ensures CoinPriority(amount, gas, reduction) == 0 <==> amount < reduction * gas
  {
    QuotientReaches(amount, gas, reduction);
    QuotientReaches(amount / gas, reduction, 1);
  }

  /**
   The priority of a tx is its smallest coin's exactly when every coin pays at least one
   reduction unit for all the gas or the last one does not: a zero in between is overwritten
   by what follows it.
   */
  lemma PriorityIsSmallestIff(amounts: seq<nat>, gas: nat, reduction: nat)
    requires amounts != [] && gas > 0 && reduction > 0
    ensures var ps := Priorities(amounts, gas, reduction);
            IsMin(ps, Naive(ps)) <==>
            || (forall i | 0 <= i < |amounts| :: amounts[i] >= reduction * gas)
            || amounts[|amounts| - 1] < reduction * gas
  {
    var ps := Priorities(amounts, gas, reduction);
    forall i | 0 <= i < |amounts| ensures ps[i] == 0 <==> amounts[i] < reduction * gas {
      ZeroPriorityIff(amounts[i], gas, reduction);
    }
    if 0 !in ps {
      NaiveWithoutZeros(ps);
    } else if ps[|ps| - 1] != 0 {
      LastNotZero(ps);
    }
  }

  lemma LastNotZero(ps: seq<nat>)
    requires ps != [] && ps[|ps| - 1] != 0
    ensures Naive(ps) != 0
  {
  }

  /** Two coins for one unit of gas, the first too small to count: the priority is that of the second. */
  lemma ZeroIsForgotten()
    ensures var ps := Priorities([3, 50], 1, 10); ps == [0, 5] && Naive(ps) == 5 && IsMin(ps, 0)
  {
    assert Priorities([3, 50], 1, 10) == [0, 5];
    assert [0, 5][..1] == [0] && [0][..0] == [];
  }
}
