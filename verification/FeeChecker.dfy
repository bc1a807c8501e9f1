/**
 * The dynamic fee of a Cosmos transaction (`ante/evm/fee_checker.go`): the price follows the
 * "Specification" section of EIP-1559.
 */
module FeeChecker {
  import opened Options
  import opened Decimal

  /** An extension option of a transaction; only the dynamic-fee option matters here. */
  datatype ExtOption = DynamicFee(maxPriorityPrice: Option<Dec>) | Other

  datatype Verdict = Accepted(fee: int, tip: int, priority: int) | Refused

  const MAX_INT64: int := 0x7FFF_FFFF_FFFF_FFFF
  const MIN_INT64: int := -0x8000_0000_0000_0000

  /** The tip cap: that of the first dynamic-fee option, where a missing price counts as zero. */
  function TipCap(options: seq<ExtOption>): Dec {
    if options == [] then FromInt(MAX_INT64)
    else match options[0]
         case DynamicFee(Some(price)) => price
         case DynamicFee(None) => 0
         case Other => TipCap(options[1..])
  }

  function EffectivePrice(baseFee: Dec, feeCap: Dec, tipCap: Dec): Dec {
    if tipCap + baseFee < feeCap then tipCap + baseFee else feeCap
  }

  function Clamp(n: int): int {
    if MIN_INT64 <= n <= MAX_INT64 then n else MAX_INT64
  }

  /** The tip; counted as zero when it would be the whole fee. */
  function Tip(price: Dec, baseFee: Dec, gas: nat): int {
    var tip := CeilInt(MulInt(price - baseFee, gas));
    if tip == CeilInt(MulInt(price, gas)) then 0 else tip
  }

  function Checked(baseFee: Option<Dec>, tipCap: Dec, gas: nat, offered: int, reduction: int): Verdict
    requires reduction > 0
  {
    var base := Base(baseFee);
    if tipCap < 0 || gas == 0 then Refused
    else
      var feeCap := QuoInt(FromInt(offered), gas);
      if feeCap < base then Refused
      else
        var price := EffectivePrice(base, feeCap, tipCap);
        Accepted(CeilInt(MulInt(price, gas)), Tip(price, base, gas),
                 Clamp(TruncateInt(QuoInt(price - base, reduction))))
  }

  method Check(baseFee: Option<Dec>, options: seq<ExtOption>, gas: nat, offered: int, reduction: int)
    returns (v: Verdict)
    requires reduction > 0
    ensures v == Checked(baseFee, TipCap(options), gas, offered, reduction)
  {
    var base := Base(baseFee);
    var tipCap := FromInt(MAX_INT64);
    var i := 0;
    while i < |options|
      invariant 0 <= i <= |options|
      invariant tipCap == FromInt(MAX_INT64) && TipCap(options) == TipCap(options[i..])
    {
      if options[i].DynamicFee? {
        var price := options[i].maxPriorityPrice;
        tipCap := if price.None? then 0 else price.value;
        break;
      }
      i := i + 1;
    }
    if tipCap < 0 || gas == 0 {
      return Refused;
    }
    var feeCap := QuoInt(FromInt(offered), gas);
    if feeCap < base {
      return Refused;
    }
    var price := EffectivePrice(base, feeCap, tipCap);
    var fee := CeilInt(MulInt(price, gas));
    var tip := CeilInt(MulInt(price - base, gas));
    if tip == fee {
      tip := 0;
    }
    return Accepted(fee, tip, Clamp(TruncateInt(QuoInt(price - base, reduction))));
  }

  // ---------------------------------------------------------------------------------------
  // Bounds
  // ---------------------------------------------------------------------------------------

  lemma QuotientBound(a: int, n: int, q: int)
    requires a >= 0 && n > 0 && q == a / n
    ensures q * n <= a < (q + 1) * n
  {
  }

  lemma ProductMonotone(a: int, b: int, n: int)
    requires a <= b && n >= 0
    ensures a * n <= b * n
  {
  }

  /** The fee cap covers the base fee exactly when the offered fee covers the base fee for all the gas. */
  lemma CapCoversBase(base: Dec, gas: nat, offered: int)
    requires gas > 0 && offered >= 0
    ensures QuoInt(FromInt(offered), gas) >= base <==> MulInt(base, gas) <= FromInt(offered)
  {
    var cap := QuoInt(FromInt(offered), gas);
    QuotientBound(FromInt(offered), gas, cap);
    if cap >= base {
      ProductMonotone(base, cap, gas);
    } else {
      ProductMonotone(cap + 1, base, gas);
    }
  }

  function Base(baseFee: Option<Dec>): Dec {
    if baseFee.None? then 0 else baseFee.value
  }

  /** Accepted exactly when the tip cap is not negative, gas is asked for and the offer covers the base fee. */
  lemma CheckedAccepts(baseFee: Option<Dec>, tipCap: Dec, gas: nat, offered: int, reduction: int)
    requires reduction > 0 && offered >= 0
    ensures Checked(baseFee, tipCap, gas, offered, reduction).Accepted? <==>
            tipCap >= 0 && gas > 0 && MulInt(Base(baseFee), gas) <= FromInt(offered)
  {
    if gas > 0 {
      CapCoversBase(Base(baseFee), gas, offered);
    }
  }

  /**
   * The fee is what the base fee and the tip cap add up to, unless the offer is lower: then it is
   * the offer, less what the truncated price per unit of gas cannot represent.
   */
  lemma CheckedFee(baseFee: Option<Dec>, tipCap: Dec, gas: nat, offered: int, reduction: int)
    requires reduction > 0 && offered >= 0
    requires Checked(baseFee, tipCap, gas, offered, reduction).Accepted?
    ensures var wanted := MulInt(Base(baseFee) + tipCap, gas);
            var fee := Checked(baseFee, tipCap, gas, offered, reduction).fee;
            && fee <= CeilInt(wanted)
            && (fee == CeilInt(wanted) || (FromInt(offered) < wanted && FromInt(offered - fee) < gas))
  {
    var top := Base(baseFee) + tipCap;
    var cap := QuoInt(FromInt(offered), gas);
    if cap < top {
      QuotientBound(FromInt(offered), gas, cap);
      CappedFee(top, cap, gas, offered, MulInt(cap, gas), MulInt(top, gas));
    }
  }

  lemma CappedFee(top: Dec, cap: Dec, gas: nat, offered: int, paid: Dec, wanted: Dec)
    requires cap < top && paid == cap * gas && wanted == top * gas
    requires paid <= FromInt(offered) < (cap + 1) * gas
    ensures CeilInt(paid) <= CeilInt(wanted)
    ensures FromInt(offered) < wanted && FromInt(offered - CeilInt(paid)) < gas
  {
    ProductMonotone(cap + 1, top, gas);
    assert (cap + 1) * gas == paid + gas;
    CeilMonotone(paid, wanted);
  }

  /**
   * An accepted transaction is charged at least the base fee and at most its offer, and its tip
   * leaves the base fee, up to rounding, unless it is counted as zero.
   */
  lemma CheckedBounds(baseFee: Option<Dec>, tipCap: Dec, gas: nat, offered: int, reduction: int)
    requires reduction > 0 && offered >= 0 && Base(baseFee) >= 0
    requires Checked(baseFee, tipCap, gas, offered, reduction).Accepted?
    ensures var base := MulInt(Base(baseFee), gas);
            var v := Checked(baseFee, tipCap, gas, offered, reduction);
            && CeilInt(base) <= v.fee <= offered
            && (v.tip == 0 || 0 < v.tip < v.fee)
            && (v.tip != 0 ==> FloorInt(base) <= v.fee - v.tip <= CeilInt(base))
            && 0 <= v.priority <= MAX_INT64
  {
    var base := Base(baseFee);
    var cap := QuoInt(FromInt(offered), gas);
    QuotientBound(FromInt(offered), gas, cap);
    var price := EffectivePrice(base, cap, tipCap);
    PriceBounds(price, base, cap, gas, offered);
    PriorityBounds(price - base, reduction);
  }

  /**
   * The price per unit of gas: what base fee and tip cap add up to, or what the offer comes to per unit
   * of gas if that is less.
   */
  predicate IsPrice(price: Dec, base: Dec, tipCap: Dec, gas: nat, offered: int) {
    || (price == base + tipCap && price * gas <= FromInt(offered))
    || (price < base + tipCap && price * gas <= FromInt(offered) < (price + 1) * gas)
  }

  lemma PriceExists(baseFee: Option<Dec>, tipCap: Dec, gas: nat, offered: int, reduction: int)
    requires reduction > 0 && offered >= 0
    requires Checked(baseFee, tipCap, gas, offered, reduction).Accepted?
    ensures IsPrice(EffectivePrice(Base(baseFee), QuoInt(FromInt(offered), gas), tipCap),
                    Base(baseFee), tipCap, gas, offered)
  {
    var cap := QuoInt(FromInt(offered), gas);
    QuotientBound(FromInt(offered), gas, cap);
    if Base(baseFee) + tipCap < cap {
      ProductMonotone(Base(baseFee) + tipCap, cap, gas);
    }
  }

  lemma PriceUnique(p: Dec, q: Dec, base: Dec, tipCap: Dec, gas: nat, offered: int)
    requires gas > 0 && IsPrice(p, base, tipCap, gas, offered) && IsPrice(q, base, tipCap, gas, offered)
    ensures p == q
  {
    if p < q {
      ProductMonotone(p + 1, q, gas);
    } else if q < p {
      ProductMonotone(q + 1, p, gas);
    }
  }

  /**
   * Fee and tip at the price: the fee rounds up the price for all the gas, the tip rounds up what the
   * price exceeds the base fee by, and counts as zero when it would be the whole fee. So it is zero
   * exactly then and when the price is the base fee.
   */
  lemma CheckedTip(baseFee: Option<Dec>, tipCap: Dec, gas: nat, offered: int, reduction: int, price: Dec)
    requires reduction > 0 && offered >= 0
    requires Checked(baseFee, tipCap, gas, offered, reduction).Accepted?
    requires IsPrice(price, Base(baseFee), tipCap, gas, offered)
    ensures var v := Checked(baseFee, tipCap, gas, offered, reduction);
            var tip := CeilInt((price - Base(baseFee)) * gas);
            && v.fee == CeilInt(price * gas)
            && v.tip == (if tip == v.fee then 0 else tip)
            && (v.tip == 0 <==> tip == v.fee || price == Base(baseFee))
  {
    PriceExists(baseFee, tipCap, gas, offered, reduction);
    var effective := EffectivePrice(Base(baseFee), QuoInt(FromInt(offered), gas), tipCap);
    PriceUnique(price, effective, Base(baseFee), tipCap, gas, offered);
    if price > Base(baseFee) {
      ProductMonotone(1, price - Base(baseFee), gas);
    }
  }

  /** The tip cap is that of the first dynamic-fee option, zero if it names none; without one there is no cap to speak of. */
  lemma {:induction false} TipCapIsFirst(options: seq<ExtOption>, i: nat)
    requires i <= |options| && forall j | 0 <= j < i :: options[j].Other?
    requires i < |options| ==> options[i].DynamicFee?
    ensures i == |options| ==> TipCap(options) == 0x7FFF_FFFF_FFFF_FFFF * 1_000_000_000_000_000_000
    ensures i < |options| ==>
              match options[i].maxPriorityPrice
              case Some(price) => TipCap(options) == price
              case None => TipCap(options) == 0
  {
    if i > 0 {
      TipCapIsFirst(options[1..], i - 1);
    }
  }

  /**
   * The priority is the tip per unit of gas in units of the reduction, rounded down once although
   * it is computed in two truncating steps; what does not fit 64 bits becomes the greatest value.
   */
  lemma CheckedPriority(baseFee: Option<Dec>, tipCap: Dec, gas: nat, offered: int, reduction: int, price: Dec, n: int)
    requires reduction > 0 && offered >= 0 && Base(baseFee) >= 0
    requires Checked(baseFee, tipCap, gas, offered, reduction).Accepted?
    requires IsPrice(price, Base(baseFee), tipCap, gas, offered)
    requires FromInt(n) * reduction <= price - Base(baseFee) < FromInt(n + 1) * reduction
    ensures Checked(baseFee, tipCap, gas, offered, reduction).priority == if n <= MAX_INT64 then n else MAX_INT64
  {
    PriceExists(baseFee, tipCap, gas, offered, reduction);
    var effective := EffectivePrice(Base(baseFee), QuoInt(FromInt(offered), gas), tipCap);
    PriceUnique(price, effective, Base(baseFee), tipCap, gas, offered);
    var tip := price - Base(baseFee);
    var q := QuoInt(tip, reduction);
    QuotientBound(tip, reduction, q);
    TwoSteps(tip, reduction, q, n);
  }

  lemma TwoSteps(tip: Dec, reduction: int, q: Dec, n: int)
    requires tip >= 0 && reduction > 0 && q * reduction <= tip < (q + 1) * reduction
    requires FromInt(n) * reduction <= tip < FromInt(n + 1) * reduction
    ensures q >= 0 && TruncateInt(q) == n
  {
    if q + 1 <= FromInt(n) {
      ProductMonotone(q + 1, FromInt(n), reduction);
    }
    if FromInt(n + 1) <= q {
      ProductMonotone(FromInt(n + 1), q, reduction);
    }
    if q + 1 <= 0 {
      ProductMonotone(q + 1, 0, reduction);
    }
  }

  lemma PriorityBounds(tip: Dec, reduction: int)
    requires tip >= 0 && reduction > 0
    ensures 0 <= Clamp(TruncateInt(QuoInt(tip, reduction))) <= MAX_INT64
  {
  }

  lemma PriceBounds(price: Dec, base: Dec, cap: Dec, gas: nat, offered: int)
    requires 0 <= base <= price <= cap && gas > 0 && MulInt(cap, gas) <= FromInt(offered)
    ensures CeilInt(MulInt(base, gas)) <= CeilInt(MulInt(price, gas)) <= offered
    ensures var fee, tip := CeilInt(MulInt(price, gas)), Tip(price, base, gas);
            && (tip == 0 || 0 < tip < fee)
            && (tip != 0 ==> FloorInt(MulInt(base, gas)) <= fee - tip <= CeilInt(MulInt(base, gas)))
  {
    ProductMonotone(base, price, gas);
    ProductMonotone(price, cap, gas);
    ProductMonotone(0, base, gas);
    CeilMonotone(MulInt(base, gas), MulInt(price, gas));
    CeilWhole(offered, MulInt(price, gas));
    assert MulInt(base, gas) + MulInt(price - base, gas) == MulInt(price, gas);
    CeilOfSum(MulInt(base, gas), MulInt(price - base, gas));
    CeilMonotone(MulInt(price - base, gas), MulInt(price, gas));
  }
}
