/**
 * Fee deduction with discounts (`gurud/ante/cosmos_fees.go`): the base part of the fee is reduced
 * by the payer's discount, the tip is charged in full, and the sum moves to the fee collector.
 */
module DeductFee {
  import opened Decimal
  import opened Options
  import opened Outcomes
  import opened Totals
  import Fees = FeeChecker

  /** Amounts by denomination; lists of coins are sorted by denomination, so this determines them. */
  type Coins = map<string, int>

  datatype Discount = NoDiscount | Percent(amount: Dec) | Fixed(amount: Dec)

  /** Coin-wise sum; coins that become zero disappear. */
  function Plus(a: Coins, b: Coins): (c: Coins)
    ensures forall d :: At(c, d) == At(a, d) + At(b, d)
    ensures forall d | d in c :: c[d] != 0
  {
    map d | d in a.Keys + b.Keys && At(a, d) + At(b, d) != 0 :: At(a, d) + At(b, d)
  }

  /** Coin-wise difference; coins that become zero disappear. */
  function Minus(a: Coins, b: Coins): (c: Coins)
    ensures forall d :: At(c, d) == At(a, d) - At(b, d)
    ensures forall d | d in c :: c[d] != 0
  {
    map d | d in a.Keys + b.Keys && At(a, d) - At(b, d) != 0 :: At(a, d) - At(b, d)
  }

  predicate AnyNegative(c: Coins) {
    exists d | d in c :: c[d] < 0
  }

  function Multiplier(discount: Dec): Dec {
    Quo(FromInt(100) - discount, FromInt(100))
  }

  /** What is charged for one coin of the base fee. */
  function Charge(discount: Discount, amount: int): int {
    match discount
    case NoDiscount => amount
    case Percent(p) => TruncateInt(Mul(FromInt(amount), Multiplier(p)))
    case Fixed(f) => TruncateInt(f)
  }

  function Charges(discount: Discount, base: Coins): (c: Coins)
    ensures forall d :: At(c, d) == if d in base then Charge(discount, base[d]) else 0
  {
    map d | d in base && Charge(discount, base[d]) != 0 :: Charge(discount, base[d])
  }

  function Deducted(fee: Coins, tips: Coins, discount: Discount): Outcome<Coins> {
    var base := Minus(fee, tips);
    if AnyNegative(base) || AnyNegative(Charges(discount, base)) then Panics
    else Ok(Plus(Charges(discount, base), tips))
  }

  method Deduct(fee: Coins, tips: Coins, discount: Discount) returns (r: Outcome<Coins>)
    ensures r == Deducted(fee, tips, discount)
  {
    var base := Minus(fee, tips);
    if AnyNegative(base) {
      return Panics;
    }
    r := Ok(base);
    if !discount.NoDiscount? {
      r := ChargeCoins(discount, base);
    } else {
      assert Charges(discount, base) == base;
    }
    if r.Ok? {
      r := Ok(Plus(r.value, tips));
    }
  }

  method ChargeCoins(discount: Discount, base: Coins) returns (r: Outcome<Coins>)
    ensures r == if AnyNegative(Charges(discount, base)) then Panics else Ok(Charges(discount, base))
  {
    var deducted: Coins := map[];
    var pending := base.Keys;
    ghost var charges := Charges(discount, base);
    while pending != {}
      invariant pending <= base.Keys
      invariant forall d | d in deducted :: deducted[d] > 0 && d !in pending
      invariant forall d | d !in pending :: At(deducted, d) == At(charges, d)
      decreases |pending|
    {
      var d :| d in pending;
      var amount := Charge(discount, base[d]);
      assert At(charges, d) == amount;
      if amount < 0 {
        return Panics;
      }
      deducted := Plus(deducted, map[d := amount]);
      pending := pending - {d};
    }
    SameCoins(deducted, charges);
    return Ok(deducted);
  }

  lemma SameCoins(a: Coins, b: Coins)
    requires forall d :: At(a, d) == At(b, d)
    requires forall d | d in a :: a[d] != 0
    requires forall d | d in b :: b[d] != 0
    ensures a == b
  {
    forall d | d in a
      ensures d in b && b[d] == a[d]
    {
      assert At(a, d) == At(b, d);
    }
    forall d | d in b
      ensures d in a
    {
      assert At(a, d) == At(b, d);
    }
  }

  // ---------------------------------------------------------------------------------------
  // The percentage discount
  // ---------------------------------------------------------------------------------------

  const HUNDRED: Dec := 100 * ONE

  /** The multiplier is the exact quotient rounded to 18 digits. */
  lemma MultiplierIsRounded(p: Dec)
    requires 0 <= p <= HUNDRED
    ensures 0 <= Multiplier(p) <= ONE
    ensures -50 <= 100 * Multiplier(p) - (HUNDRED - p) <= 50
  {
    var x := (HUNDRED - p) * 10_000_000_000_000_000;
    assert Truncated((HUNDRED - p) * ONE * ONE, HUNDRED) == x;
    assert Multiplier(p) == ChopPositive(x);
  }

  lemma MultiplierMonotone(p: Dec, q: Dec)
    requires p <= q
    ensures Multiplier(q) <= Multiplier(p)
  {
    var x, y := (HUNDRED - p) * ONE * ONE, (HUNDRED - q) * ONE * ONE;
    assert Truncated(y, HUNDRED) <= Truncated(x, HUNDRED);
    ChopMonotone(Truncated(y, HUNDRED), Truncated(x, HUNDRED));
  }

  lemma MultiplierEnds()
    ensures Multiplier(0) == ONE && Multiplier(HUNDRED) == 0
  {
  }

  lemma PercentCharge(p: Dec, amount: int)
    ensures Charge(Percent(p), amount) == Truncated(amount * Multiplier(p), ONE)
  {
    MulWhole(amount, Multiplier(p));
  }

  /** The charge lies between nothing and the full amount. */
  lemma ChargeWithin(p: Dec, amount: int)
    requires 0 <= p <= HUNDRED && amount >= 0
    ensures 0 <= Charge(Percent(p), amount) <= amount
  {
    PercentCharge(p, amount);
    MultiplierIsRounded(p);
    Fees.ProductMonotone(Multiplier(p), ONE, amount);
    Fees.ProductMonotone(0, Multiplier(p), amount);
  }

  /** A larger discount never charges more. */
  lemma ChargeMonotone(p: Dec, q: Dec, amount: int)
    requires p <= q && amount >= 0
    ensures Charge(Percent(q), amount) <= Charge(Percent(p), amount)
  {
    PercentCharge(p, amount);
    PercentCharge(q, amount);
    MultiplierMonotone(p, q);
    Fees.ProductMonotone(Multiplier(q), Multiplier(p), amount);
    TruncatedMonotone(amount * Multiplier(q), amount * Multiplier(p));
  }

  lemma TruncatedMonotone(a: int, b: int)
    requires a <= b
    ensures Truncated(a, ONE) <= Truncated(b, ONE)
  {
  }

  lemma ChargeEnds(amount: int)
    requires amount >= 0
    ensures Charge(Percent(0), amount) == amount && Charge(Percent(HUNDRED), amount) == 0
  {
    PercentCharge(0, amount);
    PercentCharge(HUNDRED, amount);
    MultiplierEnds();
    assert amount * ONE / ONE == amount;
  }

  /**
   * The charge is below the exact `amount * (100 - p) / 100` by less than `1 + amount * 10^-18 / 2`
   * and above it by no more than `amount * 10^-18 / 2` (both sides times `100 * 10^18`).
   */
  lemma ChargeIsClose(p: Dec, amount: int)
    requires 0 <= p <= HUNDRED && amount >= 0
    ensures var error := HUNDRED * Charge(Percent(p), amount) - amount * (HUNDRED - p);
            -HUNDRED - 50 * amount < error <= 50 * amount
  {
    PercentCharge(p, amount);
    MultiplierIsRounded(p);
    Fees.ProductMonotone(0, Multiplier(p), amount);
    ScaledClose(Multiplier(p), HUNDRED - p, amount, Charge(Percent(p), amount));
  }

  lemma ScaledClose(m: Dec, rest: Dec, amount: int, charge: int)
    requires amount >= 0 && amount * m >= 0 && -50 <= 100 * m - rest <= 50
    requires charge == amount * m / ONE
    ensures -HUNDRED - 50 * amount < HUNDRED * charge - amount * rest <= 50 * amount
  {
    ProductClose(100 * m, rest, amount);
    var product, exact := amount * m, amount * rest;
    assert amount * (100 * m) == 100 * product;
    ChargeError(charge, product, exact, amount);
  }

  lemma ChargeError(charge: int, product: int, exact: int, amount: int)
    requires charge * ONE <= product < (charge + 1) * ONE
    requires -50 * amount <= 100 * product - exact <= 50 * amount
    ensures -HUNDRED - 50 * amount < HUNDRED * charge - exact <= 50 * amount
  {
  }

  lemma ProductClose(x: int, y: int, n: int)
    requires -50 <= x - y <= 50 && n >= 0
    ensures -50 * n <= n * x - n * y <= 50 * n
  {
    Fees.ProductMonotone(-50, x - y, n);
    Fees.ProductMonotone(x - y, 50, n);
    assert (x - y) * n == n * x - n * y;
  }

  // ---------------------------------------------------------------------------------------
  // The whole deduction
  // ---------------------------------------------------------------------------------------

  /** The discounts that keep the charge between nothing and the base fee, whatever it is. */
  predicate Proper(discount: Discount) {
    discount.NoDiscount? || (discount.Percent? && 0 <= discount.amount <= HUNDRED)
  }

  /** The tips fit into the fee. */
  predicate Covers(fee: Coins, tips: Coins) {
    forall d | d in fee.Keys + tips.Keys :: 0 <= At(tips, d) <= At(fee, d)
  }

  lemma ProperCharge(discount: Discount, amount: int)
    requires Proper(discount) && amount >= 0
    ensures 0 <= Charge(discount, amount) <= amount
  {
    if discount.Percent? {
      ChargeWithin(discount.amount, amount);
    }
  }

  /** With a proper discount nothing fails, and each denomination pays its tip and at most its fee. */
  lemma DeductedWithin(fee: Coins, tips: Coins, discount: Discount)
    requires Covers(fee, tips) && Proper(discount)
    ensures var r := Deducted(fee, tips, discount);
            r.Ok? && forall d :: At(tips, d) <= At(r.value, d) <= At(fee, d)
  {
    var base := Minus(fee, tips);
    forall d | d in base
      ensures base[d] >= 0 && 0 <= Charge(discount, base[d]) <= base[d]
    {
      assert At(base, d) == At(fee, d) - At(tips, d);
      ProperCharge(discount, base[d]);
    }
    var c := Charges(discount, base);
    forall d
      ensures 0 <= At(c, d) <= At(base, d)
    {
    }
    assert !AnyNegative(c);
    var total := Plus(c, tips);
    forall d
      ensures At(tips, d) <= At(total, d) <= At(fee, d)
    {
      assert At(total, d) == At(c, d) + At(tips, d) && At(base, d) == At(fee, d) - At(tips, d);
      assert 0 <= At(c, d) <= At(base, d);
    }
  }

  /** Tips that exceed the fee in some denomination make the subtraction panic, whatever the discount. */
  lemma ExcessiveTipsPanic(fee: Coins, tips: Coins, discount: Discount, d: string)
    requires At(tips, d) > At(fee, d)
    ensures Deducted(fee, tips, discount).Panics?
  {
    assert d in Minus(fee, tips) && Minus(fee, tips)[d] < 0;
  }

  /** What is paid in one denomination. */
  function Paid(fee: Coins, tips: Coins, discount: Discount, d: string): int {
    var r := Deducted(fee, tips, discount);
    if r.Ok? then At(r.value, d) else 0
  }

  /** No discount and 0% charge the whole fee, 100% charges the tips. */
  lemma PaidEnds(fee: Coins, tips: Coins, d: string)
    requires Covers(fee, tips)
    ensures Paid(fee, tips, NoDiscount, d) == Paid(fee, tips, Percent(0), d) == At(fee, d)
    ensures Paid(fee, tips, Percent(HUNDRED), d) == At(tips, d)
  {
    var base := Minus(fee, tips);
    DeductedAt(fee, tips, Percent(0), d);
    DeductedAt(fee, tips, NoDiscount, d);
    DeductedAt(fee, tips, Percent(HUNDRED), d);
    assert At(base, d) == At(fee, d) - At(tips, d);
    if d in base {
      ChargeEnds(base[d]);
    }
  }

  /** The deduction never grows with the percentage. */
  lemma PaidMonotone(fee: Coins, tips: Coins, p: Dec, q: Dec, d: string)
    requires Covers(fee, tips) && 0 <= p <= q <= HUNDRED
    ensures Paid(fee, tips, Percent(q), d) <= Paid(fee, tips, Percent(p), d)
  {
    var base := Minus(fee, tips);
    DeductedAt(fee, tips, Percent(p), d);
    DeductedAt(fee, tips, Percent(q), d);
    assert At(base, d) == At(fee, d) - At(tips, d);
    if d in base {
      ChargeMonotone(p, q, base[d]);
    }
  }

  lemma DeductedAt(fee: Coins, tips: Coins, discount: Discount, d: string)
    requires Covers(fee, tips) && Proper(discount)
    ensures var base := Minus(fee, tips);
            Paid(fee, tips, discount, d) == At(tips, d) + (if d in base then Charge(discount, base[d]) else 0)
  {
    DeductedWithin(fee, tips, discount);
  }

  lemma PaidIsClose(fee: Coins, tips: Coins, p: Dec, d: string, base: int)
    requires Covers(fee, tips) && 0 <= p <= HUNDRED && base == At(fee, d) - At(tips, d)
    ensures IsClose(Paid(fee, tips, Percent(p), d) - At(tips, d), base, p)
  {
    DeductedAt(fee, tips, Percent(p), d);
    assert At(Minus(fee, tips), d) == base;
    assert d in fee.Keys + tips.Keys ==> base >= 0;
    CloseCharge(p, base);
    if base == 0 {
      assert d !in Minus(fee, tips);
    }
  }

  /** The charge is `base * (100 - p) / 100`, up to an error below one and half of 10^-18 of the base. */
  predicate IsClose(charge: int, base: int, p: Dec) {
    -HUNDRED - 50 * base < HUNDRED * charge - base * (HUNDRED - p) <= 50 * base
  }

  lemma CloseCharge(p: Dec, base: int)
    requires 0 <= p <= HUNDRED && base >= 0
    ensures IsClose(Charge(Percent(p), base), base, p)
    ensures base == 0 ==> Charge(Percent(p), base) == 0
  {
    ChargeIsClose(p, base);
    ChargeWithin(p, base);
  }

  /**
   * The percentage exceeds 100 by so much that the amount is charged a whole unit below zero: the
   * excess, rounded to 18 digits, reaches the least share of the amount that makes a whole unit.
   */
  predicate Excessive(p: Dec, amount: int)
    requires amount > 0
  {
    Exceeds(p - HUNDRED, (ONE + amount - 1) / amount)
  }

  /** A hundredth of the excess, to the nearest and ties to even, is at least the share. */
  predicate Exceeds(excess: int, share: int) {
    excess > 100 * share - 50 || (excess == 100 * share - 50 && share % 2 == 0)
  }

  /** The deduction panics exactly when the percentage is excessive for one of the coins. */
  lemma ExcessivePercent(fee: Coins, tips: Coins, p: Dec)
    requires Covers(fee, tips)
    ensures forall d | d in Minus(fee, tips) :: Minus(fee, tips)[d] > 0
    ensures Deducted(fee, tips, Percent(p)).Panics? <==>
            exists d | d in Minus(fee, tips) :: Excessive(p, Minus(fee, tips)[d])
  {
    var base := Minus(fee, tips);
    forall d | d in base
      ensures base[d] > 0
      ensures Charge(Percent(p), base[d]) < 0 <==> Excessive(p, base[d])
    {
      assert At(base, d) == At(fee, d) - At(tips, d);
      NegativeCharge(p, base[d]);
    }
    var c := Charges(Percent(p), base);
    forall d | d in base
      ensures At(c, d) == Charge(Percent(p), base[d])
    {
    }
    if AnyNegative(c) {
      var d :| d in c && c[d] < 0;
      assert d in base && Excessive(p, base[d]);
    }
    if d :| d in base && Excessive(p, base[d]) {
      assert d in c && c[d] < 0;
    }
  }

  lemma NegativeCharge(p: Dec, amount: int)
    requires amount > 0
    ensures Charge(Percent(p), amount) < 0 <==> Excessive(p, amount)
  {
    PercentCharge(p, amount);
    var share, m := (ONE + amount - 1) / amount, Multiplier(p);
    LeastShare(amount, -m, share);
    MultiplierExceeds(p, share);
    ProductSign(amount, m);
  }

  lemma ProductSign(amount: int, m: int)
    ensures Truncated(amount * m, ONE) < 0 <==> amount * -m >= ONE
  {
    TruncatedSign(amount * m);
    assert amount * -m == -(amount * m);
  }

  lemma MultiplierExceeds(p: Dec, share: int)
    requires share >= 1
    ensures -Multiplier(p) >= share <==> Exceeds(p - HUNDRED, share)
  {
    if p > HUNDRED {
      NegativeMultiplier(p - HUNDRED, share);
    } else {
      MultiplierMonotone(p, HUNDRED);
      MultiplierEnds();
    }
  }

  lemma LeastShare(amount: int, m: int, share: int)
    requires amount > 0 && share == (ONE + amount - 1) / amount
    ensures share >= 1 && (amount * m >= ONE <==> m >= share)
  {
    assert amount * share >= ONE && amount * (share - 1) < ONE;
    if m >= share {
      Fees.ProductMonotone(share, m, amount);
    } else {
      Fees.ProductMonotone(m, share - 1, amount);
    }
  }

  lemma NegativeMultiplier(excess: int, share: int)
    requires excess > 0
    ensures -Multiplier(HUNDRED + excess) >= share <==> Exceeds(excess, share)
  {
    var x := excess * 10_000_000_000_000_000;
    assert Truncated(-excess * ONE * ONE, HUNDRED) == -x;
    assert Multiplier(HUNDRED + excess) == -ChopPositive(x);
    assert x / ONE == excess / 100 && x % ONE == (excess % 100) * 10_000_000_000_000_000;
  }

  lemma TruncatedSign(x: int)
    ensures Truncated(x, ONE) < 0 <==> x <= -ONE
  {
  }

  /** Up to 100% nothing is excessive, so the deduction never panics. */
  lemma NoPanicUpToHundred(fee: Coins, tips: Coins, p: Dec)
    requires Covers(fee, tips) && p <= HUNDRED
    ensures Deducted(fee, tips, Percent(p)).Ok?
  {
    ExcessivePercent(fee, tips, p);
    var base := Minus(fee, tips);
    forall d | d in base
      ensures !Excessive(p, base[d])
    {
      LeastShare(base[d], 0, (ONE + base[d] - 1) / base[d]);
    }
  }

  /** A discount of 200% on a fee of 100 panics. */
  lemma TwoHundredPercentPanics()
    ensures Deducted(map["agxn" := 100], map[], Percent(200 * ONE)).Panics?
  {
    var fee: Coins := map["agxn" := 100];
    ExcessivePercent(fee, map[], 200 * ONE);
    assert At(Minus(fee, map[]), "agxn") == 100;
    assert "agxn" in Minus(fee, map[]) && Excessive(200 * ONE, 100);
  }

  /**
   * A fixed "discount" is itself the charge: it lowers the fee exactly where its whole part is
   * within the base fee. It panics exactly when a base fee is charged a whole unit below zero.
   */
  lemma FixedIsTheCharge(fee: Coins, tips: Coins, f: Dec, d: string)
    requires Covers(fee, tips)
    ensures var r := Deducted(fee, tips, Fixed(f));
            && (r.Panics? <==> f <= -ONE && Minus(fee, tips) != map[])
            && (r.Ok? ==>
                  (At(r.value, d) <= At(fee, d) <==>
                   At(fee, d) == At(tips, d) || TruncateInt(f) <= At(fee, d) - At(tips, d)))
  {
    var base := Minus(fee, tips);
    forall d | d in base
      ensures base[d] > 0
    {
      assert At(base, d) == At(fee, d) - At(tips, d);
    }
    var c := Charges(Fixed(f), base);
    TruncatedSign(f);
    assert forall d :: At(c, d) == if d in base then TruncateInt(f) else 0;
    if e :| e in base {
      assert TruncateInt(f) < 0 ==> e in c && c[e] < 0;
    }
    assert At(Plus(c, tips), d) == At(c, d) + At(tips, d);
    assert At(base, d) == At(fee, d) - At(tips, d);
  }

  /** A fixed discount of 50 on a fee of 10 charges 50. */
  lemma FixedDiscountRaisesFee()
    ensures Paid(map["agxn" := 10], map[], Fixed(50 * ONE), "agxn") == 50
  {
    var fee: Coins := map["agxn" := 10];
    FixedIsTheCharge(fee, map[], 50 * ONE, "agxn");
    var base := Minus(fee, map[]);
    assert At(base, "agxn") == 10;
    var c := Charges(Fixed(50 * ONE), base);
    assert At(Plus(c, map[]), "agxn") == At(c, "agxn") + 0;
    assert TruncateInt(50 * ONE) == 50;
  }

  /**
   * From the offer to the deduction: what an accepted transaction pays in the fee denomination is
   * at least its tip and at most its effective fee, hence at most its offer; it pays nothing else.
   */
  lemma PipelineWithin(baseFee: Option<Dec>, tipCap: Dec, gas: nat, offered: int, reduction: int,
                       denom: string, discount: Discount)
    requires reduction > 0 && offered >= 0 && Fees.Base(baseFee) >= 0 && Proper(discount)
    requires Fees.Checked(baseFee, tipCap, gas, offered, reduction).Accepted?
    ensures var v := Fees.Checked(baseFee, tipCap, gas, offered, reduction);
            var r := Deducted(map[denom := v.fee], map[denom := v.tip], discount);
            && r.Ok?
            && v.tip <= At(r.value, denom) <= v.fee <= offered
            && (forall d | d != denom :: At(r.value, d) == 0)
            && (discount.NoDiscount? ==> At(r.value, denom) == v.fee)
  {
    Fees.CheckedBounds(baseFee, tipCap, gas, offered, reduction);
    var v := Fees.Checked(baseFee, tipCap, gas, offered, reduction);
    Fees.ProductMonotone(0, Fees.Base(baseFee), gas);
    var fee, tips: Coins := map[denom := v.fee], map[denom := v.tip];
    assert Covers(fee, tips);
    DeductedWithin(fee, tips, discount);
    PaidEnds(fee, tips, denom);
    var r := Deducted(fee, tips, discount).value;
    forall d | d != denom
      ensures At(r, d) == 0
    {
      assert At(tips, d) <= At(r, d) <= At(fee, d);
    }
  }

  // ---------------------------------------------------------------------------------------
  // Moving the fee
  // ---------------------------------------------------------------------------------------

  /** Balances by denomination and account. */
  type Bank = map<string, map<string, int>>

  function Accounts(bank: Bank, denom: string): map<string, int> {
    if denom in bank then bank[denom] else map[]
  }

  /** Who can pay and whether the fee grant lets them. */
  datatype Payer = Payer(payer: string, granter: Option<string>, grantsEnabled: bool, grantAllows: bool)

  /** The granter is charged before the payer, if grants are enabled and it is the payer or lets it. */
  predicate PaysFrom(p: Payer, source: string) {
    match p.granter
    case None => source == p.payer
    case Some(granter) => source == granter && p.grantsEnabled && (granter == p.payer || p.grantAllows)
  }

  /** The source is a known account that pays for the payer and has every coin of the fee. */
  predicate CanPay(p: Payer, source: string, known: set<string>, bank: Bank, fee: Coins) {
    PaysFrom(p, source) && source in known && forall d | d in fee :: 0 < fee[d] <= At(Accounts(bank, d), source)
  }

  lemma OneSource(p: Payer, source: string, known: set<string>, bank: Bank, fee: Coins)
    requires p.granter.Some? ==> source == p.granter.value
    requires p.granter.None? ==> source == p.payer
    ensures CanPay(p, source, known, bank, fee) <==> exists other :: CanPay(p, other, known, bank, fee)
    ensures forall other | CanPay(p, other, known, bank, fee) :: other == source
  {
  }

  predicate Affordable(bank: Bank, account: string, fee: Coins) {
    forall d | d in fee :: fee[d] <= At(Accounts(bank, d), account)
  }

  /** The fee and the tips of a transaction, as offered or as the fee checker returns them. */
  datatype Assessed = Assessed(fee: Coins, tips: Coins)

  /** The fee has moved from one account to the other, and nothing else has. */
  ghost predicate Charged(before: Bank, after: Bank, source: string, collector: string, fee: Coins) {
    forall d {:trigger Accounts(after, d)} :: Accounts(after, d) == ChargedAccounts(Accounts(before, d), source, collector, fee, d)
  }

  function ChargedAccounts(m: map<string, int>, source: string, collector: string, fee: Coins, d: string)
    : map<string, int>
  {
    if d in fee then Move(m, source, collector, fee[d]) else m
  }

  predicate Positive(fee: Coins) {
    forall d | d in fee :: fee[d] > 0
  }

  class Ledger {
    var bank: Bank
    var known: set<string>
    const collector: string

    /** Charges the payer or its granter; a failure leaves every balance as it was. */
    method CheckDeductFee(p: Payer, fee: Coins) returns (ok: bool)
      modifies this`bank
      ensures ok <==> exists source :: CanPay(p, source, known, old(bank), fee)
      ensures !ok ==> bank == old(bank)
      ensures forall source | CanPay(p, source, known, old(bank), fee) :: Charged(old(bank), bank, source, collector, fee)
    {
      if p.granter.Some? {
        if !p.grantsEnabled {
          return false;
        } else if p.granter.value != p.payer && !p.grantAllows {
          return false;
        }
      }
      var source := if p.granter.Some? then p.granter.value else p.payer;
      assert PaysFrom(p, source);
      if source !in known {
        return false;
      }
      if !Positive(fee) {
        return false;
      }
      var sent := SendCoins(bank, source, collector, fee);
      ok := sent.Ok?;
      assert ok <==> CanPay(p, source, known, bank, fee);
      if ok {
        bank := sent.value;
      }
      OneSource(p, source, known, old(bank), fee);
    }

    /**
     * The whole decorator: it charges the specified deduction exactly when the transaction is
     * assessed, the discount does not make it panic, and the payer may and can pay.
     */
    method AnteHandle(simulate: bool, height: int, market: Market, tx: FeeTx, discount: Discount, p: Payer)
      returns (r: Outcome<Coins>)
      requires market.Dynamic? ==> market.reduction > 0
      modifies this`bank
      ensures var due := Due(simulate, height, market, tx, discount);
              if due.Ok? && exists source :: CanPay(p, source, known, old(bank), due.value)
              then r == due && forall source | CanPay(p, source, known, old(bank), due.value) ::
                                 Charged(old(bank), bank, source, collector, due.value)
              else r == (if due.Ok? then Failed else due) && bank == old(bank)
    {
      if !simulate && height > 0 && tx.gas == 0 {
        return Failed;
      }
      var assessed := Assessed(tx.fee, map[]);
      if !simulate {
        var checked := CheckTxFee(market, tx);
        if checked.Panics? {
          return Panics;
        } else if checked.Failed? {
          return Failed;
        }
        assessed := checked.value;
      }
      r := Deduct(assessed.fee, assessed.tips, discount);
      if r.Ok? {
        var ok := CheckDeductFee(p, r.value);
        if !ok {
          return Failed;
        }
      }
    }
  }

  /** The parts of a transaction that the decorator looks at. */
  datatype FeeTx = FeeTx(gas: nat, fee: Coins, options: seq<Fees.ExtOption>)

  /**
   * The fee checker in force: the dynamic one, or the fallback for genesis and for blocks before
   * the London fork, whose answer is not modelled.
   */
  datatype Market =
    | Dynamic(denom: string, baseFee: Option<Dec>, reduction: int)
    | Fallback(answer: Outcome<Assessed>)

  function AssessedFee(market: Market, tx: FeeTx): Outcome<Assessed>
    requires market.Dynamic? ==> market.reduction > 0
  {
    match market
    case Fallback(answer) => answer
    case Dynamic(denom, baseFee, reduction) =>
      match Fees.Checked(baseFee, Fees.TipCap(tx.options), tx.gas, At(tx.fee, denom), reduction)
      case Accepted(fee, tip, _) => Ok(Assessed(map[denom := fee], map[denom := tip]))
      case Refused => Failed
  }

  method CheckTxFee(market: Market, tx: FeeTx) returns (r: Outcome<Assessed>)
    requires market.Dynamic? ==> market.reduction > 0
    ensures r == AssessedFee(market, tx)
  {
    match market {
      case Fallback(answer) =>
        return answer;
      case Dynamic(denom, baseFee, reduction) =>
        var v := Fees.Check(baseFee, tx.options, tx.gas, At(tx.fee, denom), reduction);
        return if v.Accepted? then Ok(Assessed(map[denom := v.fee], map[denom := v.tip])) else Failed;
    }
  }

  /** What a transaction owes; a simulation takes the fee as offered and without tips. */
  function Due(simulate: bool, height: int, market: Market, tx: FeeTx, discount: Discount): Outcome<Coins>
    requires market.Dynamic? ==> market.reduction > 0
  {
    if simulate then Deducted(tx.fee, map[], discount)
    else if height > 0 && tx.gas == 0 then Failed
    else
      match AssessedFee(market, tx)
      case Ok(assessed) => Deducted(assessed.fee, assessed.tips, discount)
      case Failed => Failed
      case Panics => Panics
  }

  /**
   * Under the dynamic fee and a proper discount, nothing panics, what is due is at most the offer,
   * and it is all in the fee denomination.
   */
  lemma DueWithinOffer(height: int, market: Market, tx: FeeTx, discount: Discount)
    requires market.Dynamic? && market.reduction > 0 && Fees.Base(market.baseFee) >= 0
    requires At(tx.fee, market.denom) >= 0 && Proper(discount)
    ensures var due := Due(false, height, market, tx, discount);
            && !due.Panics?
            && (due.Ok? ==>
                  && 0 <= At(due.value, market.denom) <= At(tx.fee, market.denom)
                  && forall d | d != market.denom :: At(due.value, d) == 0)
  {
    var tipCap, offered := Fees.TipCap(tx.options), At(tx.fee, market.denom);
    if Fees.Checked(market.baseFee, tipCap, tx.gas, offered, market.reduction).Accepted? {
      PipelineWithin(market.baseFee, tipCap, tx.gas, offered, market.reduction, market.denom, discount);
      Fees.CheckedBounds(market.baseFee, tipCap, tx.gas, offered, market.reduction);
    }
  }

  // ---------------------------------------------------------------------------------------
  // What is due, from the transaction to the deduction
  // ---------------------------------------------------------------------------------------

  /**
   * What is asked in a denomination before the discount, and how much of it is tip: a simulation takes
   * the fee as offered, the dynamic checker asks for its fee in the fee denomination only.
   */
  predicate Asks(simulate: bool, height: int, market: Market, tx: FeeTx, d: string, fee: int, tip: int)
    requires market.Dynamic? ==> market.reduction > 0
  {
    if simulate then fee == At(tx.fee, d) && tip == 0
    else
      match market
      case Fallback(Ok(a)) => (height > 0 ==> tx.gas > 0) && fee == At(a.fee, d) && tip == At(a.tips, d)
      case Fallback(_) => false
      case Dynamic(denom, baseFee, reduction) =>
        var v := Fees.Checked(baseFee, Fees.TipCap(tx.options), tx.gas, At(tx.fee, denom), reduction);
        v.Accepted? && if d == denom then fee == v.fee && tip == v.tip else fee == 0 && tip == 0
  }

  /** Offers and base fees are not negative, and an answer of the fallback has its tips within its fee. */
  predicate Regular(simulate: bool, market: Market, tx: FeeTx) {
    && (market.Dynamic? ==> market.reduction > 0)
    && (forall d | d in tx.fee :: tx.fee[d] >= 0)
    && (!simulate ==>
          match market
          case Dynamic(_, baseFee, _) => Fees.Base(baseFee) >= 0
          case Fallback(Ok(a)) => Covers(a.fee, a.tips)
          case Fallback(_) => true)
  }

  lemma AskedCoins(simulate: bool, height: int, market: Market, tx: FeeTx, d: string, fee: int, tip: int)
    returns (a: Assessed)
    requires Regular(simulate, market, tx) && Asks(simulate, height, market, tx, d, fee, tip)
    ensures Covers(a.fee, a.tips) && At(a.fee, d) == fee && At(a.tips, d) == tip && 0 <= tip <= fee
    ensures forall discount :: Due(simulate, height, market, tx, discount) == Deducted(a.fee, a.tips, discount)
  {
    if simulate {
      a := Assessed(tx.fee, map[]);
    } else {
      match market
      case Fallback(answer) =>
        a := answer.value;
      case Dynamic(denom, baseFee, reduction) =>
        var tipCap, offered := Fees.TipCap(tx.options), At(tx.fee, denom);
        var v := Fees.Checked(baseFee, tipCap, tx.gas, offered, reduction);
        Fees.CheckedBounds(baseFee, tipCap, tx.gas, offered, reduction);
        Fees.ProductMonotone(0, Fees.Base(baseFee), tx.gas);
        a := Assessed(map[denom := v.fee], map[denom := v.tip]);
    }
    if d !in a.fee.Keys + a.tips.Keys {
      assert fee == 0 && tip == 0;
    }
  }

  /** Without a discount and at 0% all that is asked is due, at 100% only the tip. */
  lemma DueEnds(simulate: bool, height: int, market: Market, tx: FeeTx, d: string, fee: int, tip: int)
    requires Regular(simulate, market, tx) && Asks(simulate, height, market, tx, d, fee, tip)
    ensures var full, none, all := Due(simulate, height, market, tx, NoDiscount),
                                   Due(simulate, height, market, tx, Percent(0)),
                                   Due(simulate, height, market, tx, Percent(HUNDRED));
            && full.Ok? && At(full.value, d) == fee
            && none.Ok? && At(none.value, d) == fee
            && all.Ok? && At(all.value, d) == tip
  {
    var a := AskedCoins(simulate, height, market, tx, d, fee, tip);
    PaidEnds(a.fee, a.tips, d);
    DeductedWithin(a.fee, a.tips, NoDiscount);
    DeductedWithin(a.fee, a.tips, Percent(0));
    DeductedWithin(a.fee, a.tips, Percent(HUNDRED));
  }

  /** A larger percentage never makes more due. */
  lemma DueMonotone(simulate: bool, height: int, market: Market, tx: FeeTx, d: string, fee: int, tip: int, p: Dec, q: Dec)
    requires Regular(simulate, market, tx) && Asks(simulate, height, market, tx, d, fee, tip)
    requires 0 <= p <= q <= HUNDRED
    ensures var more, less := Due(simulate, height, market, tx, Percent(p)), Due(simulate, height, market, tx, Percent(q));
            more.Ok? && less.Ok? && At(less.value, d) <= At(more.value, d)
  {
    var a := AskedCoins(simulate, height, market, tx, d, fee, tip);
    PaidMonotone(a.fee, a.tips, p, q, d);
    DeductedWithin(a.fee, a.tips, Percent(p));
    DeductedWithin(a.fee, a.tips, Percent(q));
  }

  /**
   * At a percentage `p` the tip and `(fee - tip) * (100 - p) / 100` are due, up to an error below one
   * and half of 10^-18 of the base.
   */
  lemma DueIsClose(simulate: bool, height: int, market: Market, tx: FeeTx, d: string, fee: int, tip: int, p: Dec)
    requires Regular(simulate, market, tx) && Asks(simulate, height, market, tx, d, fee, tip)
    requires 0 <= p <= HUNDRED
    ensures var due := Due(simulate, height, market, tx, Percent(p));
            due.Ok? && IsClose(At(due.value, d) - tip, fee - tip, p)
  {
    var a := AskedCoins(simulate, height, market, tx, d, fee, tip);
    var due := Due(simulate, height, market, tx, Percent(p));
    DeductedIsClose(a, due, p, d, fee, tip);
  }

  lemma DeductedIsClose(a: Assessed, due: Outcome<Coins>, p: Dec, d: string, fee: int, tip: int)
    requires Covers(a.fee, a.tips) && 0 <= p <= HUNDRED && due == Deducted(a.fee, a.tips, Percent(p))
    requires At(a.fee, d) == fee && At(a.tips, d) == tip
    ensures due.Ok? && IsClose(At(due.value, d) - tip, fee - tip, p)
  {
    DeductedWithin(a.fee, a.tips, Percent(p));
    PaidIsClose(a.fee, a.tips, p, d, fee - tip);
  }

  /** A fixed amount replaces whatever is asked besides the tip; its fraction is dropped. */
  lemma DueFixed(simulate: bool, height: int, market: Market, tx: FeeTx, d: string, fee: int, tip: int, f: Dec)
    requires Regular(simulate, market, tx) && Asks(simulate, height, market, tx, d, fee, tip) && f >= 0
    ensures var due := Due(simulate, height, market, tx, Fixed(f));
            due.Ok? && At(due.value, d) == tip + if fee > tip then f / ONE else 0
  {
    var a := AskedCoins(simulate, height, market, tx, d, fee, tip);
    FixedIsTheCharge(a.fee, a.tips, f, d);
    var base := Minus(a.fee, a.tips);
    assert At(base, d) == fee - tip;
    var c := Charges(Fixed(f), base);
    assert At(c, d) == if d in base then TruncateInt(f) else 0;
    assert At(Plus(c, a.tips), d) == At(c, d) + At(a.tips, d);
  }

  /**
   * Under the dynamic fee and a proper discount something is due exactly when the tip cap is not
   * negative, gas is asked for and the offer covers the base fee; otherwise the transaction fails.
   */
  lemma DueExactly(height: int, market: Market, tx: FeeTx, discount: Discount)
    requires market.Dynamic? && Regular(false, market, tx) && Proper(discount)
    ensures var due := Due(false, height, market, tx, discount);
            && !due.Panics?
            && (due.Ok? <==>
                  && Fees.TipCap(tx.options) >= 0 && tx.gas > 0
                  && Fees.Base(market.baseFee) * tx.gas <= FromInt(At(tx.fee, market.denom)))
  {
    var tipCap, offered := Fees.TipCap(tx.options), At(tx.fee, market.denom);
    Fees.CheckedAccepts(market.baseFee, tipCap, tx.gas, offered, market.reduction);
    var v := Fees.Checked(market.baseFee, tipCap, tx.gas, offered, market.reduction);
    if v.Accepted? {
      var a := AskedCoins(false, height, market, tx, market.denom, v.fee, v.tip);
      DeductedWithin(a.fee, a.tips, discount);
    }
  }

  /** Under the other fee rule its answer decides, but after genesis a transaction has to ask for gas. */
  lemma DueByRule(height: int, answer: Outcome<Assessed>, tx: FeeTx, discount: Discount)
    requires Proper(discount) && (answer.Ok? ==> Covers(answer.value.fee, answer.value.tips))
    ensures Due(false, height, Fallback(answer), tx, discount).Ok? <==> answer.Ok? && (height > 0 ==> tx.gas > 0)
    ensures height > 0 && tx.gas == 0 ==> Due(false, height, Fallback(answer), tx, discount) == Failed
  {
    if answer.Ok? {
      DeductedWithin(answer.value.fee, answer.value.tips, discount);
    }
  }

  /** What a charge does to each balance. */
  lemma ChargedBalances(before: Bank, after: Bank, source: string, collector: string, fee: Coins, d: string, a: string)
    requires Charged(before, after, source, collector, fee)
    ensures At(Accounts(after, d), a) == At(Accounts(before, d), a) -
            (if a == source then At(fee, d) else 0) + (if a == collector then At(fee, d) else 0)
  {
    if d in fee {
      MoveAt(Accounts(before, d), source, collector, fee[d], a);
    }
  }

  lemma ChargedStep(bank: Bank, next: Bank, moved: Bank, source: string, to: string, done: Coins, d: string,
                    amount: int)
    requires Charged(bank, next, source, to, done) && d !in done
    requires moved == next[d := Move(Accounts(next, d), source, to, amount)]
    ensures Charged(bank, moved, source, to, done[d := amount])
  {
    forall e
      ensures Accounts(moved, e) == ChargedAccounts(Accounts(bank, e), source, to, done[d := amount], e)
    {
      assert Accounts(next, e) == ChargedAccounts(Accounts(bank, e), source, to, done, e);
    }
  }

  /** Moves the coins one by one; balances change only if all of them can be moved. */
  method SendCoins(bank: Bank, source: string, to: string, fee: Coins) returns (r: Outcome<Bank>)
    ensures r.Ok? <==> Affordable(bank, source, fee)
    ensures r.Ok? ==> Charged(bank, r.value, source, to, fee)
  {
    var next := bank;
    var pending := fee.Keys;
    ghost var done: Coins := map[];
    while pending != {}
      invariant Splits(fee, pending, done) && Affordable(bank, source, done)
      invariant Charged(bank, next, source, to, done)
      decreases |pending|
    {
      var d :| d in pending;
      NotYetCharged(bank, next, source, to, done, d);
      var accounts, amount := Accounts(next, d), fee[d];
      if At(accounts, source) < amount {
        return Failed;
      }
      SplitsStep(fee, pending, done, d);
      var moved := next[d := Move(accounts, source, to, amount)];
      ChargedStep(bank, next, moved, source, to, done, d, amount);
      next, pending, done := moved, pending - {d}, done[d := amount];
    }
    assert done == fee;
    return Ok(next);
  }

  /** The coins still to be moved and those already moved make up the fee. */
  ghost predicate Splits(fee: Coins, pending: set<string>, done: Coins) {
    && (forall d :: d in fee <==> d in pending || d in done)
    && (forall d | d in done :: d !in pending && done[d] == fee[d])
  }

  lemma SplitsStep(fee: Coins, pending: set<string>, done: Coins, d: string)
    requires Splits(fee, pending, done) && d in pending
    ensures Splits(fee, pending - {d}, done[d := fee[d]])
  {
  }

  lemma NotYetCharged(bank: Bank, next: Bank, source: string, to: string, done: Coins, d: string)
    requires Charged(bank, next, source, to, done) && d !in done
    ensures Accounts(next, d) == Accounts(bank, d)
  {
    assert Accounts(next, d) == ChargedAccounts(Accounts(bank, d), source, to, done, d);
  }

  /** Charging a fee does not change the supply of any denomination. */
  lemma FeeConserves(before: Bank, after: Bank, source: string, collector: string, fee: Coins, d: string)
    requires Charged(before, after, source, collector, fee)
    ensures Total(Accounts(after, d)) == Total(Accounts(before, d))
  {
    if d in fee {
      MoveTotal(Accounts(before, d), source, collector, fee[d]);
    }
  }
}
