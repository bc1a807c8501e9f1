/**
 * The bank with extended precision (`x/precisebank/keeper`): balances of the extended coin are kept
 * as whole coins in the bank plus a fraction, and a reserve account backs the fractions of all
 * accounts. The laws proved are those of `x/precisebank/README.md`.
 */
module PreciseBank {
  import opened Outcomes
  import opened Totals

  type Address = string

  /** The module account that holds the reserve. */
  const RESERVE: Address := "precisebank"

  datatype State = State(integer: map<Address, int>, fractional: map<Address, int>, remainder: int)

  // ---------------------------------------------------------------------------------------
  // Fractions
  // ---------------------------------------------------------------------------------------

  /** A zero fraction is not stored. */
  function Put(m: map<Address, int>, a: Address, v: int): map<Address, int> {
    if v == 0 then m - {a} else m[a := v]
  }

  lemma PutAt(m: map<Address, int>, a: Address, v: int, k: Address)
    ensures At(Put(m, a, v), k) == if k == a then v else At(m, k)
  {
  }

  lemma PutTotal(m: map<Address, int>, a: Address, v: int)
    ensures Total(Put(m, a, v)) == Total(m) - At(m, a) + v
  {
    if v != 0 {
      TotalUpdate(m, m[a := v], a, v);
    } else if a in m {
      TotalUpdate(m - {a}, m, a, m[a]) by {
        assert m == (m - {a})[a := m[a]];
      }
    } else {
      assert m - {a} == m;
    }
  }

  /** What is left of a fraction, borrowing a whole coin if it does not suffice. */
  function SubFraction(c: int, fraction: int, amount: int): int {
    if fraction < amount then fraction - amount + c else fraction - amount
  }

  /** A fraction after an addition, carrying a whole coin if it overflows. */
  function AddFraction(c: int, fraction: int, amount: int): int {
    if fraction + amount >= c then fraction + amount - c else fraction + amount
  }

  /** Stored fractions lie strictly between nothing and a whole coin. */
  predicate Storable(c: int, v: int) {
    0 <= v < c
  }

  // ---------------------------------------------------------------------------------------
  // Operations on the extended coin, as functions of the state
  // ---------------------------------------------------------------------------------------

  /** Amounts are split into whole coins and a fraction. */
  function Sent(c: int, s: State, from: Address, to: Address, amount: int): Outcome<State>
    requires c > 0
  {
    SentSplit(c, s, from, to, amount / c, amount % c)
  }

  function SentSplit(c: int, s: State, from: Address, to: Address, whole: int, fraction: int): Outcome<State> {
    if from == to then Ok(s)
    else
      var f, g := At(s.fractional, from), At(s.fractional, to);
      var borrow, carry := f < fraction, g + fraction >= c;
      var direct := whole + if borrow && carry then 1 else 0;
      if f >= c || g >= c then Panics
      else if direct > 0 && At(s.integer, from) < direct then Failed
      else
        var moved := if direct > 0 then Move(s.integer, from, to, direct) else s.integer;
        if borrow && !carry && At(moved, from) < 1 then Failed
        else if !borrow && carry && At(moved, RESERVE) < 1 then Panics
        else
          var settled := if borrow && !carry then Move(moved, from, RESERVE, 1)
                         else if !borrow && carry then Move(moved, RESERVE, to, 1)
                         else moved;
          var x, y := SubFraction(c, f, fraction), AddFraction(c, g, fraction);
          if !Storable(c, x) || !Storable(c, y) then Panics
          else Ok(State(settled, Put(Put(s.fractional, from, x), to, y), s.remainder))
  }

  function Give(m: map<Address, int>, to: Address, amount: int): map<Address, int> {
    m[to := At(m, to) + amount]
  }

  function Minted(c: int, s: State, to: Address, amount: int): Outcome<State>
    requires c > 0
  {
    MintedSplit(c, s, to, amount / c, amount % c)
  }

  function MintedSplit(c: int, s: State, to: Address, whole: int, fraction: int): Outcome<State> {
    var f := At(s.fractional, to);
    var left := s.remainder - fraction;
    var carry := f + fraction >= c;
    if carry && left >= 0 && At(s.integer, RESERVE) < 1 then Failed
    else
      var carried := if carry && left >= 0 then Move(s.integer, RESERVE, to, 1) else s.integer;
      var direct := whole + if carry && left < 0 then 1 else 0;
      var minted := if direct > 0 then Give(carried, to, direct) else carried;
      var backed := if left < 0 && !carry then Give(minted, RESERVE, 1) else minted;
      var x, r := AddFraction(c, f, fraction), SubFraction(c, s.remainder, fraction);
      if !Storable(c, x) || !Storable(c, r) then Panics
      else Ok(State(backed, Put(s.fractional, to, x), r))
  }

  function Burned(c: int, s: State, from: Address, amount: int): Outcome<State>
    requires c > 0
  {
    BurnedSplit(c, s, from, amount / c, amount % c)
  }

  function BurnedSplit(c: int, s: State, from: Address, whole: int, fraction: int): Outcome<State> {
    var f := At(s.fractional, from);
    var borrow, overflow := f < fraction, s.remainder + fraction >= c;
    var direct := whole + if borrow && overflow then 1 else 0;
    if borrow && !overflow && At(s.integer, from) < 1 then Failed
    else if !borrow && overflow && At(s.integer, RESERVE) < 1 then Failed
    else
      var settled := if borrow && !overflow then Move(s.integer, from, RESERVE, 1)
                     else if !borrow && overflow then Give(s.integer, RESERVE, -1)
                     else s.integer;
      if direct > 0 && At(settled, from) < direct then Failed
      else
        var burned := if direct > 0 then Give(settled, from, -direct) else settled;
        var x, r := SubFraction(c, f, fraction), AddFraction(c, s.remainder, fraction);
        if !Storable(c, x) || !Storable(c, r) then Panics
        else Ok(State(burned, Put(s.fractional, from, x), r))
  }

  // ---------------------------------------------------------------------------------------
  // The keeper, updating the state in place
  // ---------------------------------------------------------------------------------------

  datatype Result = Done | Error | Panic

  /** The result of an operation and the state it leaves when it succeeds. */
  predicate Agrees(o: Outcome<State>, r: Result, s: State) {
    match o
    case Ok(after) => r == Done && s == after
    case Failed => r == Error
    case Panics => r == Panic
  }

  class Keeper {
    var integer: map<Address, int>
    var fractional: map<Address, int>
    var remainder: int
    const factor: int

    function Contents(): State
      reads this
    {
      State(integer, fractional, remainder)
    }

    /** The bank's own transfer of whole coins. */
    method BankSend(from: Address, to: Address, n: int) returns (ok: bool)
      modifies this`integer
      ensures ok <==> At(old(integer), from) >= n
      ensures integer == if ok then Move(old(integer), from, to, n) else old(integer)
    {
      if At(integer, from) < n {
        return false;
      }
      integer := Move(integer, from, to, n);
      return true;
    }

    method BankMint(to: Address, n: int)
      modifies this`integer
      ensures integer == Give(old(integer), to, n)
    {
      integer := Give(integer, to, n);
    }

    method BankBurn(from: Address, n: int) returns (ok: bool)
      modifies this`integer
      ensures ok <==> At(old(integer), from) >= n
      ensures integer == if ok then Give(old(integer), from, -n) else old(integer)
    {
      if At(integer, from) < n {
        return false;
      }
      integer := Give(integer, from, -n);
      return true;
    }

    method SendExtendedCoins(from: Address, to: Address, amount: int) returns (r: Result)
      requires factor > 0
      modifies this
      ensures Agrees(Sent(factor, old(Contents()), from, to, amount), r, Contents())
    {
      if from == to {
        return Done;
      }
      r := SendParts(from, to, amount / factor, amount % factor);
    }

    method SendParts(from: Address, to: Address, whole: int, fraction: int) returns (r: Result)
      requires from != to
      modifies this
      ensures Agrees(SentSplit(factor, old(Contents()), from, to, whole, fraction), r, Contents())
    {
      var f, g := At(fractional, from), At(fractional, to);
      if f >= factor || g >= factor {
        return Panic;
      }
      var borrow, carry := f < fraction, g + fraction >= factor;
      var direct := whole;
      if borrow && carry {
        direct := direct + 1;
      }
      if direct > 0 {
        var ok := BankSend(from, to, direct);
        if !ok {
          return Error;
        }
      }
      if borrow && !carry {
        var ok := BankSend(from, RESERVE, 1);
        if !ok {
          return Error;
        }
      }
      if !borrow && carry {
        var ok := BankSend(RESERVE, to, 1);
        if !ok {
          return Panic;
        }
      }
      var x, y := SubFraction(factor, f, fraction), AddFraction(factor, g, fraction);
      if !Storable(factor, x) || !Storable(factor, y) {
        return Panic;
      }
      fractional := Put(fractional, from, x);
      fractional := Put(fractional, to, y);
      return Done;
    }

    method MintExtendedCoin(to: Address, amount: int) returns (r: Result)
      requires factor > 0
      modifies this
      ensures Agrees(Minted(factor, old(Contents()), to, amount), r, Contents())
    {
      r := MintParts(to, amount / factor, amount % factor);
    }

    method MintParts(to: Address, whole: int, fraction: int) returns (r: Result)
      modifies this
      ensures Agrees(MintedSplit(factor, old(Contents()), to, whole, fraction), r, Contents())
    {
      var f := At(fractional, to);
      var previous := remainder;
      var left := previous - fraction;
      var carry := f + fraction >= factor;
      var direct := whole;
      if carry && left >= 0 {
        var ok := BankSend(RESERVE, to, 1);
        if !ok {
          return Error;
        }
      }
      if carry && left < 0 {
        direct := direct + 1;
      }
      if direct > 0 {
        BankMint(to, direct);
      }
      var x := AddFraction(factor, f, fraction);
      if previous < fraction && !carry {
        BankMint(RESERVE, 1);
      }
      if left < 0 {
        left := left + factor;
      }
      if !Storable(factor, x) || !Storable(factor, left) {
        return Panic;
      }
      fractional := Put(fractional, to, x);
      remainder := left;
      return Done;
    }

    method BurnExtendedCoin(from: Address, amount: int) returns (r: Result)
      requires factor > 0
      modifies this
      ensures Agrees(Burned(factor, old(Contents()), from, amount), r, Contents())
    {
      r := BurnParts(from, amount / factor, amount % factor);
    }

    method BurnParts(from: Address, whole: int, fraction: int) returns (r: Result)
      modifies this
      ensures Agrees(BurnedSplit(factor, old(Contents()), from, whole, fraction), r, Contents())
    {
      var x := At(fractional, from) - fraction;
      var borrow := x < 0;
      var left := remainder + fraction;
      var overflow := left >= factor;
      var direct := whole;
      if borrow && overflow {
        x, left, direct := x + factor, left - factor, direct + 1;
      }
      if borrow && !overflow {
        x := x + factor;
        var ok := BankSend(from, RESERVE, 1);
        if !ok {
          return Error;
        }
      }
      if !borrow && overflow {
        var ok := BankBurn(RESERVE, 1);
        if !ok {
          return Error;
        }
        left := left - factor;
      }
      if direct > 0 {
        var ok := BankBurn(from, direct);
        if !ok {
          return Error;
        }
      }
      if !Storable(factor, x) || !Storable(factor, left) {
        return Panic;
      }
      fractional := Put(fractional, from, x);
      remainder := left;
      return Done;
    }
  }

  // ---------------------------------------------------------------------------------------
  // The invariant
  // ---------------------------------------------------------------------------------------

  /** Stored fractions are less than a whole coin, and the reserve has none. */
  predicate Fractions(c: int, m: map<Address, int>) {
    (forall a | a in m :: 0 < m[a] < c) && RESERVE !in m
  }

  predicate NonNegative(m: map<Address, int>) {
    forall a | a in m :: m[a] >= 0
  }

  /** The reserve backs exactly the fractions of all accounts and the remainder. */
  ghost predicate Backed(c: int, s: State) {
    && c > 0 && 0 <= s.remainder < c
    && Fractions(c, s.fractional)
    && NonNegative(s.integer)
    && At(s.integer, RESERVE) * c == Total(s.fractional) + s.remainder
  }

  /** The balance of an account in the extended coin. */
  function Balance(c: int, s: State, a: Address): int {
    At(s.integer, a) * c + At(s.fractional, a)
  }

  lemma {:induction false} SumNonNegative(m: map<Address, int>, keys: set<Address>)
    requires forall a | a in m :: m[a] >= 0
    ensures SumOver(m, keys) >= 0
  {
    if keys != {} {
      SumNonNegative(m, keys - {Pick(keys)});
    }
  }

  /** The fractions of two accounts are part of the sum. */
  lemma SumAtLeast(m: map<Address, int>, a: Address, b: Address)
    requires (forall k | k in m :: m[k] >= 0) && a != b
    ensures Total(m) >= At(m, a) + At(m, b)
  {
    var rest := m.Keys - {a};
    SumNonNegative(m, m.Keys);
    SumNonNegative(m, rest);
    SumNonNegative(m, rest - {b});
    SumNonNegative(m, m.Keys - {b});
    if a in m {
      SumSplit(m, m.Keys, a);
      if b in m {
        SumSplit(m, rest, b);
      }
    } else if b in m {
      SumSplit(m, m.Keys, b);
    }
  }

  lemma Times(c: int, n: int, d: int)
    ensures (n + d) * c == n * c + d * c
  {
  }

  /** A reserve that backs at least a whole coin holds one. */
  lemma ReserveHolds(c: int, n: int, backing: int)
    requires c > 0 && n * c == backing && backing >= c
    ensures n >= 1
  {
    assert n <= 0 ==> n * c <= 0;
  }

  /** Whole coins suffice exactly when the balance does. */
  lemma Enough(c: int, n: int, f: int, whole: int, fraction: int)
    requires c > 0 && 0 <= f < c && 0 <= fraction < c
    ensures n * c + f >= whole * c + fraction <==> n >= whole + Bit(f < fraction)
  {
    var need := whole + Bit(f < fraction);
    Times(c, need, n - need);
    Times(c, whole, Bit(f < fraction));
    if n >= need {
      assert (n - need) * c >= 0;
    } else {
      assert (n - need) * c <= -c;
    }
  }

  /** Taking an amount from whole coins and a fraction, or adding it. */
  lemma Subtracted(c: int, n: int, f: int, whole: int, fraction: int)
    ensures (n - whole - Bit(f < fraction)) * c + SubFraction(c, f, fraction) == n * c + f - (whole * c + fraction)
  {
    Times(c, n, -whole - Bit(f < fraction));
    Times(c, -whole, -Bit(f < fraction));
  }

  lemma Added(c: int, n: int, f: int, whole: int, fraction: int)
    ensures (n + whole + Bit(f + fraction >= c)) * c + AddFraction(c, f, fraction) == n * c + f + (whole * c + fraction)
  {
    Times(c, n, whole + Bit(f + fraction >= c));
    Times(c, whole, Bit(f + fraction >= c));
  }

  function Bit(b: bool): int {
    if b then 1 else 0
  }

  /** An amount, split into whole coins and a fraction. */
  predicate Splits(c: int, whole: int, fraction: int) {
    c > 0 && whole >= 0 && 0 <= fraction < c
  }

  lemma SplitAmount(c: int, amount: int)
    requires c > 0 && amount > 0
    ensures Splits(c, amount / c, amount % c) && amount / c * c + amount % c == amount
  {
  }

  lemma PutStorable(c: int, m: map<Address, int>, a: Address, v: int)
    requires Fractions(c, m) && Storable(c, v) && a != RESERVE
    ensures Fractions(c, Put(m, a, v))
  {
  }

  /** The reserve moves with what it has to back. */
  lemma StillBacked(c: int, s: State, r: State, d: int)
    requires Backed(c, s) && 0 <= r.remainder < c && Fractions(c, r.fractional) && NonNegative(r.integer)
    requires At(r.integer, RESERVE) == At(s.integer, RESERVE) + d
    requires Total(r.fractional) + r.remainder == Total(s.fractional) + s.remainder + d * c
    ensures Backed(c, r)
  {
    Times(c, At(s.integer, RESERVE), d);
  }

  // ---------------------------------------------------------------------------------------
  // Sending
  // ---------------------------------------------------------------------------------------

  /** Where the whole coins go. */
  lemma SentIntegers(c: int, s: State, from: Address, to: Address, whole: int, fraction: int, a: Address)
    requires Splits(c, whole, fraction) && from != to && from != RESERVE && to != RESERVE
    requires SentSplit(c, s, from, to, whole, fraction).Ok?
    ensures var borrow := Bit(At(s.fractional, from) < fraction);
            var carry := Bit(At(s.fractional, to) + fraction >= c);
            At(SentSplit(c, s, from, to, whole, fraction).value.integer, a) == At(s.integer, a) +
              (if a == from then -whole - borrow else if a == to then whole + carry
               else if a == RESERVE then borrow - carry else 0)
  {
  }

  lemma SentFractions(c: int, s: State, from: Address, to: Address, whole: int, fraction: int)
    requires Splits(c, whole, fraction) && from != to && SentSplit(c, s, from, to, whole, fraction).Ok?
    ensures var f, g := At(s.fractional, from), At(s.fractional, to);
            var x, y := SubFraction(c, f, fraction), AddFraction(c, g, fraction);
            var r := SentSplit(c, s, from, to, whole, fraction).value;
            && Storable(c, x) && Storable(c, y)
            && r.fractional == Put(Put(s.fractional, from, x), to, y)
            && r.remainder == s.remainder
            && Total(r.fractional) == Total(s.fractional) - f - g + x + y
  {
    var x := SubFraction(c, At(s.fractional, from), fraction);
    PutTotal(s.fractional, from, x);
    PutAt(s.fractional, from, x, to);
    PutTotal(Put(s.fractional, from, x), to, AddFraction(c, At(s.fractional, to), fraction));
  }

  lemma SentReserve(c: int, s: State, from: Address, to: Address, fraction: int)
    requires Backed(c, s) && from != to
    ensures At(s.fractional, from) >= fraction && At(s.fractional, to) + fraction >= c ==>
              At(s.integer, RESERVE) >= 1
  {
    SumAtLeast(s.fractional, from, to);
    if Total(s.fractional) + s.remainder >= c {
      ReserveHolds(c, At(s.integer, RESERVE), Total(s.fractional) + s.remainder);
    }
  }

  lemma SentWhen(c: int, s: State, from: Address, to: Address, whole: int, fraction: int)
    requires Splits(c, whole, fraction) && Backed(c, s) && from != to && from != RESERVE && to != RESERVE
    ensures !SentSplit(c, s, from, to, whole, fraction).Panics?
    ensures SentSplit(c, s, from, to, whole, fraction).Ok? <==>
            At(s.integer, from) >= whole + Bit(At(s.fractional, from) < fraction)
  {
    SentReserve(c, s, from, to, fraction);
  }

  /** A transfer never panics, and it succeeds exactly when the sender can pay. */
  lemma SentSucceeds(c: int, s: State, from: Address, to: Address, amount: int)
    requires Backed(c, s) && amount > 0 && from != RESERVE && to != RESERVE
    ensures !Sent(c, s, from, to, amount).Panics?
    ensures Sent(c, s, from, to, amount).Ok? <==> from == to || Balance(c, s, from) >= amount
  {
    if from != to {
      SplitAmount(c, amount);
      SentWhen(c, s, from, to, amount / c, amount % c);
      Enough(c, At(s.integer, from), At(s.fractional, from), amount / c, amount % c);
    }
  }

  /** Where a stored fraction is not one, or the reserve has no coin to give, a send panics while minting and burning fail. */
  lemma BrokenReserve(c: int, s: State, from: Address, to: Address, amount: int)
    requires c > 0 && amount > 0 && from != to && from != RESERVE && to != RESERVE && At(s.integer, RESERVE) == 0
    ensures var f, g, fraction := At(s.fractional, from), At(s.fractional, to), amount % c;
            && (f >= c || g >= c ==> Sent(c, s, from, to, amount).Panics?)
            && (fraction <= f < c && c - fraction <= g < c && At(s.integer, from) >= amount / c ==>
                  Sent(c, s, from, to, amount).Panics?)
            && (g + fraction >= c && s.remainder >= fraction ==> Minted(c, s, to, amount).Failed?)
            && (f >= fraction && s.remainder + fraction >= c ==> Burned(c, s, from, amount).Failed?)
  {
  }

  /** The sender's balance falls and the recipient's grows by the amount; no other balance changes. */
  lemma SentBalance(c: int, s: State, from: Address, to: Address, amount: int, a: Address)
    requires Backed(c, s) && amount > 0 && from != RESERVE && to != RESERVE && a != RESERVE
    requires Sent(c, s, from, to, amount).Ok?
    ensures Balance(c, Sent(c, s, from, to, amount).value, a) == Balance(c, s, a) +
            (if from == to then 0 else if a == from then -amount else if a == to then amount else 0)
  {
    if from != to {
      SplitAmount(c, amount);
      SentSplitBalance(c, s, from, to, amount / c, amount % c, a);
    }
  }

  lemma SentSplitBalance(c: int, s: State, from: Address, to: Address, whole: int, fraction: int, a: Address)
    requires Splits(c, whole, fraction) && from != to && from != RESERVE && to != RESERVE && a != RESERVE
    requires SentSplit(c, s, from, to, whole, fraction).Ok?
    ensures Balance(c, SentSplit(c, s, from, to, whole, fraction).value, a) == Balance(c, s, a) +
            (if a == from then -(whole * c + fraction) else if a == to then whole * c + fraction else 0)
  {
    SentIntegers(c, s, from, to, whole, fraction, a);
    SentFractions(c, s, from, to, whole, fraction);
    var x, y := SubFraction(c, At(s.fractional, from), fraction), AddFraction(c, At(s.fractional, to), fraction);
    PutAt(s.fractional, from, x, a);
    PutAt(Put(s.fractional, from, x), to, y, a);
    Subtracted(c, At(s.integer, from), At(s.fractional, from), whole, fraction);
    Added(c, At(s.integer, to), At(s.fractional, to), whole, fraction);
  }

  lemma SentNonNegative(c: int, s: State, from: Address, to: Address, whole: int, fraction: int)
    requires Splits(c, whole, fraction) && Backed(c, s) && from != to && from != RESERVE && to != RESERVE
    requires SentSplit(c, s, from, to, whole, fraction).Ok?
    ensures NonNegative(SentSplit(c, s, from, to, whole, fraction).value.integer)
  {
    var r := SentSplit(c, s, from, to, whole, fraction).value;
    SentWhen(c, s, from, to, whole, fraction);
    SentReserve(c, s, from, to, fraction);
    forall a
      ensures At(r.integer, a) >= 0
    {
      SentIntegers(c, s, from, to, whole, fraction, a);
    }
    AllNonNegative(r.integer);
  }

  /** A transfer keeps the reserve exact. */
  lemma SentBacked(c: int, s: State, from: Address, to: Address, whole: int, fraction: int)
    requires Splits(c, whole, fraction) && Backed(c, s) && from != RESERVE && to != RESERVE
    requires SentSplit(c, s, from, to, whole, fraction).Ok?
    ensures Backed(c, SentSplit(c, s, from, to, whole, fraction).value)
  {
    if from != to {
      var r := SentSplit(c, s, from, to, whole, fraction).value;
      var f, g := At(s.fractional, from), At(s.fractional, to);
      SentFractions(c, s, from, to, whole, fraction);
      PutStorable(c, s.fractional, from, SubFraction(c, f, fraction));
      PutStorable(c, Put(s.fractional, from, SubFraction(c, f, fraction)), to, AddFraction(c, g, fraction));
      SentNonNegative(c, s, from, to, whole, fraction);
      SentIntegers(c, s, from, to, whole, fraction, RESERVE);
      StillBacked(c, s, r, Bit(f < fraction) - Bit(g + fraction >= c));
    }
  }

  lemma AllNonNegative(m: map<Address, int>)
    requires forall a :: At(m, a) >= 0
    ensures NonNegative(m)
  {
    forall a | a in m
      ensures m[a] >= 0
    {
      assert At(m, a) >= 0;
    }
  }

  // ---------------------------------------------------------------------------------------
  // Minting
  // ---------------------------------------------------------------------------------------

  lemma MintedParts(c: int, s: State, to: Address, whole: int, fraction: int, a: Address)
    requires Splits(c, whole, fraction) && to != RESERVE && MintedSplit(c, s, to, whole, fraction).Ok?
    ensures var f := At(s.fractional, to);
            var carry, short := Bit(f + fraction >= c), Bit(s.remainder < fraction);
            var r := MintedSplit(c, s, to, whole, fraction).value;
            && At(r.integer, a) == At(s.integer, a) +
                 (if a == to then whole + carry else if a == RESERVE then short - carry else 0)
            && r.fractional == Put(s.fractional, to, AddFraction(c, f, fraction))
            && r.remainder == SubFraction(c, s.remainder, fraction)
            && Storable(c, AddFraction(c, f, fraction)) && Storable(c, r.remainder)
  {
  }

  lemma MintedWhen(c: int, s: State, to: Address, whole: int, fraction: int)
    requires Splits(c, whole, fraction) && Backed(c, s) && to != RESERVE
    ensures MintedSplit(c, s, to, whole, fraction).Ok?
    ensures s.remainder >= fraction && At(s.fractional, to) + fraction >= c ==> At(s.integer, RESERVE) >= 1
  {
    SumAtLeast(s.fractional, to, RESERVE);
    if Total(s.fractional) + s.remainder >= c {
      ReserveHolds(c, At(s.integer, RESERVE), Total(s.fractional) + s.remainder);
    }
  }

  lemma MintedBalance(c: int, s: State, to: Address, whole: int, fraction: int, a: Address)
    requires Splits(c, whole, fraction) && to != RESERVE && a != RESERVE
    requires MintedSplit(c, s, to, whole, fraction).Ok?
    ensures Balance(c, MintedSplit(c, s, to, whole, fraction).value, a) ==
            Balance(c, s, a) + if a == to then whole * c + fraction else 0
  {
    MintedParts(c, s, to, whole, fraction, a);
    PutAt(s.fractional, to, AddFraction(c, At(s.fractional, to), fraction), a);
    Added(c, At(s.integer, to), At(s.fractional, to), whole, fraction);
  }

  lemma MintedNonNegative(c: int, s: State, to: Address, whole: int, fraction: int)
    requires Splits(c, whole, fraction) && Backed(c, s) && to != RESERVE
    requires MintedSplit(c, s, to, whole, fraction).Ok?
    ensures NonNegative(MintedSplit(c, s, to, whole, fraction).value.integer)
  {
    var r := MintedSplit(c, s, to, whole, fraction).value;
    MintedWhen(c, s, to, whole, fraction);
    forall a
      ensures At(r.integer, a) >= 0
    {
      MintedParts(c, s, to, whole, fraction, a);
    }
    AllNonNegative(r.integer);
  }

  lemma MintedBacked(c: int, s: State, to: Address, whole: int, fraction: int)
    requires Splits(c, whole, fraction) && Backed(c, s) && to != RESERVE
    requires MintedSplit(c, s, to, whole, fraction).Ok?
    ensures Backed(c, MintedSplit(c, s, to, whole, fraction).value)
  {
    var r := MintedSplit(c, s, to, whole, fraction).value;
    var f := At(s.fractional, to);
    MintedNonNegative(c, s, to, whole, fraction);
    MintedParts(c, s, to, whole, fraction, RESERVE);
    PutStorable(c, s.fractional, to, AddFraction(c, f, fraction));
    PutTotal(s.fractional, to, AddFraction(c, f, fraction));
    StillBacked(c, s, r, Bit(s.remainder < fraction) - Bit(f + fraction >= c));
  }

  // ---------------------------------------------------------------------------------------
  // Burning
  // ---------------------------------------------------------------------------------------

  lemma BurnedParts(c: int, s: State, from: Address, whole: int, fraction: int, a: Address)
    requires Splits(c, whole, fraction) && from != RESERVE && BurnedSplit(c, s, from, whole, fraction).Ok?
    ensures var f := At(s.fractional, from);
            var borrow, overflow := Bit(f < fraction), Bit(s.remainder + fraction >= c);
            var r := BurnedSplit(c, s, from, whole, fraction).value;
            && At(r.integer, a) == At(s.integer, a) +
                 (if a == from then -whole - borrow else if a == RESERVE then borrow - overflow else 0)
            && r.fractional == Put(s.fractional, from, SubFraction(c, f, fraction))
            && r.remainder == AddFraction(c, s.remainder, fraction)
            && Storable(c, SubFraction(c, f, fraction)) && Storable(c, r.remainder)
  {
  }

  lemma BurnedWhen(c: int, s: State, from: Address, whole: int, fraction: int)
    requires Splits(c, whole, fraction) && Backed(c, s) && from != RESERVE
    ensures !BurnedSplit(c, s, from, whole, fraction).Panics?
    ensures BurnedSplit(c, s, from, whole, fraction).Ok? <==>
            At(s.integer, from) >= whole + Bit(At(s.fractional, from) < fraction)
    ensures At(s.fractional, from) >= fraction && s.remainder + fraction >= c ==> At(s.integer, RESERVE) >= 1
  {
    SumAtLeast(s.fractional, from, RESERVE);
    if Total(s.fractional) + s.remainder >= c {
      ReserveHolds(c, At(s.integer, RESERVE), Total(s.fractional) + s.remainder);
    }
  }

  lemma BurnedBalance(c: int, s: State, from: Address, whole: int, fraction: int, a: Address)
    requires Splits(c, whole, fraction) && from != RESERVE && a != RESERVE
    requires BurnedSplit(c, s, from, whole, fraction).Ok?
    ensures Balance(c, BurnedSplit(c, s, from, whole, fraction).value, a) ==
            Balance(c, s, a) - if a == from then whole * c + fraction else 0
  {
    BurnedParts(c, s, from, whole, fraction, a);
    PutAt(s.fractional, from, SubFraction(c, At(s.fractional, from), fraction), a);
    Subtracted(c, At(s.integer, from), At(s.fractional, from), whole, fraction);
  }

  lemma BurnedNonNegative(c: int, s: State, from: Address, whole: int, fraction: int)
    requires Splits(c, whole, fraction) && Backed(c, s) && from != RESERVE
    requires BurnedSplit(c, s, from, whole, fraction).Ok?
    ensures NonNegative(BurnedSplit(c, s, from, whole, fraction).value.integer)
  {
    var r := BurnedSplit(c, s, from, whole, fraction).value;
    BurnedWhen(c, s, from, whole, fraction);
    forall a
      ensures At(r.integer, a) >= 0
    {
      BurnedParts(c, s, from, whole, fraction, a);
    }
    AllNonNegative(r.integer);
  }

  lemma BurnedBacked(c: int, s: State, from: Address, whole: int, fraction: int)
    requires Splits(c, whole, fraction) && Backed(c, s) && from != RESERVE
    requires BurnedSplit(c, s, from, whole, fraction).Ok?
    ensures Backed(c, BurnedSplit(c, s, from, whole, fraction).value)
  {
    var r := BurnedSplit(c, s, from, whole, fraction).value;
    var f := At(s.fractional, from);
    BurnedNonNegative(c, s, from, whole, fraction);
    BurnedParts(c, s, from, whole, fraction, RESERVE);
    PutStorable(c, s.fractional, from, SubFraction(c, f, fraction));
    PutTotal(s.fractional, from, SubFraction(c, f, fraction));
    StillBacked(c, s, r, Bit(f < fraction) - Bit(s.remainder + fraction >= c));
  }

  // ---------------------------------------------------------------------------------------
  // Refinement of plain balances
  // ---------------------------------------------------------------------------------------

  datatype Op =
    | Send(from: Address, to: Address, amount: int)
    | Mint(to: Address, amount: int)
    | Burn(from: Address, amount: int)

  /** Amounts are positive; the reserve account neither sends, receives, mints nor burns from outside. */
  predicate Proper(op: Op) {
    match op
    case Send(from, to, amount) => amount > 0 && from != RESERVE && to != RESERVE
    case Mint(to, amount) => amount > 0 && to != RESERVE
    case Burn(from, amount) => amount > 0 && from != RESERVE
  }

  function Applied(c: int, s: State, op: Op): Outcome<State>
    requires c > 0
  {
    match op
    case Send(from, to, amount) => Sent(c, s, from, to, amount)
    case Mint(to, amount) => Minted(c, s, to, amount)
    case Burn(from, amount) => Burned(c, s, from, amount)
  }

  /** A failed operation is reverted. */
  function Step(c: int, s: State, op: Op): State
    requires c > 0
  {
    var r := Applied(c, s, op);
    if r.Ok? then r.value else s
  }

  function After(c: int, s: State, run: seq<Op>): State
    requires c > 0
    decreases |run|
  {
    if run == [] then s else After(c, Step(c, s, run[0]), run[1..])
  }

  /** The same operations on plain balances of the extended coin. */
  function PlainStep(balances: map<Address, int>, op: Op): map<Address, int> {
    match op
    case Send(from, to, amount) =>
      if from == to || At(balances, from) < amount then balances else Move(balances, from, to, amount)
    case Mint(to, amount) => Give(balances, to, amount)
    case Burn(from, amount) => if At(balances, from) < amount then balances else Give(balances, from, -amount)
  }

  function PlainAfter(balances: map<Address, int>, run: seq<Op>): map<Address, int>
    decreases |run|
  {
    if run == [] then balances else PlainAfter(PlainStep(balances, run[0]), run[1..])
  }

  /** Every account has the given balance; that of the reserve counts as nothing. */
  ghost predicate Represents(c: int, s: State, balances: map<Address, int>) {
    forall a :: At(balances, a) == if a == RESERVE then 0 else Balance(c, s, a)
  }

  /** No operation panics, and each has the effect of the same operation on plain balances. */
  lemma StepRefines(c: int, s: State, balances: map<Address, int>, op: Op)
    requires Backed(c, s) && Represents(c, s, balances) && Proper(op)
    ensures !Applied(c, s, op).Panics?
    ensures Backed(c, Step(c, s, op)) && Represents(c, Step(c, s, op), PlainStep(balances, op))
  {
    SplitAmount(c, op.amount);
    var whole, fraction := op.amount / c, op.amount % c;
    match op
    case Send(from, to, amount) => SendRefines(c, s, balances, from, to, amount);
    case Mint(to, amount) =>
      MintedWhen(c, s, to, whole, fraction);
      MintedBacked(c, s, to, whole, fraction);
      forall a
        ensures At(Give(balances, to, amount), a) == if a == RESERVE then 0 else Balance(c, Step(c, s, op), a)
      {
        assert At(balances, a) == if a == RESERVE then 0 else Balance(c, s, a);
        if a != RESERVE {
          MintedBalance(c, s, to, whole, fraction, a);
        }
      }
    case Burn(from, amount) => BurnRefines(c, s, balances, from, amount);
  }

  lemma SendRefines(c: int, s: State, balances: map<Address, int>, from: Address, to: Address, amount: int)
    requires Backed(c, s) && Represents(c, s, balances) && Proper(Send(from, to, amount))
    ensures var op := Send(from, to, amount);
            && !Applied(c, s, op).Panics?
            && Backed(c, Step(c, s, op)) && Represents(c, Step(c, s, op), PlainStep(balances, op))
  {
    var op := Send(from, to, amount);
    SentSucceeds(c, s, from, to, amount);
    assert At(balances, from) == Balance(c, s, from);
    if Sent(c, s, from, to, amount).Ok? {
      SplitAmount(c, amount);
      SentBacked(c, s, from, to, amount / c, amount % c);
      forall a
        ensures At(PlainStep(balances, op), a) == if a == RESERVE then 0 else Balance(c, Step(c, s, op), a)
      {
        assert At(balances, a) == if a == RESERVE then 0 else Balance(c, s, a);
        MoveAt(balances, from, to, amount, a);
        if a != RESERVE {
          SentBalance(c, s, from, to, amount, a);
        }
      }
    }
  }

  lemma BurnRefines(c: int, s: State, balances: map<Address, int>, from: Address, amount: int)
    requires Backed(c, s) && Represents(c, s, balances) && Proper(Burn(from, amount))
    ensures var op := Burn(from, amount);
            && !Applied(c, s, op).Panics?
            && Backed(c, Step(c, s, op)) && Represents(c, Step(c, s, op), PlainStep(balances, op))
  {
    var op := Burn(from, amount);
    var whole, fraction := amount / c, amount % c;
    SplitAmount(c, amount);
    BurnedWhen(c, s, from, whole, fraction);
    Enough(c, At(s.integer, from), At(s.fractional, from), whole, fraction);
    assert At(balances, from) == Balance(c, s, from);
    if Burned(c, s, from, amount).Ok? {
      BurnedBacked(c, s, from, whole, fraction);
      forall a
        ensures At(PlainStep(balances, op), a) == if a == RESERVE then 0 else Balance(c, Step(c, s, op), a)
      {
        assert At(balances, a) == if a == RESERVE then 0 else Balance(c, s, a);
        if a != RESERVE {
          BurnedBalance(c, s, from, whole, fraction, a);
        }
      }
    }
  }

  /** Along every run the reserve stays exact and the balances are those of the plain ledger. */
  lemma {:induction false} RunRefines(c: int, s: State, balances: map<Address, int>, run: seq<Op>)
    requires Backed(c, s) && Represents(c, s, balances) && forall i | 0 <= i < |run| :: Proper(run[i])
    ensures Backed(c, After(c, s, run)) && Represents(c, After(c, s, run), PlainAfter(balances, run))
    decreases |run|
  {
    if run != [] {
      StepRefines(c, s, balances, run[0]);
      RunRefines(c, Step(c, s, run[0]), PlainStep(balances, run[0]), run[1..]);
    }
  }

  // ---------------------------------------------------------------------------------------
  // Supply
  // ---------------------------------------------------------------------------------------

  /** Keys without a value add nothing. */
  lemma {:induction false} SumWider(m: map<string, int>, keys: set<string>)
    requires m.Keys <= keys
    ensures SumOver(m, keys) == Total(m)
    decreases |keys - m.Keys|
  {
    if keys != m.Keys {
      var k :| k in keys && k !in m;
      SumSplit(m, keys, k);
      assert (keys - {k}) - m.Keys == (keys - m.Keys) - {k};
      SumWider(m, keys - {k});
    }
  }

  lemma {:induction false} SumBalances(c: int, s: State, balances: map<Address, int>, keys: set<Address>)
    requires Represents(c, s, balances) && RESERVE !in keys
    ensures SumOver(balances, keys) == SumOver(s.integer, keys) * c + SumOver(s.fractional, keys)
  {
    if keys != {} {
      var k := Pick(keys);
      SumBalances(c, s, balances, keys - {k});
      assert At(balances, k) == Balance(c, s, k);
      Times(c, At(s.integer, k), SumOver(s.integer, keys - {k}));
    }
  }

  /**
   * The supply of the extended coin is that of the whole coin, converted, less the remainder: every
   * unit in circulation is backed, and less than one whole coin is not in circulation.
   */
  lemma SupplyLaw(c: int, s: State, balances: map<Address, int>)
    requires Backed(c, s) && Represents(c, s, balances)
    ensures Total(balances) == Total(s.integer) * c - s.remainder
    ensures 0 <= Total(s.integer) * c - Total(balances) < c
  {
    var keys := balances.Keys + s.integer.Keys + s.fractional.Keys + {RESERVE};
    var others := keys - {RESERVE};
    SumWider(balances, keys);
    SumWider(s.integer, keys);
    SumWider(s.fractional, keys);
    SumSplit(balances, keys, RESERVE);
    SumSplit(s.integer, keys, RESERVE);
    SumSplit(s.fractional, keys, RESERVE);
    assert At(balances, RESERVE) == 0;
    SumBalances(c, s, balances, others);
    Times(c, At(s.integer, RESERVE), SumOver(s.integer, others));
  }
}
