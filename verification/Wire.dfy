/**
 Base-128 varints of the Protocol Buffers wire format, as the generated codecs read and write
 them.

 Shifts and masks are written as arithmetic. `x & 0x7f` is `x % 128`, `x >> 7` is `x / 128`,
 and `acc |= d << shift` is `Truncate(acc + d * Pow2(shift), width)`, because the bits of `acc`
 at or above `shift` are still zero when the statement runs.
 */
module Wire {
  type byte = x: int | 0 <= x < 256

  const TWO_63: nat := 0x8000_0000_0000_0000

  type int32 = x: int | -0x8000_0000 <= x < 0x8000_0000
  type uint32 = x: int | 0 <= x < 0x1_0000_0000
  type int64 = x: int | -0x8000_0000_0000_0000 <= x < 0x8000_0000_0000_0000
  type uint64 = x: int | 0 <= x < 0x1_0000_0000_0000_0000

  /** Conversion to a 32-bit unsigned integer: the low 32 bits of `x`. */
  function Low32(x: int): uint32 {
    x % 0x1_0000_0000
  }

  /** Conversion to a 64-bit unsigned integer: the low 64 bits of `x`, sign-extended if negative. */
  function Low64(x: int): uint64 {
    x % 0x1_0000_0000_0000_0000
  }

  /** Two's complement reading of the low 32 bits of `x`. */
  function Signed32(x: int): int32 {
    if Low32(x) < 0x8000_0000 then Low32(x) else Low32(x) - 0x1_0000_0000
  }

  /** Two's complement reading of the low 64 bits of `x`. */
  function Signed64(x: int): int64 {
    if Low64(x) < 0x8000_0000_0000_0000 then Low64(x) else Low64(x) - 0x1_0000_0000_0000_0000
  }

  function Pow2(n: nat): (p: nat)
    ensures p > 0
  {
    if n == 0 then 1 else 2 * Pow2(n - 1)
  }

  lemma Pow2Add7(n: nat)
    ensures Pow2(n + 7) == 128 * Pow2(n)
  {
    assert Pow2(n + 7) == 2 * Pow2(n + 6);
    assert Pow2(n + 6) == 2 * Pow2(n + 5);
    assert Pow2(n + 5) == 2 * Pow2(n + 4);
    assert Pow2(n + 4) == 2 * Pow2(n + 3);
    assert Pow2(n + 3) == 2 * Pow2(n + 2);
    assert Pow2(n + 2) == 2 * Pow2(n + 1);
  }

  lemma Pow2Of70()
    ensures Pow2(70) > 0x1_0000_0000_0000_0000
  {
    Pow2Add7(0);
    Pow2Add7(7);
    Pow2Add7(14);
    Pow2Add7(21);
    Pow2Add7(28);
    Pow2Add7(35);
    Pow2Add7(42);
    Pow2Add7(49);
    Pow2Add7(56);
    Pow2Add7(63);
  }

  // ---------------------------------------------------------------------------------------
  // Base 128 varints
  // ---------------------------------------------------------------------------------------

  datatype Error =
    | NoError
    | IntOverflow
    | UnexpectedEOF
    | InvalidLength
    | UnexpectedEndOfGroup
    | EndGroup
    | IllegalTag
    | WrongWireType
    | IllegalWireType

  /** The number that the payload bits of `s[i..j]` spell, least significant group first. */
  function Leb(s: seq<byte>, i: nat, j: nat): nat
    requires i <= j <= |s|
    decreases j - i
  {
    if i == j then 0 else s[i] % 128 + 128 * Leb(s, i + 1, j)
  }

  lemma {:induction false} LebAppend(s: seq<byte>, i: nat, j: nat)
    requires i <= j < |s|
    ensures Leb(s, i, j + 1) == Leb(s, i, j) + s[j] % 128 * Pow2(7 * (j - i))
    decreases j - i
  {
    if i < j {
      LebAppend(s, i + 1, j);
      Pow2Add7(7 * (j - i - 1));
      ScaleDigit(s[j] % 128, Pow2(7 * (j - i - 1)));
    }
  }

  lemma {:induction false} LebSame(s: seq<byte>, i: nat, t: seq<byte>, k: nat)
    requires k <= |t| && At(s, i, t)
    ensures Leb(s, i + k, i + |t|) == Leb(t, k, |t|)
    decreases |t| - k
  {
    if k < |t| {
      assert s[i + k] == t[k];
      LebSame(s, i, t, k + 1);
    }
  }

  /** `s` holds `part` at index `i`. */
  predicate At(s: seq<byte>, i: nat, part: seq<byte>) {
    i + |part| <= |s| && forall k | 0 <= k < |part| :: s[i + k] == part[k]
  }

  lemma ScaleDigit(d: nat, p: nat)
    ensures 128 * (d * p) == d * (128 * p)
  {
  }

  /** A maximal varint: continuation bytes, then one final byte, ten bytes at most. */
  predicate IsVarint(s: seq<byte>) {
    && 1 <= |s| <= 10
    && s[|s| - 1] < 128
    && forall i | 0 <= i < |s| - 1 :: s[i] >= 128
  }

  /** Where a loop over the input stops, and why. */
  datatype Scan = Scan(end: nat, err: Error)

  /** Outcome of the varint loop over `s` from `i`, once `k` continuation bytes are consumed. */
  function ScanFrom(s: seq<byte>, i: nat, k: nat): (r: Scan)
    requires k <= 10 && i + k <= |s|
    ensures i + k <= r.end <= |s|
    ensures r.err == NoError ==> i < r.end
    decreases 10 - k
  {
    if k >= 10 then Scan(i + k, IntOverflow)
    else if i + k >= |s| then Scan(i + k, UnexpectedEOF)
    else if s[i + k] < 128 then Scan(i + k + 1, NoError)
    else ScanFrom(s, i, k + 1)
  }

  function ScanVarint(s: seq<byte>, i: nat): Scan
    requires i <= |s|
  {
    ScanFrom(s, i, 0)
  }

  /** Ten continuation bytes overflow, fewer without an end are cut short, and the rest is a varint. */
  lemma {:induction false} ScanFromCases(s: seq<byte>, i: nat, k: nat)
    requires k <= 10 && i + k <= |s|
    requires forall x | i <= x < i + k :: s[x] >= 128
    ensures match ScanFrom(s, i, k)
            case Scan(j, NoError) => IsVarint(s[i..j])
            case Scan(j, IntOverflow) => j == i + 10 && forall x | i <= x < j :: s[x] >= 128
            case Scan(j, UnexpectedEOF) => j == |s| < i + 10 && forall x | i <= x < j :: s[x] >= 128
            case _ => false
    decreases 10 - k
  {
    if k < 10 && i + k < |s| && s[i + k] >= 128 {
      ScanFromCases(s, i, k + 1);
    }
  }

  lemma ScanIsVarint(s: seq<byte>, i: nat)
    requires i <= |s| && ScanVarint(s, i).err == NoError
    ensures IsVarint(s[i..ScanVarint(s, i).end])
  {
    ScanFromCases(s, i, 0);
  }

  lemma {:induction false} ScanFromFinds(s: seq<byte>, i: nat, v: seq<byte>, k: nat)
    requires IsVarint(v) && At(s, i, v) && k < |v|
    ensures ScanFrom(s, i, k) == Scan(i + |v|, NoError)
    decreases |v| - k
  {
    assert s[i + k] == v[k];
    if k < |v| - 1 {
      ScanFromFinds(s, i, v, k + 1);
    }
  }

  /** A varint loop reads exactly the varint in front of it, whatever follows. */
  lemma ScanFinds(s: seq<byte>, i: nat, v: seq<byte>)
    requires IsVarint(v) && At(s, i, v)
    ensures ScanVarint(s, i) == Scan(i + |v|, NoError)
    ensures Leb(s, i, i + |v|) == Leb(v, 0, |v|)
  {
    ScanFromFinds(s, i, v, 0);
    LebSame(s, i, v, 0);
  }

  /** The value kept by a variable of the given width. */
  function Truncate(x: nat, bits: nat): nat {
    if bits == 32 then Low32(x) else Low64(x)
  }

  /**
   The varint loop that the generated code repeats for tags, fields and lengths, accumulating
   into a variable of 32 or 64 bits.
   */
  method ReadVarint(dAtA: seq<byte>, start: nat, bits: nat) returns (value: nat, iNdEx: nat, err: Error)
    requires start <= |dAtA|
    requires bits == 32 || bits == 64
    ensures start <= iNdEx <= |dAtA|
    ensures Scan(iNdEx, err) == ScanVarint(dAtA, start)
    ensures value == Truncate(Leb(dAtA, start, iNdEx), bits)
  {
    value, iNdEx := 0, start;
    var shift := 0;
    while true
      invariant start <= iNdEx <= |dAtA| && iNdEx - start <= 10
      invariant shift == 7 * (iNdEx - start)
      invariant ScanFrom(dAtA, start, iNdEx - start) == ScanVarint(dAtA, start)
      invariant value == Truncate(Leb(dAtA, start, iNdEx), bits)
      decreases 70 - shift
    {
      if shift >= 64 {
        return value, iNdEx, IntOverflow;
      }
      if iNdEx >= |dAtA| {
        return value, iNdEx, UnexpectedEOF;
      }
      var b := dAtA[iNdEx];
      value := Truncate(value + b % 128 * Pow2(shift), bits);
      AccumulateStep(dAtA, start, iNdEx, bits);
      iNdEx := iNdEx + 1;
      if b < 128 {
        return value, iNdEx, NoError;
      }
      shift := shift + 7;
    }
  }

  lemma AccumulateStep(s: seq<byte>, i: nat, j: nat, bits: nat)
    requires i <= j < |s|
    ensures Truncate(Truncate(Leb(s, i, j), bits) + s[j] % 128 * Pow2(7 * (j - i)), bits)
         == Truncate(Leb(s, i, j + 1), bits)
  {
    LebAppend(s, i, j);
    TruncateAdd(Leb(s, i, j), s[j] % 128 * Pow2(7 * (j - i)), bits);
  }

  lemma TruncateAdd(a: nat, c: nat, bits: nat)
    ensures Truncate(Truncate(a, bits) + c, bits) == Truncate(a + c, bits)
  {
  }

  // ---------------------------------------------------------------------------------------
  // Writing varints
  // ---------------------------------------------------------------------------------------

  function EncodeVarint(v: nat): (bs: seq<byte>)
    ensures |bs| > 0
  {
    if v < 128 then [v] else [v % 128 + 128] + EncodeVarint(v / 128)
  }

  lemma {:induction false} EncodeVarintSpells(v: nat)
    ensures Leb(EncodeVarint(v), 0, |EncodeVarint(v)|) == v
  {
    if v >= 128 {
      var rest := EncodeVarint(v / 128);
      EncodeVarintSpells(v / 128);
      assert At(EncodeVarint(v), 1, rest);
      LebSame(EncodeVarint(v), 1, rest, 0);
    }
  }

  lemma {:induction false} EncodeVarintLength(v: nat, k: nat)
    requires 0 < k && v < Pow2(7 * k)
    ensures |EncodeVarint(v)| <= k
  {
    if v >= 128 {
      Pow2Add7(7 * (k - 1));
      EncodeVarintLength(v / 128, k - 1);
    }
  }

  lemma {:induction false} EncodeVarintShape(v: nat)
    ensures var bs := EncodeVarint(v);
            bs[|bs| - 1] < 128 && forall i | 0 <= i < |bs| - 1 :: bs[i] >= 128
  {
    if v >= 128 {
      EncodeVarintShape(v / 128);
    }
  }

  /** Every 64-bit value is written as a varint that spells it. */
  lemma EncodeVarintCorrect(v: uint64)
    ensures IsVarint(EncodeVarint(v))
    ensures Leb(EncodeVarint(v), 0, |EncodeVarint(v)|) == v
  {
    Pow2Of70();
    EncodeVarintLength(v, 10);
    EncodeVarintShape(v);
    EncodeVarintSpells(v);
  }

  /** `bits.Len64` */
  function BitLen(x: nat): nat {
    if x == 0 then 0 else 1 + BitLen(x / 2)
  }

  /** `sov`: bytes needed for `x`, computed from the bit length of `x|1`. */
  function Sov(x: nat): nat {
    (BitLen(if x % 2 == 0 then x + 1 else x) + 6) / 7
  }

  lemma BitLenShift7(x: nat)
    requires x >= 128
    ensures BitLen(x) == 7 + BitLen(x / 128)
  {
    var x1, x2, x3, x4, x5, x6, x7 := x / 2, x / 4, x / 8, x / 16, x / 32, x / 64, x / 128;
    assert x1 / 2 == x2 && x2 / 2 == x3 && x3 / 2 == x4 && x4 / 2 == x5 && x5 / 2 == x6 && x6 / 2 == x7;
    assert BitLen(x) == 1 + BitLen(x1) == 2 + BitLen(x2) == 3 + BitLen(x3);
    assert BitLen(x3) == 1 + BitLen(x4) == 2 + BitLen(x5) == 3 + BitLen(x6);
    assert BitLen(x6) == 1 + BitLen(x7);
  }

  lemma BitLenOrOne(x: nat)
    requires x > 0
    ensures BitLen(if x % 2 == 0 then x + 1 else x) == BitLen(x)
  {
    assert (x + 1) / 2 == x / 2 || x % 2 != 0;
  }

  lemma BitLenSmall(x: nat)
    requires 0 < x < 128
    ensures 1 <= BitLen(x) <= 7
  {
    var x1, x2, x3, x4, x5, x6 := x / 2, x / 4, x / 8, x / 16, x / 32, x / 64;
    assert x1 / 2 == x2 && x2 / 2 == x3 && x3 / 2 == x4 && x4 / 2 == x5 && x5 / 2 == x6 && x6 / 2 == 0;
    assert BitLen(x6) <= 1;
    assert BitLen(x5) <= 2;
    assert BitLen(x4) <= 3;
    assert BitLen(x3) <= 4;
    assert BitLen(x2) <= 5;
    assert BitLen(x1) <= 6;
  }

  /** The size computed from the bit length is the size that is written. */
  lemma {:induction false} SovIsLength(v: nat)
    ensures Sov(v) == |EncodeVarint(v)|
  {
    if v < 128 {
      BitLenSmall(if v % 2 == 0 then v + 1 else v);
    } else {
      SovIsLength(v / 128);
      BitLenOrOne(v);
      BitLenOrOne(v / 128);
      BitLenShift7(v);
    }
  }

  /** `encodeVarint*`: writes `v` so that it ends just before `offset`. */
  method WriteVarint(dAtA: array<byte>, offset: nat, v: nat) returns (base: nat)
    requires Sov(v) <= offset <= dAtA.Length
    modifies dAtA
    ensures base == offset - Sov(v)
    ensures dAtA[..] == old(dAtA[..base]) + EncodeVarint(v) + old(dAtA[offset..])
  {
    SovIsLength(v);
    base := offset - Sov(v);
    var at, rest := base, v;
    ghost var bs := EncodeVarint(v);
    while rest >= 128
      invariant base <= at < offset
      invariant EncodeVarint(rest) == bs[at - base..]
      invariant forall i | base <= i < at :: dAtA[i] == bs[i - base]
      invariant forall i | 0 <= i < dAtA.Length && !(base <= i < at) :: dAtA[i] == old(dAtA[i])
      decreases rest
    {
      EncodeVarintStep(rest, bs, at - base);
      dAtA[at] := rest % 128 + 128;
      rest := rest / 128;
      at := at + 1;
    }
    dAtA[at] := rest;
  }

  /** A varint with its tag byte in front, as every field of the marshallers is written. */
  method WriteTagged(dAtA: array<byte>, offset: nat, tag: byte, v: nat) returns (base: nat)
    requires |EncodeVarint(v)| < offset <= dAtA.Length
    modifies dAtA
    ensures base == offset - |[tag] + EncodeVarint(v)|
    ensures dAtA[..] == old(dAtA[..base]) + ([tag] + EncodeVarint(v)) + old(dAtA[offset..])
  {
    SovIsLength(v);
    var at := WriteVarint(dAtA, offset, v);
    ghost var s := dAtA[..];
    base := at - 1;
    dAtA[base] := tag;
    assert dAtA[..] == s[base := tag];
    PutTag(old(dAtA[..at]), EncodeVarint(v) + old(dAtA[offset..]), tag);
  }

  lemma PutTag(front: seq<byte>, back: seq<byte>, tag: byte)
    requires front != []
    ensures (front + back)[|front| - 1 := tag] == front[..|front| - 1] + ([tag] + back)
  {
  }

  lemma EncodeVarintStep(rest: nat, bs: seq<byte>, k: nat)
    requires rest >= 128 && k < |bs| && EncodeVarint(rest) == bs[k..]
    ensures k + 1 < |bs| && bs[k] == rest % 128 + 128 && EncodeVarint(rest / 128) == bs[k + 1..]
  {
    assert bs[k..][1..] == bs[k + 1..];
    assert EncodeVarint(rest)[1..] == EncodeVarint(rest / 128);
  }
}
