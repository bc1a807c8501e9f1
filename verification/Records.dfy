/**
 Records the decoder does not know. `Skip` is the generated skipper, a loop with a group
 depth counter; `Record` is a grammar of trees. `SkipExact`, at the end, says that the loop
 accepts exactly the prefixes that are trees. The grammar is that of the encoding guide without
 its rules for field numbers, which the skipper does not look at; module `Groups` adds them.
 */
module Records {
  import opened Wire

  // ---------------------------------------------------------------------------------------
  // One turn of the skip loop
  // ---------------------------------------------------------------------------------------

  /** A tag and its payload, ending before `end`. */
  datatype Item = Item(wireType: nat, end: nat, err: Error)

  /** The low three bits of a tag's value are those of its first byte. */
  lemma WireTypeIsLowBits(s: seq<byte>, i: nat, j: nat)
    requires i < j <= |s|
    ensures Low64(Leb(s, i, j)) % 8 == s[i] % 8
  {
    LowBits(s[i], Leb(s, i + 1, j));
  }

  lemma LowBits(b: byte, rest: nat)
    ensures Low64(b % 128 + 128 * rest) % 8 == b % 8
  {
    LowestBits(b % 128 + 128 * rest);
    assert (b % 128 + 128 * rest) % 8 == b % 8;
  }

  lemma LowestBits(x: nat)
    ensures Low64(x) % 8 == x % 8
  {
  }

  /** The payload of a wire type: where it ends, if it starts at `i`. */
  function ScanPayload(wireType: nat, s: seq<byte>, i: nat): (r: Scan)
    requires i <= |s|
    ensures r.err == NoError ==> i <= r.end < |s| + TWO_63 && wireType < 6
  {
    match wireType
    case 0 => ScanVarint(s, i)
    case 1 => Scan(i + 8, NoError)
    case 2 =>
      var v := ScanVarint(s, i);
      if v.err != NoError then v
      else
        var length := Signed64(Leb(s, i, v.end));
        if length < 0 then Scan(0, InvalidLength) else Scan(v.end + length, NoError)
    case 3 => Scan(i, NoError)
    case 4 => Scan(i, NoError)
    case 5 => Scan(i + 4, NoError)
    case _ => Scan(0, IllegalWireType)
  }

  function ScanItem(s: seq<byte>, i: nat): (it: Item)
    ensures it.err == NoError ==> i < it.end < |s| + TWO_63
  {
    if i >= |s| then Item(0, 0, UnexpectedEOF)
    else
      var tag := ScanVarint(s, i);
      if tag.err != NoError then Item(0, 0, tag.err)
      else
        var payload := ScanPayload(s[i] % 8, s, tag.end);
        Item(s[i] % 8, payload.end, payload.err)
  }

  /** Its case for data with a length in front. */
  method SkipData(dAtA: seq<byte>, start: nat) returns (iNdEx: int, err: Error)
    requires start <= |dAtA| < TWO_63
    ensures var r := ScanPayload(2, dAtA, start);
            err == r.err && (err == NoError ==> iNdEx == Signed64(r.end))
  {
    var length;
    length, iNdEx, err := ReadVarint(dAtA, start, 64);
    if err == NoError {
      if Signed64(length) < 0 {
        err := InvalidLength;
      } else {
        iNdEx := Signed64(iNdEx + length);
      }
    }
  }

  /** The `switch wireType` of the skip loop, which advances over one payload. */
  method SkipPayload(dAtA: seq<byte>, wireType: nat, start: nat) returns (iNdEx: int, err: Error)
    requires start <= |dAtA| < TWO_63
    ensures var r := ScanPayload(wireType, dAtA, start);
            err == r.err && (err == NoError ==> iNdEx == Signed64(r.end))
  {
    iNdEx, err := start, NoError;
    match wireType {
      case 0 =>
        var value;
        value, iNdEx, err := ReadVarint(dAtA, start, 64);
      case 1 =>
        iNdEx := Signed64(start + 8);
      case 2 =>
        iNdEx, err := SkipData(dAtA, start);
      case 3 =>
      case 4 =>
      case 5 =>
        iNdEx := Signed64(start + 4);
      case _ =>
        err := IllegalWireType;
    }
  }

  // ---------------------------------------------------------------------------------------
  // The skip loop
  // ---------------------------------------------------------------------------------------

  /** One item for every index; a good one ends after the index it starts at. */
  ghost predicate AreTurns(turns: seq<Item>) {
    forall i: nat | i < |turns| && turns[i].err == NoError :: i < turns[i].end
  }

  ghost predicate TurnsOver(turns: seq<Item>, s: seq<byte>) {
    && AreTurns(turns)
    && |turns| == |s|
    && forall i: nat {:trigger ScanItem(s, i)} | i < |s| :: turns[i] == ScanItem(s, i)
  }

  /** What each turn of the loop reads, index by index. */
  ghost function Turns(s: seq<byte>): (turns: seq<Item>)
    ensures TurnsOver(turns, s)
  {
    assert TurnsOver(seq(|s|, (i: nat) => ScanItem(s, i)), s);
    var turns :| TurnsOver(turns, s);
    turns
  }

  /** What the loop returns from index `i` inside `depth` open groups. */
  ghost function SkipLoop(turns: seq<Item>, i: nat, depth: nat): Scan
    requires AreTurns(turns)
    decreases |turns| - i
  {
    if i >= |turns| then Scan(0, UnexpectedEOF)
    else
      var it := turns[i];
      if it.err != NoError then Scan(0, it.err)
      else if it.wireType == 4 && depth == 0 then Scan(0, UnexpectedEndOfGroup)
      else if it.end >= TWO_63 then Scan(0, InvalidLength)
      else
        var depth' := DepthAfter(it.wireType, depth);
        if depth' == 0 then Scan(it.end, NoError) else SkipLoop(turns, it.end, depth')
  }

  function DepthAfter(wireType: nat, depth: nat): nat
    requires wireType == 4 ==> depth > 0
  {
    if wireType == 3 then depth + 1 else if wireType == 4 then depth - 1 else depth
  }

  /** Outside all groups the loop returns; inside one it takes another turn. */
  ghost function EndTurn(turns: seq<Item>, i: nat, depth: nat): Scan
    requires AreTurns(turns)
  {
    if depth == 0 then Scan(i, NoError) else SkipLoop(turns, i, depth)
  }

  /** Where the record at the front of `s` ends. */
  ghost function SkipSpec(s: seq<byte>): Scan {
    SkipLoop(Turns(s), 0, 0)
  }

  /** The start of a turn: read the tag, then advance over its payload. */
  method SkipItem(dAtA: seq<byte>, start: nat, ghost turns: seq<Item>) returns (wireType: nat, iNdEx: int, err: Error)
    requires start < |dAtA| < TWO_63 && TurnsOver(turns, dAtA)
    ensures err == turns[start].err
    ensures err == NoError ==> wireType == turns[start].wireType && iNdEx == Signed64(turns[start].end)
    ensures err == NoError ==> turns[start].end < |dAtA| + TWO_63
  {
    assert turns[start] == ScanItem(dAtA, start);
    var wire, next, tagErr := ReadVarint(dAtA, start, 64);
    wireType, iNdEx, err := wire % 8, next, tagErr;
    if err == NoError {
      WireTypeIsLowBits(dAtA, start, next);
      iNdEx, err := SkipPayload(dAtA, wireType, next);
    }
  }

  /** `skipIndexer` and `skipWeb3`. Indices are 64-bit integers: a negative one is an overflow. */
  method Skip(dAtA: seq<byte>) returns (n: nat, err: Error)
    requires |dAtA| < TWO_63
    ensures Scan(n, err) == SkipSpec(dAtA)
  {
    var l := |dAtA|;
    var iNdEx: int := 0;
    var depth: nat := 0;
    ghost var turns := Turns(dAtA);
    while iNdEx < l
      invariant 0 <= iNdEx < TWO_63
      invariant SkipSpec(dAtA) == SkipLoop(turns, iNdEx, depth)
      decreases l - iNdEx
    {
      var wireType;
      wireType, iNdEx, err := SkipItem(dAtA, iNdEx, turns);
      if err != NoError {
        return 0, err;
      }
      if wireType == 3 {
        depth := depth + 1;
      } else if wireType == 4 {
        if depth == 0 {
          return 0, UnexpectedEndOfGroup;
        }
        depth := depth - 1;
      }
      if iNdEx < 0 {
        return 0, InvalidLength;
      }
      if depth == 0 {
        return iNdEx, NoError;
      }
    }
    return 0, UnexpectedEOF;
  }

  // ---------------------------------------------------------------------------------------
  // The grammar of records
  // ---------------------------------------------------------------------------------------

  /**
   A record as the encoding guide describes it, except that the end tag of a group need not carry
   the number of its start tag. Tags and lengths may be over-long varints.
   */
  datatype Record =
    | VarintRecord(tag: seq<byte>, value: seq<byte>)
    | Fixed64Record(tag: seq<byte>, data: seq<byte>)
    | BytesRecord(tag: seq<byte>, length: seq<byte>, data: seq<byte>)
    | GroupRecord(tag: seq<byte>, body: seq<Record>, endTag: seq<byte>)
    | Fixed32Record(tag: seq<byte>, data: seq<byte>)

  predicate IsTag(tag: seq<byte>, wireType: nat) {
    IsVarint(tag) && tag[0] % 8 == wireType
  }

  predicate WellFormed(r: Record) {
    match r
    case VarintRecord(tag, value) => IsTag(tag, 0) && IsVarint(value)
    case Fixed64Record(tag, data) => IsTag(tag, 1) && |data| == 8
    case BytesRecord(tag, length, data) =>
      IsTag(tag, 2) && IsVarint(length) && Signed64(Leb(length, 0, |length|)) == |data|
    case GroupRecord(tag, body, endTag) =>
      IsTag(tag, 3) && IsTag(endTag, 4) && forall x | x in body :: WellFormed(x)
    case Fixed32Record(tag, data) => IsTag(tag, 5) && |data| == 4
  }

  function Bytes(r: Record): seq<byte> {
    match r
    case VarintRecord(tag, value) => tag + value
    case Fixed64Record(tag, data) => tag + data
    case BytesRecord(tag, length, data) => tag + length + data
    case GroupRecord(tag, body, endTag) => tag + AllBytes(body) + endTag
    case Fixed32Record(tag, data) => tag + data
  }

  function AllBytes(rs: seq<Record>): seq<byte> {
    if rs == [] then [] else Bytes(rs[0]) + AllBytes(rs[1..])
  }

  // ---------------------------------------------------------------------------------------
  // What a turn reads
  // ---------------------------------------------------------------------------------------

  predicate IsPlain(r: Record) {
    !r.GroupRecord? && WellFormed(r)
  }

  lemma AtSplit(s: seq<byte>, i: nat, a: seq<byte>, b: seq<byte>)
    requires At(s, i, a + b)
    ensures At(s, i, a) && At(s, i + |a|, b)
  {
    forall k | 0 <= k < |a|
      ensures s[i + k] == a[k]
    {
      assert (a + b)[k] == a[k];
    }
    forall k | 0 <= k < |b|
      ensures s[i + |a| + k] == b[k]
    {
      assert (a + b)[|a| + k] == b[k];
    }
  }

  lemma ItemAt(s: seq<byte>, i: nat, tag: seq<byte>, wireType: nat)
    requires IsTag(tag, wireType) && At(s, i, tag)
    ensures ScanItem(s, i) == var p := ScanPayload(wireType, s, i + |tag|); Item(wireType, p.end, p.err)
  {
    ScanFinds(s, i, tag);
    assert s[i + 0] == tag[0];
  }

  lemma VarintItemAt(s: seq<byte>, i: nat, tag: seq<byte>, value: seq<byte>)
    requires IsTag(tag, 0) && IsVarint(value) && At(s, i, tag + value)
    ensures ScanItem(s, i) == Item(0, i + |tag + value|, NoError)
  {
    AtSplit(s, i, tag, value);
    ItemAt(s, i, tag, 0);
    ScanFinds(s, i + |tag|, value);
  }

  lemma BytesItemAt(s: seq<byte>, i: nat, tag: seq<byte>, length: seq<byte>, data: seq<byte>)
    requires IsTag(tag, 2) && IsVarint(length) && Signed64(Leb(length, 0, |length|)) == |data|
    requires At(s, i, tag + length + data)
    ensures ScanItem(s, i) == Item(2, i + |tag + length + data|, NoError)
  {
    AtSplit(s, i, tag + length, data);
    AtSplit(s, i, tag, length);
    ItemAt(s, i, tag, 2);
    BytesPayloadAt(s, i + |tag|, length, |data|);
  }

  lemma BytesPayloadAt(s: seq<byte>, i: nat, length: seq<byte>, n: nat)
    requires IsVarint(length) && Signed64(Leb(length, 0, |length|)) == n && At(s, i, length)
    ensures ScanPayload(2, s, i) == Scan(i + |length| + n, NoError)
  {
    ScanFinds(s, i, length);
  }

  lemma FixedItemAt(s: seq<byte>, i: nat, tag: seq<byte>, data: seq<byte>, wireType: nat)
    requires (wireType == 1 && |data| == 8) || (wireType == 5 && |data| == 4)
    requires IsTag(tag, wireType) && At(s, i, tag + data)
    ensures ScanItem(s, i) == Item(wireType, i + |tag + data|, NoError)
  {
    AtSplit(s, i, tag, data);
    ItemAt(s, i, tag, wireType);
  }

  lemma PlainItemAt(s: seq<byte>, i: nat, r: Record)
    requires IsPlain(r) && At(s, i, Bytes(r))
    ensures ScanItem(s, i).err == NoError && ScanItem(s, i).end == i + |Bytes(r)|
    ensures ScanItem(s, i).wireType !in {3, 4}
  {
    match r
    case VarintRecord(tag, value) =>
      VarintItemAt(s, i, tag, value);
    case Fixed64Record(tag, data) =>
      FixedItemAt(s, i, tag, data, 1);
    case BytesRecord(tag, length, data) =>
      BytesItemAt(s, i, tag, length, data);
    case Fixed32Record(tag, data) =>
      FixedItemAt(s, i, tag, data, 5);
  }

  // ---------------------------------------------------------------------------------------
  // A record in front is skipped exactly
  // ---------------------------------------------------------------------------------------

  lemma TagTurn(turns: seq<Item>, s: seq<byte>, i: nat, tag: seq<byte>, w: nat)
    requires TurnsOver(turns, s) && IsTag(tag, w) && w in {3, 4} && At(s, i, tag)
    ensures turns[i] == Item(w, i + |tag|, NoError)
  {
    ItemAt(s, i, tag, w);
  }

  lemma PlainTurn(turns: seq<Item>, s: seq<byte>, i: nat, r: Record)
    requires TurnsOver(turns, s) && IsPlain(r) && At(s, i, Bytes(r))
    ensures i < |s| && turns[i].err == NoError && turns[i].end == i + |Bytes(r)| && turns[i].wireType !in {3, 4}
  {
    PlainItemAt(s, i, r);
  }

  lemma {:induction false} SkipRecord(turns: seq<Item>, s: seq<byte>, i: nat, r: Record, depth: nat)
    requires TurnsOver(turns, s) && |s| < TWO_63
    requires WellFormed(r) && At(s, i, Bytes(r))
    ensures SkipLoop(turns, i, depth) == EndTurn(turns, i + |Bytes(r)|, depth)
    decreases r, 1
  {
    if r.GroupRecord? {
      AtSplit(s, i, r.tag + AllBytes(r.body), r.endTag);
      AtSplit(s, i, r.tag, AllBytes(r.body));
      TagTurn(turns, s, i, r.tag, 3);
      SkipRecords(turns, s, i + |r.tag|, r, r.body, depth + 1);
      TagTurn(turns, s, i + |r.tag| + |AllBytes(r.body)|, r.endTag, 4);
    } else {
      PlainTurn(turns, s, i, r);
    }
  }

  lemma {:induction false} SkipRecords(turns: seq<Item>, s: seq<byte>, i: nat, parent: Record, rs: seq<Record>, depth: nat)
    requires TurnsOver(turns, s) && |s| < TWO_63 && depth > 0
    requires forall x | x in rs :: WellFormed(x) && x < parent
    requires At(s, i, AllBytes(rs))
    ensures SkipLoop(turns, i, depth) == SkipLoop(turns, i + |AllBytes(rs)|, depth)
    decreases parent, 0, |rs|
  {
    if rs != [] {
      var r := rs[0];
      assert r in rs;
      AtSplit(s, i, Bytes(r), AllBytes(rs[1..]));
      SkipRecord(turns, s, i, r, depth);
      SkipRecords(turns, s, i + |Bytes(r)|, parent, rs[1..], depth);
    }
  }

  /** The skipper passes over a record in front of anything, and stops right behind it. */
  lemma SkipSound(r: Record, rest: seq<byte>)
    requires WellFormed(r) && |Bytes(r) + rest| < TWO_63
    ensures SkipSpec(Bytes(r) + rest) == Scan(|Bytes(r)|, NoError)
  {
    var s := Bytes(r) + rest;
    SkipRecord(Turns(s), s, 0, r, 0);
  }

  // ---------------------------------------------------------------------------------------
  // Whatever is skipped is a record
  // ---------------------------------------------------------------------------------------

  lemma TagOfItem(s: seq<byte>, i: nat) returns (t: nat)
    requires i < |s| && ScanItem(s, i).err == NoError
    ensures i < t <= |s| && IsTag(s[i..t], ScanItem(s, i).wireType)
    ensures ScanPayload(ScanItem(s, i).wireType, s, t) == Scan(ScanItem(s, i).end, NoError)
  {
    ScanIsVarint(s, i);
    t := ScanVarint(s, i).end;
  }

  lemma VarintItemIs(s: seq<byte>, i: nat, t: nat) returns (r: Record)
    requires i <= t <= |s| && IsTag(s[i..t], 0) && ScanVarint(s, t).err == NoError
    ensures IsPlain(r) && Bytes(r) == s[i..ScanVarint(s, t).end]
  {
    ScanIsVarint(s, t);
    r := VarintRecord(s[i..t], s[t..ScanVarint(s, t).end]);
  }

  lemma BytesItemIs(s: seq<byte>, i: nat, t: nat, v: nat, n: nat) returns (r: Record)
    requires i <= t <= v <= |s| && IsTag(s[i..t], 2) && IsVarint(s[t..v])
    requires Signed64(Leb(s, t, v)) == n && v + n <= |s|
    ensures IsPlain(r) && Bytes(r) == s[i..v + n]
  {
    LengthOfSlice(s, t, v);
    r := MakeBytes(s[i..t], s[t..v], s[v..v + n]);
    Slices(s, i, t, v, v + n);
  }

  lemma MakeBytes(tag: seq<byte>, length: seq<byte>, data: seq<byte>) returns (r: Record)
    requires IsTag(tag, 2) && IsVarint(length) && Signed64(Leb(length, 0, |length|)) == |data|
    ensures IsPlain(r) && Bytes(r) == tag + length + data
  {
    r := BytesRecord(tag, length, data);
  }

  lemma Slices(s: seq<byte>, i: nat, j: nat, k: nat, l: nat)
    requires i <= j <= k <= l <= |s|
    ensures s[i..j] + s[j..k] + s[k..l] == s[i..l]
  {
  }

  lemma LengthOfSlice(s: seq<byte>, t: nat, v: nat)
    requires t <= v <= |s|
    ensures Leb(s[t..v], 0, v - t) == Leb(s, t, v)
  {
    LebSame(s, t, s[t..v], 0);
  }

  lemma FixedItemIs(s: seq<byte>, i: nat, t: nat, w: nat) returns (r: Record)
    requires w == 1 || w == 5
    requires i <= t && t + (if w == 1 then 8 else 4) <= |s| && IsTag(s[i..t], w)
    ensures IsPlain(r) && Bytes(r) == s[i..t + (if w == 1 then 8 else 4)]
  {
    r := if w == 1 then Fixed64Record(s[i..t], s[t..t + 8]) else Fixed32Record(s[i..t], s[t..t + 4]);
  }

  /** A turn that stays within the input and is not a group boundary passes over a record. */
  lemma ItemIsRecord(s: seq<byte>, i: nat) returns (r: Record)
    requires i < |s| && ScanItem(s, i).err == NoError && ScanItem(s, i).end <= |s|
    requires ScanItem(s, i).wireType !in {3, 4}
    ensures IsPlain(r) && Bytes(r) == s[i..ScanItem(s, i).end]
  {
    var t := TagOfItem(s, i);
    r := PayloadIsRecord(s, i, t, ScanItem(s, i).wireType);
  }

  lemma PayloadIsRecord(s: seq<byte>, i: nat, t: nat, w: nat) returns (r: Record)
    requires i <= t <= |s| && IsTag(s[i..t], w) && w !in {3, 4}
    requires ScanPayload(w, s, t).err == NoError && ScanPayload(w, s, t).end <= |s|
    ensures IsPlain(r) && Bytes(r) == s[i..ScanPayload(w, s, t).end]
  {
    match w
    case 0 => r := VarintItemIs(s, i, t);
    case 2 =>
      var v := ScanVarint(s, t).end;
      ScanIsVarint(s, t);
      r := BytesItemIs(s, i, t, v, ScanPayload(2, s, t).end - v);
    case _ => r := FixedItemIs(s, i, t, w);
  }

  lemma AtJoin(s: seq<byte>, i: nat, j: nat, part: seq<byte>)
    requires i <= j <= |s| && At(s, j, part)
    ensures At(s, i, s[i..j] + part)
  {
    forall k | 0 <= k < |s[i..j] + part|
      ensures s[i + k] == (s[i..j] + part)[k]
    {
      if k >= j - i {
        assert s[j + (k - (j - i))] == part[k - (j - i)];
      }
    }
  }

  lemma {:induction false} TurnBounded(turns: seq<Item>, i: nat, depth: nat)
    requires AreTurns(turns)
    requires i < |turns| && SkipLoop(turns, i, depth).err == NoError
    ensures turns[i].end <= SkipLoop(turns, i, depth).end
    decreases |turns| - i
  {
    var it := turns[i];
    var d := DepthAfter(it.wireType, depth);
    if d > 0 {
      TurnBounded(turns, it.end, d);
    }
  }

  lemma TurnIsTag(turns: seq<Item>, s: seq<byte>, i: nat)
    requires TurnsOver(turns, s) && i < |s| && turns[i].err == NoError && turns[i].wireType in {3, 4}
    ensures turns[i].end <= |s| && IsTag(s[i..turns[i].end], turns[i].wireType)
  {
    assert turns[i] == ScanItem(s, i);
    var t := TagOfItem(s, i);
  }

  lemma TurnIsRecord(turns: seq<Item>, s: seq<byte>, i: nat) returns (r: Record)
    requires TurnsOver(turns, s) && i < |s| && turns[i].err == NoError && turns[i].wireType !in {3, 4}
    requires turns[i].end <= |s|
    ensures IsPlain(r) && Bytes(r) == s[i..turns[i].end]
  {
    assert turns[i] == ScanItem(s, i);
    r := ItemIsRecord(s, i);
  }

  /** A successful loop first passes over one record, unless it stands at the end of a group. */
  lemma {:induction false} FirstRecord(turns: seq<Item>, s: seq<byte>, i: nat, depth: nat) returns (r: Record, k: nat)
    requires TurnsOver(turns, s)
    requires i < |s| && SkipLoop(turns, i, depth).err == NoError && SkipLoop(turns, i, depth).end <= |s|
    requires turns[i].wireType != 4
    ensures WellFormed(r) && i < k <= |s| && Bytes(r) == s[i..k]
    ensures SkipLoop(turns, i, depth) == EndTurn(turns, k, depth)
    decreases |s| - i, 1
  {
    if turns[i].wireType == 3 {
      r, k := GroupFrom(turns, s, i, depth);
    } else {
      TurnBounded(turns, i, depth);
      r := TurnIsRecord(turns, s, i);
      k := turns[i].end;
    }
  }

  lemma {:induction false} GroupFrom(turns: seq<Item>, s: seq<byte>, i: nat, depth: nat) returns (r: Record, k: nat)
    requires TurnsOver(turns, s)
    requires i < |s| && SkipLoop(turns, i, depth).err == NoError && SkipLoop(turns, i, depth).end <= |s|
    requires turns[i].wireType == 3
    ensures WellFormed(r) && i < k <= |s| && Bytes(r) == s[i..k]
    ensures SkipLoop(turns, i, depth) == EndTurn(turns, k, depth)
    decreases |s| - i, 0
  {
    TurnIsTag(turns, s, i);
    var j := turns[i].end;
    var inner, innerEnd := GroupIsRecords(turns, s, j, depth + 1);
    r, k := GroupRecord(s[i..j], inner, innerEnd), j + |AllBytes(inner) + innerEnd|;
    AtJoin(s, i, j, AllBytes(inner) + innerEnd);
    assert Bytes(r) == s[i..j] + (AllBytes(inner) + innerEnd);
  }

  lemma AllBytesPush(r: Record, rs: seq<Record>)
    ensures AllBytes([r] + rs) == Bytes(r) + AllBytes(rs)
  {
    assert ([r] + rs)[1..] == rs;
  }

  lemma GroupPush(s: seq<byte>, i: nat, k: nat, r: Record, more: seq<Record>, endTag: seq<byte>)
    requires i <= k <= |s| && Bytes(r) == s[i..k] && At(s, k, AllBytes(more) + endTag)
    ensures At(s, i, AllBytes([r] + more) + endTag)
    ensures i + |AllBytes([r] + more) + endTag| == k + |AllBytes(more) + endTag|
  {
    AtJoin(s, i, k, AllBytes(more) + endTag);
    AllBytesPush(r, more);
    assert AllBytes([r] + more) + endTag == s[i..k] + (AllBytes(more) + endTag);
  }

  lemma GroupEnd(turns: seq<Item>, s: seq<byte>, i: nat, depth: nat) returns (endTag: seq<byte>)
    requires TurnsOver(turns, s) && depth > 0
    requires i < |s| && SkipLoop(turns, i, depth).err == NoError && SkipLoop(turns, i, depth).end <= |s|
    requires turns[i].wireType == 4
    ensures IsTag(endTag, 4) && At(s, i, endTag)
    ensures SkipLoop(turns, i, depth) == EndTurn(turns, i + |endTag|, depth - 1)
  {
    TurnIsTag(turns, s, i);
    endTag := s[i..turns[i].end];
  }

  /**
   Inside `depth` open groups, a successful loop first passes over the records left in the
   innermost group and its end tag, and then carries on one level further out.
   */
  lemma {:induction false} GroupIsRecords(turns: seq<Item>, s: seq<byte>, i: nat, depth: nat)
    returns (body: seq<Record>, endTag: seq<byte>)
    requires TurnsOver(turns, s) && depth > 0
    requires i < |s| && SkipLoop(turns, i, depth).err == NoError && SkipLoop(turns, i, depth).end <= |s|
    ensures forall x | x in body :: WellFormed(x)
    ensures IsTag(endTag, 4) && At(s, i, AllBytes(body) + endTag)
    ensures SkipLoop(turns, i, depth) == EndTurn(turns, i + |AllBytes(body) + endTag|, depth - 1)
    decreases |s| - i, 2
  {
    if turns[i].wireType == 4 {
      endTag := GroupEnd(turns, s, i, depth);
      body := [];
      assert AllBytes(body) + endTag == endTag;
    } else {
      var r, k := FirstRecord(turns, s, i, depth);
      var more;
      more, endTag := GroupIsRecords(turns, s, k, depth);
      body := [r] + more;
      GroupPush(s, i, k, r, more, endTag);
    }
  }

  /** The skipper accepts a prefix of its input exactly when that prefix is a record of the grammar. */
  lemma SkipExact(s: seq<byte>, n: nat)
    requires n <= |s| < TWO_63
    ensures SkipSpec(s) == Scan(n, NoError) <==> exists r :: WellFormed(r) && Bytes(r) == s[..n]
  {
    if SkipSpec(s) == Scan(n, NoError) {
      var r, k := FirstRecord(Turns(s), s, 0, 0);
      assert WellFormed(r) && Bytes(r) == s[..n];
    }
    forall r | WellFormed(r) && Bytes(r) == s[..n]
      ensures SkipSpec(s) == Scan(n, NoError)
    {
      SkipSound(r, s[n..]);
      assert Bytes(r) + s[n..] == s;
    }
  }

  /** A group that was never opened and the wire types 6 and 7 are refused by the tag. */
  lemma SkipBadTag(tag: seq<byte>, rest: seq<byte>)
    requires IsVarint(tag)
    ensures tag[0] % 8 == 4 ==> SkipSpec(tag + rest) == Scan(0, UnexpectedEndOfGroup)
    ensures tag[0] % 8 > 5 ==> SkipSpec(tag + rest) == Scan(0, IllegalWireType)
  {
    var s := tag + rest;
    ScanFinds(s, 0, tag);
    assert Turns(s)[0] == ScanItem(s, 0);
  }

  /** So are data whose length is negative or leads past any index. */
  lemma SkipBadLength(tag: seq<byte>, length: seq<byte>, rest: seq<byte>)
    requires IsTag(tag, 2) && IsVarint(length)
    ensures var v := Signed64(Leb(length, 0, |length|));
            v < 0 || |tag| + |length| + v >= TWO_63 ==> SkipSpec(tag + (length + rest)) == Scan(0, InvalidLength)
  {
    var s := tag + (length + rest);
    ScanFinds(s, 0, tag);
    assert At(s, |tag|, length);
    ScanFinds(s, |tag|, length);
    assert Turns(s)[0] == ScanItem(s, 0);
  }

  /** A group that is not closed runs into the end of the input. */
  lemma SkipOpenGroup(tag: seq<byte>, rs: seq<Record>)
    requires IsTag(tag, 3) && |tag + AllBytes(rs)| < TWO_63 && forall x | x in rs :: WellFormed(x)
    ensures SkipSpec(tag + AllBytes(rs)) == Scan(0, UnexpectedEOF)
  {
    var s := tag + AllBytes(rs);
    var turns, parent := Turns(s), GroupRecord(tag, rs, tag);
    TagTurn(turns, s, 0, tag, 3);
    SkipRecords(turns, s, |tag|, parent, rs, 1);
  }
}
