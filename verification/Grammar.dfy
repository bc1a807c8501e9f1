/**
 Which byte strings the field loop of a generated `Unmarshal` accepts, and what it reads from them:
 `ParseExactly` says that they are the sequences of records in which every field number is positive
 and every declared field has its declared wire type.
 */
module Grammar {
  import opened Options
  import opened Wire
  import opened Records
  import opened Fields

  /** The field number that a record carries, as a 32-bit integer. */
  function Number(r: Record): int32 {
    TagNumber(r.tag)
  }

  function TagNumber(tag: seq<byte>): int32 {
    Signed32(Low64(Leb(tag, 0, |tag|)) / 8)
  }

  predicate Acceptable(schema: Schema, r: Record) {
    && WellFormed(r)
    && Number(r) > 0
    && (Number(r) in schema ==> if schema[Number(r)] == 0 then r.VarintRecord? else r.BytesRecord?)
  }

  predicate AllAcceptable(schema: Schema, rs: seq<Record>) {
    forall r | r in rs :: Acceptable(schema, r)
  }

  /** The occurrence of a declared field that a record is. */
  function FieldOf(schema: Schema, r: Record): seq<Field> {
    if Number(r) !in schema then []
    else
      match r
      case VarintRecord(_, value) => [VarintField(Number(r), Leb(value, 0, |value|), true)]
      case BytesRecord(_, _, data) => [BytesField(Number(r), data)]
      case _ => []
  }

  function FieldsOf(schema: Schema, rs: seq<Record>): seq<Field> {
    if rs == [] then [] else FieldOf(schema, rs[0]) + FieldsOf(schema, rs[1..])
  }

  // ---------------------------------------------------------------------------------------
  // Tags
  // ---------------------------------------------------------------------------------------

  lemma LebSlice(s: seq<byte>, i: nat, e: nat)
    requires i <= e <= |s|
    ensures Leb(s, i, e) == Leb(s[i..e], 0, e - i)
  {
    LebSame(s, i, s[i..e], 0);
  }

  /** The tag in front of a turn, as a slice of the input. */
  lemma TagSlice(s: seq<byte>, i: nat, e: nat)
    requires i < |s| && ScanVarint(s, i) == Scan(e, NoError)
    ensures i < e <= |s|
    ensures IsTag(s[i..e], Low64(Leb(s, i, e)) % 8) && TagNumber(s[i..e]) == FieldNumber(Low64(Leb(s, i, e)))
  {
    ScanIsVarint(s, i);
    WireTypeIsLowBits(s, i, e);
    LebSlice(s, i, e);
  }

  /** What a turn does, given its tag. */
  lemma TaggedField(schema: Schema, s: seq<byte>, i: nat, tag: seq<byte>, num: int, w: nat)
    requires IsVarint(tag) && At(s, i, tag) && num == TagNumber(tag) && w == tag[0] % 8
    ensures ScanField(schema, s, i) == ScanTagged(schema, num, w, s, i, i + |tag|)
  {
    var e := i + |tag|;
    ScanFinds(s, i, tag);
    assert s[i..e] == tag;
    TagSlice(s, i, e);
    var wire := Low64(Leb(s, i, e));
    FieldTag(schema, s, i, e, wire, FieldNumber(wire), wire % 8);
  }

  // ---------------------------------------------------------------------------------------
  // Records are read
  // ---------------------------------------------------------------------------------------

  lemma ScanRecord(schema: Schema, r: Record)
    requires Acceptable(schema, r) && |Bytes(r)| < TWO_63
    ensures ScanField(schema, Bytes(r), 0) == Step(FieldOf(schema, r), |Bytes(r)|, NoError)
  {
    var s, num := Bytes(r), Number(r);
    if num !in schema {
      ScanWholeUnknown(schema, r);
    } else {
      match r
      case VarintRecord(tag, value) =>
        TaggedField(schema, s, 0, tag, num, 0);
        ScanVarintRecord(num, s, tag, value);
      case BytesRecord(tag, length, data) =>
        TaggedField(schema, s, 0, tag, num, 2);
        ScanBytesRecord(num, s, tag, length, data);
    }
  }

  lemma ScanVarintRecord(num: int, s: seq<byte>, tag: seq<byte>, value: seq<byte>)
    requires IsVarint(value) && s == tag + value
    ensures ScanVarintField(num, s, |tag|) == Step([VarintField(num, Leb(value, 0, |value|), true)], |s|, NoError)
  {
    assert At(s, |tag|, value);
    ScanFinds(s, |tag|, value);
  }

  lemma ScanBytesRecord(num: int, s: seq<byte>, tag: seq<byte>, length: seq<byte>, data: seq<byte>)
    requires IsVarint(length) && Signed64(Leb(length, 0, |length|)) == |data|
    requires s == tag + length + data && |s| < TWO_63
    ensures ScanBytesField(num, s, |tag|) == Step([BytesField(num, data)], |s|, NoError)
  {
    AtBehind(tag, length, data);
    ScanDelimited(num, s, |tag|, length, data);
  }

  lemma AtBehind(a: seq<byte>, b: seq<byte>, c: seq<byte>)
    ensures At(a + b + c, |a|, b + c)
  {
  }

  /** A sequence of acceptable records parses to the occurrences in it, in order. */
  lemma {:induction false} ParseRecords(schema: Schema, rs: seq<Record>)
    requires AllAcceptable(schema, rs) && |AllBytes(rs)| < TWO_63
    ensures Parse(schema, AllBytes(rs)) == Parsed(FieldsOf(schema, rs), NoError)
  {
    if rs == [] {
      ParseEmpty(schema);
    } else {
      var r := rs[0];
      assert r in rs;
      ScanRecord(schema, r);
      ParseSingle(schema, Bytes(r), FieldOf(schema, r));
      ParseRecords(schema, rs[1..]);
      ParseConcat(schema, Bytes(r), AllBytes(rs[1..]));
    }
  }

  // ---------------------------------------------------------------------------------------
  // Whatever is read is a record
  // ---------------------------------------------------------------------------------------

  lemma VarintTurn(schema: Schema, s: seq<byte>, i: nat, e: nat, num: int) returns (r: Record)
    requires i <= e <= |s| < TWO_63 && IsTag(s[i..e], 0) && TagNumber(s[i..e]) == num > 0
    requires num in schema && schema[num] == 0 && ScanVarintField(num, s, e).err == NoError
    ensures Acceptable(schema, r) && Bytes(r) == s[i..ScanVarintField(num, s, e).end]
  {
    var end := ScanVarint(s, e).end;
    ScanIsVarint(s, e);
    r := VarintRecord(s[i..e], s[e..end]);
    assert s[i..e] + s[e..end] == s[i..end];
  }

  /** The length in front of the data, as a slice of the input. */
  lemma LengthSlice(num: int, s: seq<byte>, e: nat) returns (k: nat, end: nat)
    requires e <= |s| && ScanBytesField(num, s, e).err == NoError
    ensures e <= k <= end <= |s| && end == ScanBytesField(num, s, e).end
    ensures IsVarint(s[e..k]) && Signed64(Leb(s[e..k], 0, k - e)) == end - k
  {
    k, end := ScanVarint(s, e).end, ScanBytesField(num, s, e).end;
    ScanIsVarint(s, e);
    LebSlice(s, e, k);
  }

  lemma BytesTurn(schema: Schema, s: seq<byte>, i: nat, e: nat, num: int) returns (r: Record)
    requires i <= e <= |s| < TWO_63 && IsTag(s[i..e], 2) && TagNumber(s[i..e]) == num > 0
    requires num in schema && schema[num] == 2 && ScanBytesField(num, s, e).err == NoError
    ensures Acceptable(schema, r) && Bytes(r) == s[i..ScanBytesField(num, s, e).end]
  {
    var k, end := LengthSlice(num, s, e);
    r := DelimitedRecord(schema, s[i..e], s[e..k], s[k..end]);
    ThreeSlices(s, i, e, k, end);
  }

  lemma DelimitedRecord(schema: Schema, tag: seq<byte>, length: seq<byte>, data: seq<byte>) returns (r: Record)
    requires IsTag(tag, 2) && TagNumber(tag) > 0 && (TagNumber(tag) in schema ==> schema[TagNumber(tag)] == 2)
    requires IsVarint(length) && Signed64(Leb(length, 0, |length|)) == |data|
    ensures Acceptable(schema, r) && Bytes(r) == tag + length + data
  {
    r := BytesRecord(tag, length, data);
  }

  lemma ThreeSlices(s: seq<byte>, i: nat, e: nat, k: nat, end: nat)
    requires i <= e <= k <= end <= |s|
    ensures s[i..e] + s[e..k] + s[k..end] == s[i..end]
  {
  }

  lemma UnknownTurn(schema: Schema, s: seq<byte>, i: nat, e: nat, num: int) returns (r: Record)
    requires i < |s| < TWO_63 && ScanVarint(s, i) == Scan(e, NoError) && e <= |s| && TagNumber(s[i..e]) == num > 0
    requires num !in schema && ScanUnknown(s, i).err == NoError
    ensures Acceptable(schema, r) && Bytes(r) == s[i..ScanUnknown(s, i).end]
  {
    var n := SkipSpec(s[i..]).end;
    SkipExact(s[i..], n);
    r :| WellFormed(r) && Bytes(r) == s[i..][..n];
    assert s[i..][..n] == s[i..i + n];
    RecordTag(s, i, e, r, n);
  }

  /** A record starts with its tag. */
  lemma RecordTag(s: seq<byte>, i: nat, e: nat, r: Record, n: nat)
    requires WellFormed(r) && i + n <= |s| && Bytes(r) == s[i..i + n] && ScanVarint(s, i) == Scan(e, NoError)
    ensures i <= e <= |s| && s[i..e] == r.tag
  {
    TagOfRecord(r);
    assert forall k | 0 <= k < |r.tag| :: s[i + k] == s[i..i + n][k] == r.tag[k];
    ScanFinds(s, i, r.tag);
  }

  lemma TagOfRecord(r: Record)
    requires WellFormed(r)
    ensures IsVarint(r.tag) && |r.tag| <= |Bytes(r)| && forall k | 0 <= k < |r.tag| :: Bytes(r)[k] == r.tag[k]
  {
  }

  lemma TurnIsRecord(schema: Schema, s: seq<byte>, i: nat) returns (r: Record)
    requires i < |s| < TWO_63 && ScanField(schema, s, i).err == NoError
    ensures Acceptable(schema, r) && Bytes(r) == s[i..ScanField(schema, s, i).end]
  {
    var e := ScanVarint(s, i).end;
    var wire := Low64(Leb(s, i, e));
    var num := FieldNumber(wire);
    FieldTag(schema, s, i, e, wire, num, wire % 8);
    TagSlice(s, i, e);
    if num !in schema {
      r := UnknownTurn(schema, s, i, e, num);
    } else if wire % 8 == 0 {
      r := VarintTurn(schema, s, i, e, num);
    } else {
      r := BytesTurn(schema, s, i, e, num);
    }
  }

  lemma {:induction false} ParsedIsRecords(schema: Schema, steps: seq<Step>, s: seq<byte>, i: nat) returns (rs: seq<Record>)
    requires StepsOver(steps, schema, s) && i <= |s| < TWO_63 && ParseFrom(steps, i).err == NoError
    ensures AllAcceptable(schema, rs) && AllBytes(rs) == s[i..]
    decreases |s| - i
  {
    if i == |s| {
      rs := [];
    } else {
      assert steps[i] == ScanField(schema, s, i);
      var r := TurnIsRecord(schema, s, i);
      var k := steps[i].end;
      var more := ParsedIsRecords(schema, steps, s, k);
      rs := [r] + more;
      assert s[i..k] + s[k..] == s[i..];
    }
  }

  /** The field loop accepts exactly the sequences of acceptable records. */
  lemma ParseExactly(schema: Schema, s: seq<byte>)
    requires |s| < TWO_63
    ensures Parse(schema, s).err == NoError <==> exists rs :: AllAcceptable(schema, rs) && AllBytes(rs) == s
  {
    if Parse(schema, s).err == NoError {
      var rs := ParsedIsRecords(schema, Steps(schema, s), s, 0);
      assert s[0..] == s;
    }
    if rs :| AllAcceptable(schema, rs) && AllBytes(rs) == s {
      ParseRecords(schema, rs);
    }
  }

  // ---------------------------------------------------------------------------------------
  // The last record of a field
  // ---------------------------------------------------------------------------------------

  /** The number in the last varint record of a field. */
  function LastVarint(rs: seq<Record>, num: int): Option<nat> {
    if rs == [] then None
    else
      var r := rs[|rs| - 1];
      if r.VarintRecord? && Number(r) == num then Some(Leb(r.value, 0, |r.value|))
      else LastVarint(rs[..|rs| - 1], num)
  }

  /** The data in the last length-delimited record of a field. */
  function LastBytes(rs: seq<Record>, num: int): Option<seq<byte>> {
    if rs == [] then None
    else
      var r := rs[|rs| - 1];
      if r.BytesRecord? && Number(r) == num then Some(r.data) else LastBytes(rs[..|rs| - 1], num)
  }

  lemma LastOfAppend(front: seq<Record>, r: Record, num: int)
    ensures LastVarint(front + [r], num) ==
            if r.VarintRecord? && Number(r) == num then Some(Leb(r.value, 0, |r.value|)) else LastVarint(front, num)
    ensures LastBytes(front + [r], num) ==
            if r.BytesRecord? && Number(r) == num then Some(r.data) else LastBytes(front, num)
  {
    assert (front + [r])[..|front|] == front;
  }

  lemma {:induction false} FieldsOfLast(schema: Schema, rs: seq<Record>, r: Record)
    ensures FieldsOf(schema, rs + [r]) == FieldsOf(schema, rs) + FieldOf(schema, r)
  {
    if rs == [] {
      assert (rs + [r])[1..] == [];
    } else {
      assert (rs + [r])[1..] == rs[1..] + [r];
      FieldsOfLast(schema, rs[1..], r);
    }
  }

  // ---------------------------------------------------------------------------------------
  // Records as they are written
  // ---------------------------------------------------------------------------------------

  /** A number in as few bytes as possible. */
  predicate Shortest(bs: seq<byte>) {
    |bs| == 1 || (|bs| > 1 && bs[|bs| - 1] != 0)
  }

  lemma {:induction false} EncodeVarintShortest(v: nat)
    ensures Shortest(EncodeVarint(v)) && (v > 0 ==> EncodeVarint(v)[|EncodeVarint(v)| - 1] != 0)
  {
    if v >= 128 {
      EncodeVarintShortest(v / 128);
    }
  }

  /** A varint or length-delimited record in its shortest form, which is not that of a zero or empty value. */
  predicate Canonical(r: Record) {
    match r
    case VarintRecord(tag, value) => |tag| == 1 && Shortest(value) && Leb(value, 0, |value|) != 0
    case BytesRecord(tag, length, data) => |tag| == 1 && Shortest(length) && data != []
    case _ => false
  }

  /** At most one record for each field, in the order of the field numbers. */
  predicate Ascending(rs: seq<Record>) {
    forall i, j | 0 <= i < j < |rs| :: Number(rs[i]) < Number(rs[j])
  }

  lemma OneByteNumber(k: nat, wireType: nat)
    requires k < 16 && wireType < 8
    ensures TagNumber([8 * k + wireType]) == k && IsTag([8 * k + wireType], wireType)
  {
    var tag := [8 * k + wireType];
    assert Leb(tag, 1, 1) == 0;
    assert Leb(tag, 0, 1) == tag[0];
    OneByteWire(tag[0], k, wireType);
  }

  lemma WrittenVarint(k: nat, v: uint64) returns (r: Record)
    requires k < 16 && v > 0
    ensures Bytes(r) == [8 * k] + EncodeVarint(v)
    ensures WellFormed(r) && r.VarintRecord? && Number(r) == k && Canonical(r) && Leb(r.value, 0, |r.value|) == v
  {
    r := VarintRecord([8 * k], EncodeVarint(v));
    OneByteNumber(k, 0);
    EncodeVarintCorrect(v);
    EncodeVarintShortest(v);
  }

  lemma WrittenBytes(k: nat, data: seq<byte>) returns (r: Record)
    requires k < 16 && 0 < |data| < TWO_63
    ensures Bytes(r) == BytesChunk(k, data)
    ensures WellFormed(r) && r.BytesRecord? && Number(r) == k && Canonical(r) && r.data == data
  {
    r := BytesRecord([8 * k + 2], EncodeVarint(|data|), data);
    OneByteNumber(k, 2);
    LengthIsRead(|data|);
    EncodeVarintShortest(|data|);
  }

  // ---------------------------------------------------------------------------------------
  // Input that is refused
  // ---------------------------------------------------------------------------------------

  /** After records that are read, the first turn that fails decides the outcome. */
  lemma ParseUntil(schema: Schema, rs: seq<Record>, s: seq<byte>, step: Step)
    requires AllAcceptable(schema, rs) && AllBytes(rs) < s && |s| < TWO_63
    requires Steps(schema, s)[|AllBytes(rs)|] == step && step.err != NoError
    ensures Parse(schema, s) == Parsed(FieldsOf(schema, rs) + step.fields, step.err)
  {
    var x := AllBytes(rs);
    ParseRecords(schema, rs);
    assert At(s, 0, x[0..]);
    ParseLocal(schema, Steps(schema, x), x, 0, Steps(schema, s), s, 0);
  }

  lemma ParseRefused(schema: Schema, rs: seq<Record>, s: seq<byte>, err: Error)
    requires AllAcceptable(schema, rs) && AllBytes(rs) < s && |s| < TWO_63
    requires Steps(schema, s)[|AllBytes(rs)|] == Step([], 0, err) && err != NoError
    ensures Parse(schema, s) == Parsed(FieldsOf(schema, rs), err)
  {
    ParseUntil(schema, rs, s, Step([], 0, err));
    assert FieldsOf(schema, rs) + [] == FieldsOf(schema, rs);
  }

  lemma TaggedTurn(schema: Schema, s: seq<byte>, i: nat, tag: seq<byte>, num: int, w: nat)
    requires IsVarint(tag) && At(s, i, tag) && num == TagNumber(tag) && w == tag[0] % 8
    ensures Steps(schema, s)[i] == ScanTagged(schema, num, w, s, i, i + |tag|)
  {
    TaggedField(schema, s, i, tag, num, w);
    assert Steps(schema, s)[i] == ScanField(schema, s, i);
  }

  /** What is wrong with a tag: it closes a group, has no positive number, or not the declared or any known wire type. */
  function TagFault(schema: Schema, tag: seq<byte>): Error
    requires IsVarint(tag)
  {
    if tag[0] % 8 == 4 then EndGroup
    else if TagNumber(tag) <= 0 then IllegalTag
    else if TagNumber(tag) in schema then if schema[TagNumber(tag)] != tag[0] % 8 then WrongWireType else NoError
    else if tag[0] % 8 > 5 then IllegalWireType
    else NoError
  }

  /** Records followed by a bad tag are read up to it, whatever comes after. */
  lemma ParseBadTag(schema: Schema, rs: seq<Record>, tag: seq<byte>, s: seq<byte>)
    requires AllAcceptable(schema, rs) && IsVarint(tag) && AllBytes(rs) + tag <= s && |s| < TWO_63
    requires TagFault(schema, tag) != NoError
    ensures Parse(schema, s) == Parsed(FieldsOf(schema, rs), TagFault(schema, tag))
  {
    PrefixParts(AllBytes(rs), tag, [], s);
    TurnBadTag(schema, s, |AllBytes(rs)|, tag);
    ParseRefused(schema, rs, s, TagFault(schema, tag));
  }

  lemma PrefixParts(a: seq<byte>, b: seq<byte>, c: seq<byte>, s: seq<byte>)
    requires a + b + c <= s
    ensures At(s, |a|, b) && At(s, |a| + |b|, c) && a <= s
  {
    assert forall k | 0 <= k < |b| :: s[|a| + k] == (a + b + c)[|a| + k] == b[k];
    assert forall k | 0 <= k < |c| :: s[|a| + |b| + k] == (a + b + c)[|a| + |b| + k] == c[k];
    assert forall k | 0 <= k < |a| :: s[k] == (a + b + c)[k] == a[k];
  }

  lemma TurnBadTag(schema: Schema, s: seq<byte>, i: nat, tag: seq<byte>)
    requires IsVarint(tag) && At(s, i, tag) && TagFault(schema, tag) != NoError
    ensures Steps(schema, s)[i] == Step([], 0, TagFault(schema, tag))
  {
    TaggedTurn(schema, s, i, tag, TagNumber(tag), tag[0] % 8);
    var e := i + |tag|;
    assert tag + s[e..] == s[i..];
    SkipBadTag(tag, s[e..]);
  }

  /** What is wrong with a length `v` that ends at index `before` of an input of `n` bytes. */
  function LengthFault(v: int, before: nat, n: nat): Error {
    if v < 0 || before + v >= TWO_63 then InvalidLength
    else if before + v > n then UnexpectedEOF
    else NoError
  }

  /** A declared length that is negative or leads past any index is invalid; one that leads past the input ends it. */
  lemma ParseBadLength(schema: Schema, rs: seq<Record>, tag: seq<byte>, length: seq<byte>, v: int, s: seq<byte>)
    requires AllAcceptable(schema, rs) && IsTag(tag, 2) && IsVarint(length) && v == Signed64(Leb(length, 0, |length|))
    requires TagNumber(tag) > 0 && TagNumber(tag) in schema && schema[TagNumber(tag)] == 2
    requires AllBytes(rs) + tag + length <= s && |s| < TWO_63
    requires LengthFault(v, |AllBytes(rs) + tag + length|, |s|) != NoError
    ensures Parse(schema, s) == Parsed(FieldsOf(schema, rs), LengthFault(v, |AllBytes(rs) + tag + length|, |s|))
  {
    PrefixParts(AllBytes(rs), tag, length, s);
    TurnBadLength(schema, s, |AllBytes(rs)|, tag, length, v, TagNumber(tag));
    ParseRefused(schema, rs, s, LengthFault(v, |AllBytes(rs) + tag + length|, |s|));
  }

  lemma TurnBadLength(schema: Schema, s: seq<byte>, i: nat, tag: seq<byte>, length: seq<byte>, v: int, num: int)
    requires IsTag(tag, 2) && IsVarint(length) && v == Signed64(Leb(length, 0, |length|)) && num == TagNumber(tag)
    requires num > 0 && num in schema && schema[num] == 2
    requires At(s, i, tag) && At(s, i + |tag|, length) && LengthFault(v, i + |tag| + |length|, |s|) != NoError
    ensures Steps(schema, s)[i] == Step([], 0, LengthFault(v, i + |tag| + |length|, |s|))
  {
    TaggedTurn(schema, s, i, tag, num, 2);
    LengthFails(num, s, i + |tag|, length, v);
  }

  lemma LengthFails(num: int, s: seq<byte>, e: nat, length: seq<byte>, v: int)
    requires IsVarint(length) && At(s, e, length) && v == Signed64(Leb(length, 0, |length|))
    requires LengthFault(v, e + |length|, |s|) != NoError
    ensures ScanBytesField(num, s, e) == Step([], 0, LengthFault(v, e + |length|, |s|))
  {
    ScanFinds(s, e, length);
  }

  /** An unknown record of fixed size that breaks off runs into the end of the input. */
  lemma ParseCutFixed(schema: Schema, rs: seq<Record>, tag: seq<byte>, data: seq<byte>, n: nat)
    requires AllAcceptable(schema, rs) && TagNumber(tag) > 0 && TagNumber(tag) !in schema
    requires |data| < n && ((IsTag(tag, 1) && n == 8) || (IsTag(tag, 5) && n == 4))
    requires |AllBytes(rs) + (tag + data)| < TWO_63
    ensures Parse(schema, AllBytes(rs) + (tag + data)) ==
            Parsed(FieldsOf(schema, rs), LengthFault(n, |AllBytes(rs) + tag|, |AllBytes(rs) + (tag + data)|))
  {
    var i, s := |AllBytes(rs)|, AllBytes(rs) + (tag + data);
    assert s[i..] == tag + data;
    TurnCutFixed(schema, s, i, tag, data, n);
    ParseRefused(schema, rs, s, LengthFault(n, |AllBytes(rs) + tag|, |s|));
  }

  lemma TurnCutFixed(schema: Schema, s: seq<byte>, i: nat, tag: seq<byte>, data: seq<byte>, n: nat)
    requires i < |s| < TWO_63 && s[i..] == tag + data && TagNumber(tag) > 0 && TagNumber(tag) !in schema
    requires |data| < n && ((IsTag(tag, 1) && n == 8) || (IsTag(tag, 5) && n == 4))
    ensures Steps(schema, s)[i] == Step([], 0, LengthFault(n, i + |tag|, |s|))
  {
    assert forall k | 0 <= k < |tag| :: s[i + k] == s[i..][k];
    TaggedTurn(schema, s, i, tag, TagNumber(tag), tag[0] % 8);
    SkipCutFixed(tag, data, n);
  }

  lemma SkipCutFixed(tag: seq<byte>, data: seq<byte>, n: nat)
    requires (IsTag(tag, 1) && n == 8) || (IsTag(tag, 5) && n == 4)
    ensures SkipSpec(tag + data) == Scan(|tag| + n, NoError)
  {
    ScanFinds(tag + data, 0, tag);
    assert Turns(tag + data)[0] == ScanItem(tag + data, 0);
  }

  /** A run of continuation bytes where a tag should be is cut short, or too long once there are ten of them. */
  lemma ParseBadRun(schema: Schema, rs: seq<Record>, run: seq<byte>)
    requires AllAcceptable(schema, rs) && run != [] && |AllBytes(rs) + run| < TWO_63 && forall b | b in run :: b >= 128
    ensures Parse(schema, AllBytes(rs) + run) ==
            Parsed(FieldsOf(schema, rs), if |run| < 10 then UnexpectedEOF else IntOverflow)
  {
    var i, s := |AllBytes(rs)|, AllBytes(rs) + run;
    assert forall x | i <= x < |s| :: s[x] == run[x - i] && run[x - i] in run;
    RunFails(s, i, 0);
    assert Steps(schema, s)[i] == ScanField(schema, s, i);
    ParseRefused(schema, rs, s, if |run| < 10 then UnexpectedEOF else IntOverflow);
  }

  lemma {:induction false} RunFails(s: seq<byte>, i: nat, k: nat)
    requires k <= 10 && i + k <= |s| && forall x | i <= x < |s| :: s[x] >= 128
    ensures ScanFrom(s, i, k) == if |s| - i < 10 then Scan(|s|, UnexpectedEOF) else Scan(i + 10, IntOverflow)
    decreases 10 - k
  {
    if k < 10 && i + k < |s| {
      RunFails(s, i, k + 1);
    }
  }

  /** The field that is left when only continuation bytes follow its tag, up to ten of which are read. */
  function CutField(num: int, run: seq<byte>): Field {
    var part := if |run| < 10 then run else run[..10];
    VarintField(num, Leb(part, 0, |part|), false)
  }

  /** A declared varint that is cut short or too long is read as far as it goes, and reported. */
  lemma ParseCutShort(schema: Schema, rs: seq<Record>, tag: seq<byte>, run: seq<byte>)
    requires AllAcceptable(schema, rs) && IsTag(tag, 0) && |AllBytes(rs) + (tag + run)| < TWO_63
    requires TagNumber(tag) > 0 && TagNumber(tag) in schema && schema[TagNumber(tag)] == 0 && forall b | b in run :: b >= 128
    ensures Parse(schema, AllBytes(rs) + (tag + run)) ==
            Parsed(FieldsOf(schema, rs) + [CutField(TagNumber(tag), run)], if |run| < 10 then UnexpectedEOF else IntOverflow)
  {
    var s := AllBytes(rs) + (tag + run);
    var step := TurnCutShort(schema, s, |AllBytes(rs)|, tag, run, TagNumber(tag));
    ParseUntil(schema, rs, s, step);
  }

  lemma TurnCutShort(schema: Schema, s: seq<byte>, i: nat, tag: seq<byte>, run: seq<byte>, num: int) returns (step: Step)
    requires IsTag(tag, 0) && num == TagNumber(tag) && num > 0 && num in schema && schema[num] == 0
    requires At(s, i, tag) && At(s, i + |tag|, run) && i + |tag| + |run| == |s| && forall b | b in run :: b >= 128
    ensures Steps(schema, s)[i] == step && step.fields == [CutField(num, run)]
    ensures step.err == if |run| < 10 then UnexpectedEOF else IntOverflow
  {
    TaggedTurn(schema, s, i, tag, num, 0);
    ScanCutShort(num, s, i + |tag|, run);
    step := ScanVarintField(num, s, i + |tag|);
  }

  lemma ScanCutShort(num: int, s: seq<byte>, e: nat, run: seq<byte>)
    requires At(s, e, run) && e + |run| == |s| && forall b | b in run :: b >= 128
    ensures ScanVarintField(num, s, e).fields == [CutField(num, run)]
    ensures ScanVarintField(num, s, e).err == if |run| < 10 then UnexpectedEOF else IntOverflow
  {
    assert forall x | e <= x < |s| :: s[x] == run[x - e] && run[x - e] in run;
    RunFails(s, e, 0);
    LebSame(s, e, if |run| < 10 then run else run[..10], 0);
  }
}
