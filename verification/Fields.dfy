/**
 The loop at the heart of every generated `Unmarshal`, for any schema. Decoding is split in two:
 `Parse` turns bytes into a list of field occurrences, and each codec folds that list into its
 message. This module proves what holds of the bytes whatever the message is: concatenation of
 encodings is concatenation of occurrences, and unknown records leave no trace.
 */
module Fields {
  import opened Wire
  import opened Records

  /** The wire type of every field a message declares: 0 (varint) or 2 (length-delimited). */
  type Schema = m: map<int, nat> | forall k | k in m :: k > 0 && (m[k] == 0 || m[k] == 2)

  /**
   One occurrence of a declared field. A varint that is cut short is kept with
   `complete == false`, because the generated code accumulates into the message directly.
   */
  datatype Field =
    | VarintField(num: int, value: nat, complete: bool)
    | BytesField(num: int, data: seq<byte>)

  datatype Step = Step(fields: seq<Field>, end: nat, err: Error)

  // ---------------------------------------------------------------------------------------
  // One turn of the loop
  // ---------------------------------------------------------------------------------------

  function FieldNumber(wire: uint64): int32 {
    Signed32(wire / 8)
  }

  function ScanVarintField(num: int, s: seq<byte>, i: nat): Step
    requires i <= |s|
  {
    var v := ScanVarint(s, i);
    Step([VarintField(num, Leb(s, i, v.end), v.err == NoError)], v.end, v.err)
  }

  function ScanBytesField(num: int, s: seq<byte>, i: nat): Step
    requires i <= |s|
  {
    var v := ScanVarint(s, i);
    if v.err != NoError then Step([], 0, v.err)
    else
      var length := Signed64(Leb(s, i, v.end));
      if length < 0 || v.end + length >= TWO_63 then Step([], 0, InvalidLength)
      else if v.end + length > |s| then Step([], 0, UnexpectedEOF)
      else Step([BytesField(num, s[v.end..v.end + length])], v.end + length, NoError)
  }

  ghost function ScanUnknown(s: seq<byte>, i: nat): Step
    requires i <= |s|
  {
    var skip := SkipSpec(s[i..]);
    if skip.err != NoError then Step([], 0, skip.err)
    else if i + skip.end >= TWO_63 then Step([], 0, InvalidLength)
    else if i + skip.end > |s| then Step([], 0, UnexpectedEOF)
    else Step([], i + skip.end, NoError)
  }

  ghost function ScanTagged(schema: Schema, num: int, wireType: nat, s: seq<byte>, i: nat, tagEnd: nat): Step
    requires i <= tagEnd <= |s|
  {
    if wireType == 4 then Step([], 0, EndGroup)
    else if num <= 0 then Step([], 0, IllegalTag)
    else if num !in schema then ScanUnknown(s, i)
    else if wireType != schema[num] then Step([], 0, WrongWireType)
    else if wireType == 0 then ScanVarintField(num, s, tagEnd)
    else ScanBytesField(num, s, tagEnd)
  }

  ghost function ScanField(schema: Schema, s: seq<byte>, i: nat): Step
    requires i <= |s|
  {
    var tag := ScanVarint(s, i);
    if tag.err != NoError then Step([], 0, tag.err)
    else
      var wire := Low64(Leb(s, i, tag.end));
      ScanTagged(schema, FieldNumber(wire), wire % 8, s, i, tag.end)
  }

  // ---------------------------------------------------------------------------------------
  // The loop
  // ---------------------------------------------------------------------------------------

  /** All occurrences up to the end of the input, or up to the first error. */
  datatype Parsed = Parsed(fields: seq<Field>, err: Error)

  ghost predicate StepsOver(steps: seq<Step>, schema: Schema, s: seq<byte>) {
    && AreSteps(steps)
    && |steps| == |s|
    && forall i: nat {:trigger ScanField(schema, s, i)} | i < |s| :: steps[i] == ScanField(schema, s, i)
  }

  /** A good step ends within the input, after the index it starts at. */
  ghost predicate AreSteps(steps: seq<Step>) {
    forall i: nat | i < |steps| && steps[i].err == NoError :: i < steps[i].end <= |steps|
  }

  lemma {:induction false} SkipEndPositive(s: seq<byte>)
    requires SkipSpec(s).err == NoError
    ensures SkipSpec(s).end > 0
  {
    TurnBounded(Turns(s), 0, 0);
  }

  lemma StepAdvances(schema: Schema, s: seq<byte>, i: nat)
    requires i < |s| && ScanField(schema, s, i).err == NoError
    ensures i < ScanField(schema, s, i).end <= |s|
  {
    if SkipSpec(s[i..]).err == NoError {
      SkipEndPositive(s[i..]);
    }
  }

  ghost function Steps(schema: Schema, s: seq<byte>): (steps: seq<Step>)
    ensures StepsOver(steps, schema, s)
  {
    StepsExist(schema, s);
    var steps :| StepsOver(steps, schema, s);
    steps
  }

  lemma StepsExist(schema: Schema, s: seq<byte>)
    ensures exists steps :: StepsOver(steps, schema, s)
  {
    var steps := seq(|s|, (i: nat) requires i < |s| => ScanField(schema, s, i));
    forall i: nat | i < |s| && steps[i].err == NoError
      ensures i < steps[i].end <= |s|
    {
      StepAdvances(schema, s, i);
    }
    assert StepsOver(steps, schema, s);
  }

  ghost function ParseFrom(steps: seq<Step>, i: nat): Parsed
    requires AreSteps(steps) && i <= |steps|
    decreases |steps| - i
  {
    if i == |steps| then Parsed([], NoError)
    else if steps[i].err != NoError then Parsed(steps[i].fields, steps[i].err)
    else Prepend(steps[i].fields, ParseFrom(steps, steps[i].end))
  }

  function Prepend(fields: seq<Field>, p: Parsed): Parsed {
    Parsed(fields + p.fields, p.err)
  }

  ghost function Parse(schema: Schema, s: seq<byte>): Parsed {
    ParseFrom(Steps(schema, s), 0)
  }

  // ---------------------------------------------------------------------------------------
  // A turn depends only on the bytes it reads
  // ---------------------------------------------------------------------------------------

  lemma AtTail(t: seq<byte>, j: nat, s: seq<byte>, i: nat, e: nat)
    requires i <= e <= |s| && At(t, j, s[i..])
    ensures At(t, j + (e - i), s[e..]) && At(t, j, s[i..e])
  {
    assert s[i..] == s[i..e] + s[e..];
    AtSplit(t, j, s[i..e], s[e..]);
  }

  lemma VarintLocal(s: seq<byte>, i: nat, t: seq<byte>, j: nat)
    requires i <= |s| && At(t, j, s[i..]) && ScanVarint(s, i).err == NoError
    ensures var e := ScanVarint(s, i).end;
            && ScanVarint(t, j) == Scan(j + (e - i), NoError)
            && Leb(t, j, j + (e - i)) == Leb(s, i, e)
            && At(t, j + (e - i), s[e..])
  {
    var e := ScanVarint(s, i).end;
    AtTail(t, j, s, i, e);
    ScanIsVarint(s, i);
    ScanFinds(t, j, s[i..e]);
    LengthOfSlice(s, i, e);
  }

  lemma VarintFieldLocal(num: int, s: seq<byte>, i: nat, t: seq<byte>, j: nat)
    requires i <= |s| && At(t, j, s[i..]) && ScanVarintField(num, s, i).err == NoError
    ensures ScanVarintField(num, t, j) ==
            Step(ScanVarintField(num, s, i).fields, j + (ScanVarintField(num, s, i).end - i), NoError)
  {
    VarintLocal(s, i, t, j);
  }

  lemma SkipLocal(s: seq<byte>, t: seq<byte>)
    requires s <= t && |t| < TWO_63 && SkipSpec(s).err == NoError && SkipSpec(s).end <= |s|
    ensures SkipSpec(t) == SkipSpec(s)
  {
    var n := SkipSpec(s).end;
    SkipExact(s, n);
    SkipExact(t, n);
    assert t[..n] == s[..n];
  }

  lemma UnknownLocal(s: seq<byte>, i: nat, t: seq<byte>, j: nat)
    requires i <= |s| && At(t, j, s[i..]) && |t| < TWO_63 && ScanUnknown(s, i).err == NoError
    ensures ScanUnknown(t, j) == Step([], j + (ScanUnknown(s, i).end - i), NoError)
  {
    PrefixOfTail(t, j, s[i..]);
    SkipLocal(s[i..], t[j..]);
  }

  lemma PrefixOfTail(t: seq<byte>, j: nat, part: seq<byte>)
    requires At(t, j, part)
    ensures part <= t[j..]
  {
    assert forall k | 0 <= k < |part| :: t[j..][k] == t[j + k];
  }

  lemma BytesFieldLocal(num: int, s: seq<byte>, i: nat, t: seq<byte>, j: nat)
    requires i <= |s| && At(t, j, s[i..]) && |t| < TWO_63 && ScanBytesField(num, s, i).err == NoError
    ensures ScanBytesField(num, t, j) ==
            Step(ScanBytesField(num, s, i).fields, j + (ScanBytesField(num, s, i).end - i), NoError)
  {
    VarintLocal(s, i, t, j);
    var e := ScanVarint(s, i).end;
    var n := ScanBytesField(num, s, i).end - e;
    var k := j + (e - i);
    SliceOfAt(t, k, s, e, n);
  }

  lemma SliceOfAt(t: seq<byte>, j: nat, s: seq<byte>, e: nat, n: nat)
    requires e + n <= |s| && At(t, j, s[e..])
    ensures j + n <= |t| && t[j..j + n] == s[e..e + n]
  {
    var read, written := t[j..j + n], s[e..e + n];
    forall k | 0 <= k < n
      ensures read[k] == written[k]
    {
      assert s[e..][k] == t[j + k];
    }
  }

  lemma TaggedLocal(schema: Schema, num: int, w: nat, s: seq<byte>, i: nat, e: nat, t: seq<byte>, j: nat)
    requires i <= e <= |s| && At(t, j, s[i..]) && |t| < TWO_63
    requires ScanTagged(schema, num, w, s, i, e).err == NoError
    ensures ScanTagged(schema, num, w, t, j, j + (e - i)) ==
            var a := ScanTagged(schema, num, w, s, i, e); Step(a.fields, j + (a.end - i), NoError)
  {
    AtTail(t, j, s, i, e);
    if num !in schema {
      UnknownLocal(s, i, t, j);
    } else if w == 0 {
      VarintFieldLocal(num, s, e, t, j + (e - i));
    } else {
      BytesFieldLocal(num, s, e, t, j + (e - i));
    }
  }

  lemma FieldLocal(schema: Schema, s: seq<byte>, i: nat, t: seq<byte>, j: nat)
    requires i <= |s| && At(t, j, s[i..]) && |t| < TWO_63 && ScanField(schema, s, i).err == NoError
    ensures ScanField(schema, t, j) ==
            var a := ScanField(schema, s, i); Step(a.fields, j + (a.end - i), NoError)
  {
    VarintLocal(s, i, t, j);
    var e := ScanVarint(s, i).end;
    FieldLocalAt(schema, s, i, e, t, j, Low64(Leb(s, i, e)));
  }

  /** The same, once the tag is known to be read alike in both places. */
  lemma FieldLocalAt(schema: Schema, s: seq<byte>, i: nat, e: nat, t: seq<byte>, j: nat, wire: nat)
    requires i <= e <= |s| && At(t, j, s[i..]) && |t| < TWO_63 && ScanField(schema, s, i).err == NoError
    requires ScanVarint(s, i) == Scan(e, NoError) && wire == Low64(Leb(s, i, e))
    requires ScanVarint(t, j) == Scan(j + (e - i), NoError) && wire == Low64(Leb(t, j, j + (e - i)))
    ensures ScanField(schema, t, j) ==
            var a := ScanField(schema, s, i); Step(a.fields, j + (a.end - i), NoError)
  {
    FieldTag(schema, s, i, e, wire, FieldNumber(wire), wire % 8);
    FieldTag(schema, t, j, j + (e - i), wire, FieldNumber(wire), wire % 8);
    TaggedLocal(schema, FieldNumber(wire), wire % 8, s, i, e, t, j);
  }

  lemma FieldTag(schema: Schema, s: seq<byte>, i: nat, e: nat, wire: nat, num: int, w: nat)
    requires i <= |s| && ScanVarint(s, i) == Scan(e, NoError) && wire == Low64(Leb(s, i, e))
    requires num == FieldNumber(wire) && w == wire % 8
    ensures ScanField(schema, s, i) == ScanTagged(schema, num, w, s, i, e)
  {
  }

  lemma StepLocal(schema: Schema, ss: seq<Step>, s: seq<byte>, i: nat, ts: seq<Step>, t: seq<byte>, j: nat)
    requires StepsOver(ss, schema, s) && StepsOver(ts, schema, t)
    requires i < |s| && At(t, j, s[i..]) && |t| < TWO_63 && ss[i].err == NoError
    ensures j < |t| && ts[j] == Step(ss[i].fields, j + (ss[i].end - i), NoError)
    ensures At(t, j + (ss[i].end - i), s[ss[i].end..])
  {
    assert ss[i] == ScanField(schema, s, i);
    assert ts[j] == ScanField(schema, t, j);
    FieldLocal(schema, s, i, t, j);
    AtTail(t, j, s, i, ss[i].end);
  }

  lemma {:induction false} ParseLocal(schema: Schema, ss: seq<Step>, s: seq<byte>, i: nat, ts: seq<Step>, t: seq<byte>, j: nat)
    requires StepsOver(ss, schema, s) && StepsOver(ts, schema, t)
    requires i <= |s| && At(t, j, s[i..]) && |t| < TWO_63 && ParseFrom(ss, i).err == NoError
    ensures ParseFrom(ts, j) == Prepend(ParseFrom(ss, i).fields, ParseFrom(ts, j + (|s| - i)))
    decreases |s| - i
  {
    if i < |s| {
      StepLocal(schema, ss, s, i, ts, t, j);
      var k := ss[i].end;
      ParseLocal(schema, ss, s, k, ts, t, j + (k - i));
      AppendAssoc(ss[i].fields, ParseFrom(ss, k).fields, ParseFrom(ts, j + (|s| - i)).fields);
    } else {
      assert [] + ParseFrom(ts, j).fields == ParseFrom(ts, j).fields;
    }
  }

  lemma AppendAssoc(a: seq<Field>, b: seq<Field>, c: seq<Field>)
    ensures a + (b + c) == (a + b) + c
  {
  }

  // ---------------------------------------------------------------------------------------
  // Concatenation and unknown records
  // ---------------------------------------------------------------------------------------

  lemma ParseTail(schema: Schema, x: seq<byte>, y: seq<byte>)
    requires |x + y| < TWO_63
    ensures var p := ParseFrom(Steps(schema, x + y), |x|);
            (p.err == NoError <==> Parse(schema, y).err == NoError) && (p.err == NoError ==> p == Parse(schema, y))
  {
    var s := x + y;
    var ss, ys := Steps(schema, s), Steps(schema, y);
    assert s[|x|..] == y && y[0..] == y;
    if ParseFrom(ss, |x|).err == NoError {
      ParseLocal(schema, ss, s, |x|, ys, y, 0);
    }
    if ParseFrom(ys, 0).err == NoError {
      ParseLocal(schema, ys, y, 0, ss, s, |x|);
    }
  }

  /**
   If `x` decodes, then `x + y` decodes exactly when `y` does, and the occurrences found in it
   are those of `x` followed by those of `y`.
   */
  lemma ParseConcat(schema: Schema, x: seq<byte>, y: seq<byte>)
    requires |x + y| < TWO_63 && Parse(schema, x).err == NoError
    ensures Parse(schema, x + y).err == NoError <==> Parse(schema, y).err == NoError
    ensures Parse(schema, y).err == NoError ==>
              Parse(schema, x + y).fields == Parse(schema, x).fields + Parse(schema, y).fields
  {
    var s := x + y;
    assert At(s, 0, x[0..]);
    ParseLocal(schema, Steps(schema, x), x, 0, Steps(schema, s), s, 0);
    ParseTail(schema, x, y);
  }

  /** A record whose field number the schema does not declare. */
  predicate UnknownTo(schema: Schema, r: Record) {
    var num := FieldNumber(Low64(Leb(r.tag, 0, |r.tag|)));
    WellFormed(r) && num > 0 && num !in schema
  }

  lemma ScanWholeUnknown(schema: Schema, r: Record)
    requires UnknownTo(schema, r) && |Bytes(r)| < TWO_63
    ensures ScanField(schema, Bytes(r), 0) == Step([], |Bytes(r)|, NoError)
  {
    var s := Bytes(r);
    assert At(s, 0, r.tag);
    ScanFinds(s, 0, r.tag);
    WireTypeIsLowBits(r.tag, 0, |r.tag|);
    assert s + [] == s && s[0..] == s;
    SkipSound(r, []);
  }

  lemma ParseSingle(schema: Schema, s: seq<byte>, fields: seq<Field>)
    requires s != [] && ScanField(schema, s, 0) == Step(fields, |s|, NoError)
    ensures Parse(schema, s) == Parsed(fields, NoError)
  {
    var steps := Steps(schema, s);
    assert steps[0] == ScanField(schema, s, 0);
    assert ParseFrom(steps, |s|) == Parsed([], NoError);
    assert fields + [] == fields;
  }

  lemma ParseEmpty(schema: Schema)
    ensures Parse(schema, []) == Parsed([], NoError)
  {
  }

  /** Unknown records decode to nothing. */
  lemma {:induction false} ParseUnknown(schema: Schema, rs: seq<Record>)
    requires (forall r | r in rs :: UnknownTo(schema, r)) && |AllBytes(rs)| < TWO_63
    ensures Parse(schema, AllBytes(rs)) == Parsed([], NoError)
  {
    if rs == [] {
      ParseEmpty(schema);
    } else {
      var r := rs[0];
      assert r in rs;
      ScanWholeUnknown(schema, r);
      ParseSingle(schema, Bytes(r), []);
      ParseUnknown(schema, rs[1..]);
      ParseConcat(schema, Bytes(r), AllBytes(rs[1..]));
    }
  }

  /** Inserting unknown records between two parts of an encoding changes nothing. */
  lemma ParseIgnoresUnknown(schema: Schema, x: seq<byte>, rs: seq<Record>, y: seq<byte>)
    requires |x + AllBytes(rs) + y| < TWO_63 && Parse(schema, x).err == NoError
    requires forall r | r in rs :: UnknownTo(schema, r)
    ensures Parse(schema, x + AllBytes(rs) + y).err == NoError <==> Parse(schema, x + y).err == NoError
    ensures Parse(schema, x + y).err == NoError ==>
              Parse(schema, x + AllBytes(rs) + y).fields == Parse(schema, x + y).fields
  {
    var u := AllBytes(rs);
    ParseUnknown(schema, rs);
    ParseConcat(schema, x, u);
    ParseConcat(schema, x + u, y);
    ParseConcat(schema, x, y);
    assert Parse(schema, x).fields + [] == Parse(schema, x).fields;
  }

  // ---------------------------------------------------------------------------------------
  // Declared fields as the marshallers write them
  // ---------------------------------------------------------------------------------------

  lemma OneByteTag(schema: Schema, s: seq<byte>, num: nat, wireType: nat)
    requires s != [] && s[0] == 8 * num + wireType && num < 16 && wireType < 8
    ensures ScanField(schema, s, 0) == ScanTagged(schema, num, wireType, s, 0, 1)
  {
    assert Leb(s, 1, 1) == 0;
    assert ScanVarint(s, 0) == Scan(1, NoError) && Leb(s, 0, 1) == s[0];
    OneByteWire(s[0], num, wireType);
  }

  lemma OneByteWire(wire: byte, num: nat, wireType: nat)
    requires wire == 8 * num + wireType && num < 16 && wireType < 8
    ensures Low64(wire) == wire && FieldNumber(wire) == num && wire % 8 == wireType
  {
  }

  lemma ScanWrittenVarint(num: int, s: seq<byte>, i: nat, v: uint64)
    requires At(s, i, EncodeVarint(v))
    ensures ScanVarintField(num, s, i) == Step([VarintField(num, v, true)], i + |EncodeVarint(v)|, NoError)
  {
    EncodeVarintCorrect(v);
    ScanFinds(s, i, EncodeVarint(v));
  }

  lemma ScanVarintChunk(schema: Schema, num: nat, v: uint64)
    requires num < 16 && num in schema && schema[num] == 0
    ensures ScanField(schema, [8 * num] + EncodeVarint(v), 0)
         == Step([VarintField(num, v, true)], 1 + |EncodeVarint(v)|, NoError)
  {
    var s := [8 * num] + EncodeVarint(v);
    OneByteTag(schema, s, num, 0);
    assert At(s, 1, EncodeVarint(v));
    ScanWrittenVarint(num, s, 1, v);
  }

  /** A varint field parses to one occurrence with the value that was written. */
  lemma ParseVarintChunk(schema: Schema, num: nat, v: uint64)
    requires num < 16 && num in schema && schema[num] == 0
    ensures Parse(schema, [8 * num] + EncodeVarint(v)) == Parsed([VarintField(num, v, true)], NoError)
  {
    ScanVarintChunk(schema, num, v);
    ParseSingle(schema, [8 * num] + EncodeVarint(v), [VarintField(num, v, true)]);
  }

  function BytesChunk(num: nat, data: seq<byte>): seq<byte>
    requires num < 16
  {
    [8 * num + 2] + EncodeVarint(|data|) + data
  }

  lemma ScanDelimited(num: int, s: seq<byte>, i: nat, length: seq<byte>, data: seq<byte>)
    requires IsVarint(length) && Signed64(Leb(length, 0, |length|)) == |data|
    requires At(s, i, length + data) && |s| < TWO_63
    ensures ScanBytesField(num, s, i) == Step([BytesField(num, data)], i + |length + data|, NoError)
  {
    AtSplit(s, i, length, data);
    ScanFinds(s, i, length);
    AtIsSlice(s, i + |length|, data);
  }

  lemma AtIsSlice(s: seq<byte>, i: nat, data: seq<byte>)
    requires At(s, i, data)
    ensures s[i..i + |data|] == data
  {
  }

  lemma ScanWrittenBytes(num: int, s: seq<byte>, i: nat, data: seq<byte>)
    requires At(s, i, EncodeVarint(|data|) + data) && |s| < TWO_63
    ensures ScanBytesField(num, s, i) == Step([BytesField(num, data)], i + |EncodeVarint(|data|) + data|, NoError)
  {
    LengthIsRead(|data|);
    ScanDelimited(num, s, i, EncodeVarint(|data|), data);
  }

  lemma LengthIsRead(n: nat)
    requires n < TWO_63
    ensures IsVarint(EncodeVarint(n)) && Signed64(Leb(EncodeVarint(n), 0, |EncodeVarint(n)|)) == n
  {
    EncodeVarintCorrect(n);
  }

  lemma ScanBytesChunk(schema: Schema, num: nat, data: seq<byte>)
    requires num < 16 && num in schema && schema[num] == 2
    requires |BytesChunk(num, data)| < TWO_63
    ensures ScanField(schema, BytesChunk(num, data), 0)
         == Step([BytesField(num, data)], |BytesChunk(num, data)|, NoError)
  {
    var s := BytesChunk(num, data);
    OneByteTag(schema, s, num, 2);
    assert At(s, 1, EncodeVarint(|data|) + data);
    ScanWrittenBytes(num, s, 1, data);
  }

  /** A length-delimited field parses to one occurrence with the bytes that were written. */
  lemma ParseBytesChunk(schema: Schema, num: nat, data: seq<byte>)
    requires num < 16 && num in schema && schema[num] == 2
    requires |BytesChunk(num, data)| < TWO_63
    ensures Parse(schema, BytesChunk(num, data)) == Parsed([BytesField(num, data)], NoError)
  {
    ScanBytesChunk(schema, num, data);
    ParseSingle(schema, BytesChunk(num, data), [BytesField(num, data)]);
  }
}
