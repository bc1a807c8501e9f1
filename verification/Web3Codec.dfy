/**
 The codec of `ExtensionOptionsWeb3Tx`, the extension option that carries an EIP-712 fee
 payer: one varint field and two length-delimited ones. Go strings are byte strings.
 */
module Web3Codec {
  import opened Wire
  import opened Records
  import opened Fields
  import opened Grammar
  import opened Options

  datatype Web3Tx = Web3Tx(typedDataChainID: uint64, feePayer: seq<byte>, feePayerSig: seq<byte>)

  /** A message just allocated. */
  const FRESH: Web3Tx := Web3Tx(0, [], [])

  const SCHEMA: Schema := map[1 := 0, 2 := 2, 3 := 2]

  // ---------------------------------------------------------------------------------------
  // Encoding
  // ---------------------------------------------------------------------------------------

  function ChainChunk(v: uint64): seq<byte> {
    if v == 0 then [] else [8] + EncodeVarint(v)
  }

  function DataChunk(num: nat, data: seq<byte>): seq<byte>
    requires num < 16
  {
    if data == [] then [] else BytesChunk(num, data)
  }

  function Encode(m: Web3Tx): seq<byte> {
    ChainChunk(m.typedDataChainID) + (DataChunk(2, m.feePayer) + DataChunk(3, m.feePayerSig))
  }

  // ---------------------------------------------------------------------------------------
  // Decoding
  // ---------------------------------------------------------------------------------------

  function SetField(m: Web3Tx, f: Field): Web3Tx {
    match f
    case VarintField(num, value, _) => if num == 1 then m.(typedDataChainID := Low64(value)) else m
    case BytesField(num, data) =>
      if num == 2 then m.(feePayer := data) else if num == 3 then m.(feePayerSig := data) else m
  }

  function SetAll(m: Web3Tx, fs: seq<Field>): Web3Tx
    decreases |fs|
  {
    if fs == [] then m else SetAll(SetField(m, fs[0]), fs[1..])
  }

  lemma {:induction false} SetAllConcat(m: Web3Tx, fs: seq<Field>, gs: seq<Field>)
    ensures SetAll(m, fs + gs) == SetAll(SetAll(m, fs), gs)
    decreases |fs|
  {
    if fs == [] {
      assert fs + gs == gs;
    } else {
      assert (fs + gs)[1..] == fs[1..] + gs;
      SetAllConcat(SetField(m, fs[0]), fs[1..], gs);
    }
  }

  datatype Decoded = Decoded(msg: Web3Tx, err: Error)

  /** The message left behind by `Unmarshal`, also when it fails, and the error it returns. */
  ghost function Decode(m: Web3Tx, s: seq<byte>): Decoded {
    var p := Parse(SCHEMA, s);
    Decoded(SetAll(m, p.fields), p.err)
  }

  // ---------------------------------------------------------------------------------------
  // The generated methods
  // ---------------------------------------------------------------------------------------

  class Message {
    var typedDataChainID: uint64
    var feePayer: seq<byte>
    var feePayerSig: seq<byte>

    constructor ()
      ensures Value() == FRESH
    {
      typedDataChainID, feePayer, feePayerSig := 0, [], [];
    }

    function Value(): Web3Tx
      reads this
    {
      Web3Tx(typedDataChainID, feePayer, feePayerSig)
    }

    /** Counts bytes from the bit lengths, without encoding anything. */
    method Size() returns (n: nat)
      ensures n == |Encode(Value())|
    {
      n := 0;
      if typedDataChainID != 0 {
        SovIsLength(typedDataChainID);
        n := n + 1 + Sov(typedDataChainID);
      }
      var l := |feePayer|;
      if l > 0 {
        SovIsLength(l);
        n := n + 1 + l + Sov(l);
      }
      l := |feePayerSig|;
      if l > 0 {
        SovIsLength(l);
        n := n + 1 + l + Sov(l);
      }
    }

    /** Fills the end of the buffer, last field first. */
    method MarshalToSizedBuffer(dAtA: array<byte>) returns (n: nat)
      requires |Encode(Value())| <= dAtA.Length
      modifies dAtA
      ensures n == |Encode(Value())|
      ensures dAtA[..] == old(dAtA[..dAtA.Length - n]) + Encode(Value())
    {
      ghost var before := dAtA[..];
      var i := PutData(dAtA, dAtA.Length, 3, feePayerSig, before, []);
      assert DataChunk(3, feePayerSig) + [] == DataChunk(3, feePayerSig);
      i := PutData(dAtA, i, 2, feePayer, before, DataChunk(3, feePayerSig));
      i := PutChain(dAtA, i, typedDataChainID, before, DataChunk(2, feePayer) + DataChunk(3, feePayerSig));
      n := dAtA.Length - i;
    }

    method Marshal() returns (dAtA: array<byte>)
      ensures fresh(dAtA) && dAtA[..] == Encode(Value())
    {
      var size := Size();
      dAtA := new byte[size];
      var n := MarshalToSizedBuffer(dAtA);
      assert dAtA[..] == [] + Encode(Value());
    }

    /** `case 2` and `case 3`: a length, then that many bytes, copied into the field. */
    method ReadData(fieldNum: int, dAtA: seq<byte>, start: nat) returns (iNdEx: nat, err: Error)
      requires start <= |dAtA| < TWO_63 && 2 <= fieldNum <= 3
      modifies this
      ensures var step := ScanBytesField(fieldNum, dAtA, start);
              && err == step.err && (err == NoError ==> iNdEx == step.end)
              && Value() == SetAll(old(Value()), step.fields)
    {
      var value;
      value, iNdEx, err := ReadVarint(dAtA, start, 64);
      if err != NoError {
        return;
      }
      var length := Signed64(value);
      if length < 0 {
        return iNdEx, InvalidLength;
      }
      var postIndex := Signed64(iNdEx + length);
      SignedSum(iNdEx, length);
      if postIndex < 0 {
        return iNdEx, InvalidLength;
      }
      if postIndex > |dAtA| {
        return iNdEx, UnexpectedEOF;
      }
      SetData(fieldNum, dAtA[iNdEx..postIndex]);
      iNdEx := postIndex;
    }

    method SetData(fieldNum: int, data: seq<byte>)
      requires 2 <= fieldNum <= 3
      modifies this
      ensures Value() == SetAll(old(Value()), [BytesField(fieldNum, data)])
    {
      if fieldNum == 2 {
        feePayer := data;
      } else {
        feePayerSig := data;
      }
    }

    /** One turn of the loop: a known field, or an unknown record that is skipped. */
    method UnmarshalField(dAtA: seq<byte>, preIndex: nat, ghost steps: seq<Step>) returns (iNdEx: nat, err: Error)
      requires preIndex < |dAtA| < TWO_63 && StepsOver(steps, SCHEMA, dAtA)
      modifies this
      ensures err == steps[preIndex].err && (err == NoError ==> iNdEx == steps[preIndex].end)
      ensures Value() == SetAll(old(Value()), steps[preIndex].fields)
    {
      assert steps[preIndex] == ScanField(SCHEMA, dAtA, preIndex);
      var wire;
      wire, iNdEx, err := ReadVarint(dAtA, preIndex, 64);
      if err != NoError {
        return;
      }
      var fieldNum, wireType := FieldNumber(wire), wire % 8;
      if wireType == 4 {
        return iNdEx, EndGroup;
      }
      if fieldNum <= 0 {
        return iNdEx, IllegalTag;
      }
      if fieldNum == 1 {
        if wireType != 0 {
          return iNdEx, WrongWireType;
        }
        var value;
        value, iNdEx, err := ReadVarint(dAtA, iNdEx, 64);
        typedDataChainID := value;
      } else if fieldNum <= 3 {
        if wireType != 2 {
          return iNdEx, WrongWireType;
        }
        iNdEx, err := ReadData(fieldNum, dAtA, iNdEx);
      } else {
        var skippy;
        skippy, err := Skip(dAtA[preIndex..]);
        if err != NoError {
          return;
        }
        if preIndex + skippy >= TWO_63 {
          return iNdEx, InvalidLength;
        }
        if preIndex + skippy > |dAtA| {
          return iNdEx, UnexpectedEOF;
        }
        iNdEx := preIndex + skippy;
      }
    }

    method Unmarshal(dAtA: seq<byte>) returns (err: Error)
      requires |dAtA| < TWO_63
      modifies this
      ensures Decoded(Value(), err) == Decode(old(Value()), dAtA)
    {
      var l := |dAtA|;
      var iNdEx := 0;
      ghost var steps := Steps(SCHEMA, dAtA);
      ghost var done: seq<Field> := [];
      while iNdEx < l
        invariant iNdEx <= l
        invariant Value() == SetAll(old(Value()), done)
        invariant Parse(SCHEMA, dAtA) == Prepend(done, ParseFrom(steps, iNdEx))
        decreases l - iNdEx
      {
        ghost var i := iNdEx;
        iNdEx, err := UnmarshalField(dAtA, iNdEx, steps);
        SetAllConcat(old(Value()), done, steps[i].fields);
        if err != NoError {
          return;
        }
        AppendAssoc(done, steps[i].fields, ParseFrom(steps, iNdEx).fields);
        done := done + steps[i].fields;
      }
      assert done + [] == done;
      err := NoError;
    }
  }

  lemma SignedSum(a: int, b: int)
    requires 0 <= a < TWO_63 && 0 <= b < TWO_63
    ensures Signed64(a + b) == a + b - if a + b < TWO_63 then 0 else 2 * TWO_63
  {
  }

  /** Copies the bytes, then writes their length and the tag in front of them. */
  method PutData(dAtA: array<byte>, i: nat, num: nat, data: seq<byte>, ghost before: seq<byte>, ghost tail: seq<byte>)
    returns (base: nat)
    requires num < 16 && |DataChunk(num, data)| <= i <= dAtA.Length == |before|
    requires dAtA[..] == before[..i] + tail
    modifies dAtA
    ensures base == i - |DataChunk(num, data)|
    ensures dAtA[..] == before[..base] + (DataChunk(num, data) + tail)
  {
    base := i;
    if |data| > 0 {
      base := CopyBack(dAtA, i, data, before, tail);
      base := PutTagged(dAtA, base, 8 * num + 2, |data|, before, data + tail);
      Regroup([8 * num + 2] + EncodeVarint(|data|), data, tail);
    }
  }

  lemma Regroup(a: seq<byte>, b: seq<byte>, c: seq<byte>)
    ensures a + (b + c) == a + b + c
  {
  }

  /** The built-in `copy`, into the bytes just before `i`. */
  method CopyBack(dAtA: array<byte>, i: nat, data: seq<byte>, ghost before: seq<byte>, ghost tail: seq<byte>)
    returns (base: nat)
    requires |data| <= i <= dAtA.Length == |before|
    requires dAtA[..] == before[..i] + tail
    modifies dAtA
    ensures base == i - |data|
    ensures dAtA[..] == before[..base] + (data + tail)
  {
    base := i - |data|;
    forall k | 0 <= k < |data| {
      dAtA[base + k] := data[k];
    }
    assert dAtA[..] == old(dAtA[..base]) + data + old(dAtA[i..]);
    InFront(before, i, base, data, tail);
  }

  method PutTagged(dAtA: array<byte>, i: nat, tag: byte, v: nat, ghost before: seq<byte>, ghost tail: seq<byte>)
    returns (base: nat)
    requires |[tag] + EncodeVarint(v)| <= i <= dAtA.Length == |before|
    requires dAtA[..] == before[..i] + tail
    modifies dAtA
    ensures base == i - |[tag] + EncodeVarint(v)|
    ensures dAtA[..] == before[..base] + ([tag] + EncodeVarint(v) + tail)
  {
    base := WriteTagged(dAtA, i, tag, v);
    InFront(before, i, base, [tag] + EncodeVarint(v), tail);
  }

  lemma InFront(before: seq<byte>, at: nat, base: nat, part: seq<byte>, tail: seq<byte>)
    requires base <= at <= |before|
    ensures (before[..at] + tail)[..base] + part + (before[..at] + tail)[at..] == before[..base] + (part + tail)
  {
  }

  method PutChain(dAtA: array<byte>, i: nat, v: uint64, ghost before: seq<byte>, ghost tail: seq<byte>)
    returns (base: nat)
    requires |ChainChunk(v)| <= i <= dAtA.Length == |before|
    requires dAtA[..] == before[..i] + tail
    modifies dAtA
    ensures base == i - |ChainChunk(v)|
    ensures dAtA[..] == before[..base] + (ChainChunk(v) + tail)
  {
    base := i;
    if v != 0 {
      base := PutTagged(dAtA, i, 8, v, before, tail);
    }
  }

  // ---------------------------------------------------------------------------------------
  // Round trips
  // ---------------------------------------------------------------------------------------

  /** Protocol Buffers merge: a field that is present in `m` replaces the one in `x`. */
  function Merge(x: Web3Tx, m: Web3Tx): Web3Tx {
    Web3Tx(
      if m.typedDataChainID == 0 then x.typedDataChainID else m.typedDataChainID,
      if m.feePayer == [] then x.feePayer else m.feePayer,
      if m.feePayerSig == [] then x.feePayerSig else m.feePayerSig)
  }

  lemma SetOne(m: Web3Tx, f: Field)
    ensures SetAll(m, [f]) == SetField(m, f)
  {
    assert [f][1..] == [];
  }

  lemma DecodeChain(x: Web3Tx, v: uint64)
    ensures Decode(x, ChainChunk(v)) == Decoded(Merge(x, Web3Tx(v, [], [])), NoError)
  {
    if v == 0 {
      ParseEmpty(SCHEMA);
    } else {
      ParseVarintChunk(SCHEMA, 1, v);
      SetOne(x, VarintField(1, v, true));
    }
  }

  lemma DecodeData(x: Web3Tx, num: nat, data: seq<byte>)
    requires 2 <= num <= 3 && |DataChunk(num, data)| < TWO_63
    ensures Decode(x, DataChunk(num, data)) ==
            Decoded(if data == [] then x else SetField(x, BytesField(num, data)), NoError)
  {
    if data == [] {
      ParseEmpty(SCHEMA);
    } else {
      ParseBytesChunk(SCHEMA, num, data);
      SetOne(x, BytesField(num, data));
    }
  }

  lemma DecodeIgnoresUnknown(x: Web3Tx, rs: seq<Record>)
    requires (forall r | r in rs :: UnknownTo(SCHEMA, r)) && |AllBytes(rs)| < TWO_63
    ensures Decode(x, AllBytes(rs)) == Decoded(x, NoError)
  {
    ParseUnknown(SCHEMA, rs);
  }

  /**
   Last one wins: if `x` decodes onto `m`, then `x + y` decodes onto `m` exactly when `y` decodes
   onto the result, and to the same message.
   */
  lemma DecodeConcat(m: Web3Tx, x: seq<byte>, y: seq<byte>)
    requires |x + y| < TWO_63 && Decode(m, x).err == NoError
    ensures Decode(m, x + y).err == NoError <==> Decode(Decode(m, x).msg, y).err == NoError
    ensures Decode(m, x + y).err == NoError ==> Decode(m, x + y) == Decode(Decode(m, x).msg, y)
  {
    ParseConcat(SCHEMA, x, y);
    if Parse(SCHEMA, y).err == NoError {
      SetAllConcat(m, Parse(SCHEMA, x).fields, Parse(SCHEMA, y).fields);
    }
  }

  /** An encoding with unknown records before, between and after its fields. */
  function Padded(m: Web3Tx, pads: seq<seq<Record>>): seq<byte>
    requires |pads| == 4
  {
    AllBytes(pads[0]) + (ChainChunk(m.typedDataChainID) +
    (AllBytes(pads[1]) + (DataChunk(2, m.feePayer) +
    (AllBytes(pads[2]) + (DataChunk(3, m.feePayerSig) + AllBytes(pads[3]))))))
  }

  /**
   Whatever unknown records are put before, between and after the fields of an encoding,
   decoding it onto a message merges the encoded message into it.
   */
  lemma DecodePadded(x: Web3Tx, m: Web3Tx, pads: seq<seq<Record>>)
    requires |pads| == 4 && forall p, r | p in pads && r in p :: UnknownTo(SCHEMA, r)
    requires |Padded(m, pads)| < TWO_63
    ensures Decode(x, Padded(m, pads)) == Decoded(Merge(x, m), NoError)
  {
    var p0, p1, p2, p3 := AllBytes(pads[0]), AllBytes(pads[1]), AllBytes(pads[2]), AllBytes(pads[3]);
    var c1, c2, c3 := ChainChunk(m.typedDataChainID), DataChunk(2, m.feePayer), DataChunk(3, m.feePayerSig);
    assert pads[0] in pads && pads[1] in pads && pads[2] in pads && pads[3] in pads;
    var x1 := Merge(x, Web3Tx(m.typedDataChainID, [], []));
    var x2 := if m.feePayer == [] then x1 else SetField(x1, BytesField(2, m.feePayer));
    var x3 := if m.feePayerSig == [] then x2 else SetField(x2, BytesField(3, m.feePayerSig));
    DecodeIgnoresUnknown(x, pads[0]);
    DecodeConcat(x, p0, c1 + (p1 + (c2 + (p2 + (c3 + p3)))));
    DecodeChain(x, m.typedDataChainID);
    DecodeConcat(x, c1, p1 + (c2 + (p2 + (c3 + p3))));
    DecodeIgnoresUnknown(x1, pads[1]);
    DecodeConcat(x1, p1, c2 + (p2 + (c3 + p3)));
    DecodeData(x1, 2, m.feePayer);
    DecodeConcat(x1, c2, p2 + (c3 + p3));
    DecodeIgnoresUnknown(x2, pads[2]);
    DecodeConcat(x2, p2, c3 + p3);
    DecodeData(x2, 3, m.feePayerSig);
    DecodeConcat(x2, c3, p3);
    DecodeIgnoresUnknown(x3, pads[3]);
  }

  /** Unmarshalling what `Marshal` wrote into a fresh message gives the message back. */
  lemma RoundTrip(m: Web3Tx)
    requires |Encode(m)| < TWO_63
    ensures Decode(FRESH, Encode(m)) == Decoded(m, NoError)
  {
    var pads: seq<seq<Record>> := [[], [], [], []];
    WithoutPads(ChainChunk(m.typedDataChainID), DataChunk(2, m.feePayer), DataChunk(3, m.feePayerSig), AllBytes([]));
    DecodePadded(FRESH, m, pads);
  }

  lemma WithoutPads(a: seq<byte>, b: seq<byte>, c: seq<byte>, pad: seq<byte>)
    requires pad == []
    ensures pad + (a + (pad + (b + (pad + (c + pad))))) == a + (b + c)
  {
    assert c + pad == c && pad + c == c;
    assert pad + (b + c) == b + c;
  }

  // ---------------------------------------------------------------------------------------
  // Which inputs decode, and to what
  // ---------------------------------------------------------------------------------------

  /** Any records with a positive field number, where field 1 is a varint and 2 and 3 are length-delimited. */
  predicate OptionRecords(rs: seq<Record>) {
    forall r | r in rs ::
      && WellFormed(r) && Number(r) > 0
      && (Number(r) == 1 ==> r.VarintRecord?) && (Number(r) in {2, 3} ==> r.BytesRecord?)
  }

  lemma OptionRecordsAcceptable(rs: seq<Record>)
    ensures OptionRecords(rs) <==> AllAcceptable(SCHEMA, rs)
  {
  }

  /** Every field is read from its last record; without one it keeps its value. */
  predicate ReadsLast(m: Web3Tx, rs: seq<Record>, r: Web3Tx) {
    && r.typedDataChainID == (match LastVarint(rs, 1) case Some(v) => Low64(v) case None => m.typedDataChainID)
    && r.feePayer == (match LastBytes(rs, 2) case Some(data) => data case None => m.feePayer)
    && r.feePayerSig == (match LastBytes(rs, 3) case Some(data) => data case None => m.feePayerSig)
  }

  lemma {:induction false} SetAllReadsLast(m: Web3Tx, rs: seq<Record>)
    requires OptionRecords(rs)
    ensures ReadsLast(m, rs, SetAll(m, FieldsOf(SCHEMA, rs)))
    decreases |rs|
  {
    if rs != [] {
      var front, r := rs[..|rs| - 1], rs[|rs| - 1];
      assert rs == front + [r] && r in rs;
      SetAllReadsLast(m, front);
      FieldsOfLast(SCHEMA, front, r);
      SetAllConcat(m, FieldsOf(SCHEMA, front), FieldOf(SCHEMA, r));
      SetReadsLast(m, front, r, SetAll(m, FieldsOf(SCHEMA, front)));
    }
  }

  lemma SetReadsLast(m: Web3Tx, front: seq<Record>, r: Record, x: Web3Tx)
    requires ReadsLast(m, front, x) && Acceptable(SCHEMA, r)
    ensures ReadsLast(m, front + [r], SetAll(x, FieldOf(SCHEMA, r)))
  {
    assert (front + [r])[..|front|] == front;
    var fields := FieldOf(SCHEMA, r);
    if fields != [] {
      SetOne(x, fields[0]);
      assert fields == [fields[0]];
    }
  }

  /**
   Bytes decode exactly when they are a sequence of records whose declared fields have their wire
   types, and then every field is that of its last record.
   */
  lemma DecodeExactly(m: Web3Tx, s: seq<byte>)
    requires |s| < TWO_63
    ensures Decode(m, s).err == NoError <==> exists rs :: OptionRecords(rs) && AllBytes(rs) == s
    ensures forall rs | OptionRecords(rs) && AllBytes(rs) == s :: ReadsLast(m, rs, Decode(m, s).msg)
  {
    ParseExactly(SCHEMA, s);
    if Decode(m, s).err == NoError {
      var rs :| AllAcceptable(SCHEMA, rs) && AllBytes(rs) == s;
      OptionRecordsAcceptable(rs);
    }
    forall rs | OptionRecords(rs) && AllBytes(rs) == s
      ensures Decode(m, s).err == NoError && ReadsLast(m, rs, Decode(m, s).msg)
    {
      OptionRecordsAcceptable(rs);
      ParseRecords(SCHEMA, rs);
      SetAllReadsLast(m, rs);
    }
  }

  /** Records followed by a bad tag are taken over, and the fault of the tag is reported. */
  lemma DecodeBadTag(m: Web3Tx, rs: seq<Record>, tag: seq<byte>, s: seq<byte>)
    requires OptionRecords(rs) && IsVarint(tag) && AllBytes(rs) + tag <= s && |s| < TWO_63 && TagFault(SCHEMA, tag) != NoError
    ensures Decode(m, s).err == TagFault(SCHEMA, tag) && ReadsLast(m, rs, Decode(m, s).msg)
  {
    OptionRecordsAcceptable(rs);
    ParseBadTag(SCHEMA, rs, tag, s);
    SetAllReadsLast(m, rs);
  }

  /** Likewise when the length of field 2 or 3 is negative or leads past the input. */
  lemma DecodeBadLength(m: Web3Tx, rs: seq<Record>, tag: seq<byte>, length: seq<byte>, v: int, s: seq<byte>)
    requires OptionRecords(rs) && IsTag(tag, 2) && IsVarint(length) && v == Signed64(Leb(length, 0, |length|))
    requires TagNumber(tag) in {2, 3} && AllBytes(rs) + tag + length <= s && |s| < TWO_63
    requires LengthFault(v, |AllBytes(rs) + tag + length|, |s|) != NoError
    ensures Decode(m, s).err == LengthFault(v, |AllBytes(rs) + tag + length|, |s|) && ReadsLast(m, rs, Decode(m, s).msg)
  {
    OptionRecordsAcceptable(rs);
    ParseBadLength(SCHEMA, rs, tag, length, v, s);
    SetAllReadsLast(m, rs);
  }

  /** The encoding is in canonical form: the fields that are not empty, in order and in their shortest form. */
  lemma EncodeCanonical(m: Web3Tx) returns (rs: seq<Record>)
    requires |m.feePayer| < TWO_63 && |m.feePayerSig| < TWO_63
    ensures AllBytes(rs) == Encode(m) && OptionRecords(rs)
    ensures Ascending(rs) && forall r | r in rs :: Canonical(r) && Number(r) <= 3
  {
    rs := WrittenData([], 3, m.feePayerSig);
    rs := WrittenData(rs, 2, m.feePayer);
    assert AllBytes(rs) == DataChunk(2, m.feePayer) + DataChunk(3, m.feePayerSig);
    if m.typedDataChainID != 0 {
      var r := WrittenVarint(1, m.typedDataChainID);
      AllBytesPush(r, rs);
      rs := [r] + rs;
    }
  }

  lemma WrittenData(more: seq<Record>, k: nat, data: seq<byte>) returns (rs: seq<Record>)
    requires 2 <= k <= 3 && |data| < TWO_63 && Ascending(more)
    requires forall r | r in more :: WellFormed(r) && r.BytesRecord? && Canonical(r) && k < Number(r) <= 3
    ensures AllBytes(rs) == DataChunk(k, data) + AllBytes(more) && Ascending(rs)
    ensures forall r | r in rs :: WellFormed(r) && r.BytesRecord? && Canonical(r) && k <= Number(r) <= 3
  {
    rs := more;
    if data != [] {
      var r := WrittenBytes(k, data);
      AllBytesPush(r, rs);
      rs := [r] + rs;
    }
  }
}
