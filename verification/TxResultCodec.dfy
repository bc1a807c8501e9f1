/**
 The codec of `TxResult`, the value stored by the transaction index: seven varint fields,
 written back to front into a buffer of exactly the right size, and read by the field loop.
 */
module TxResultCodec {
  import opened Wire
  import opened Records
  import opened Fields
  import opened Grammar
  import opened Options

  datatype TxResult = TxResult(
    height: int64,
    txIndex: uint32,
    msgIndex: uint32,
    ethTxIndex: int32,
    failed: bool,
    gasUsed: uint64,
    cumulativeGasUsed: uint64)

  /** A message just allocated: every field is zero. */
  const FRESH: TxResult := TxResult(0, 0, 0, 0, false, 0, 0)

  const SCHEMA: Schema := map[1 := 0, 2 := 0, 3 := 0, 4 := 0, 5 := 0, 6 := 0, 7 := 0]

  // ---------------------------------------------------------------------------------------
  // Encoding
  // ---------------------------------------------------------------------------------------

  /** The fields as the 64-bit values that go on the wire, in order of field number. */
  function Raws(m: TxResult): (raws: seq<uint64>)
    ensures |raws| == 7
  {
    [Low64(m.height), m.txIndex, m.msgIndex, Low64(m.ethTxIndex), if m.failed then 1 else 0,
     m.gasUsed, m.cumulativeGasUsed]
  }

  /** A zero field is left out; any other is a one-byte tag and a varint. */
  function Chunk(k: nat, v: uint64): seq<byte>
    requires 1 <= k <= 7
  {
    if v == 0 then [] else [8 * k] + EncodeVarint(v)
  }

  function EncodeFrom(raws: seq<uint64>, k: nat): seq<byte>
    requires |raws| == 7 && 1 <= k <= 8
    decreases 8 - k
  {
    if k == 8 then [] else Chunk(k, raws[k - 1]) + EncodeFrom(raws, k + 1)
  }

  function Encode(m: TxResult): seq<byte> {
    EncodeFrom(Raws(m), 1)
  }

  // ---------------------------------------------------------------------------------------
  // Decoding
  // ---------------------------------------------------------------------------------------

  /** What one field occurrence does to the message. A cut-off `failed` flag is not stored. */
  function SetField(m: TxResult, f: Field): TxResult {
    match f
    case BytesField(_, _) => m
    case VarintField(num, value, complete) =>
      match num
      case 1 => m.(height := Signed64(value))
      case 2 => m.(txIndex := Low32(value))
      case 3 => m.(msgIndex := Low32(value))
      case 4 => m.(ethTxIndex := Signed32(value))
      case 5 => if complete then m.(failed := Low64(value) != 0) else m
      case 6 => m.(gasUsed := Low64(value))
      case 7 => m.(cumulativeGasUsed := Low64(value))
      case _ => m
  }

  function SetAll(m: TxResult, fs: seq<Field>): TxResult
    decreases |fs|
  {
    if fs == [] then m else SetAll(SetField(m, fs[0]), fs[1..])
  }

  lemma {:induction false} SetAllConcat(m: TxResult, fs: seq<Field>, gs: seq<Field>)
    ensures SetAll(m, fs + gs) == SetAll(SetAll(m, fs), gs)
    decreases |fs|
  {
    if fs == [] {
      assert fs + gs == gs;
    } else {
      assert (fs + gs)[1..] == fs[1..] + gs;
      SetAllConcat(SetField(m, fs[0]), fs[1..], gs);
    }
  }

  datatype Decoded = Decoded(msg: TxResult, err: Error)

  /** The message left behind by `Unmarshal`, also when it fails, and the error it returns. */
  ghost function Decode(m: TxResult, s: seq<byte>): Decoded {
    var p := Parse(SCHEMA, s);
    Decoded(SetAll(m, p.fields), p.err)
  }

  // ---------------------------------------------------------------------------------------
  // The generated methods
  // ---------------------------------------------------------------------------------------

  class Message {
    var height: int64
    var txIndex: uint32
    var msgIndex: uint32
    var ethTxIndex: int32
    var failed: bool
    var gasUsed: uint64
    var cumulativeGasUsed: uint64

    constructor ()
      ensures Value() == FRESH
    {
      height, txIndex, msgIndex, ethTxIndex := 0, 0, 0, 0;
      failed, gasUsed, cumulativeGasUsed := false, 0, 0;
    }

    function Value(): TxResult
      reads this
    {
      TxResult(height, txIndex, msgIndex, ethTxIndex, failed, gasUsed, cumulativeGasUsed)
    }

    /** Counts bytes from the bit lengths, without encoding anything. */
    method Size() returns (n: nat)
      ensures n == |Encode(Value())|
    {
      n := FieldSize(Low64(height)) + FieldSize(txIndex) + FieldSize(msgIndex) + FieldSize(Low64(ethTxIndex));
      n := n + (if failed then 2 else 0) + FieldSize(gasUsed) + FieldSize(cumulativeGasUsed);
      SizeIsLength(Value());
    }

    /** Fills the end of the buffer, last field first. */
    method MarshalToSizedBuffer(dAtA: array<byte>) returns (n: nat)
      requires |Encode(Value())| <= dAtA.Length
      modifies dAtA
      ensures n == |Encode(Value())|
      ensures dAtA[..] == old(dAtA[..dAtA.Length - n]) + Encode(Value())
    {
      n := WriteFields(Value(), dAtA);
    }

    method Marshal() returns (dAtA: array<byte>)
      ensures fresh(dAtA) && dAtA[..] == Encode(Value())
    {
      var size := Size();
      dAtA := new byte[size];
      var n := MarshalToSizedBuffer(dAtA);
      assert dAtA[..] == [] + Encode(Value());
    }

    /** The `switch fieldNum`: a varint is accumulated into the field it belongs to. */
    method ReadField(fieldNum: int, dAtA: seq<byte>, start: nat) returns (iNdEx: nat, err: Error)
      requires start <= |dAtA| && 1 <= fieldNum <= 7
      modifies this
      ensures start <= iNdEx <= |dAtA| && Scan(iNdEx, err) == ScanVarint(dAtA, start)
      ensures Value() == SetField(old(Value()), VarintField(fieldNum, Leb(dAtA, start, iNdEx), err == NoError))
    {
      var value;
      if fieldNum in {2, 3, 4} {
        value, iNdEx, err := ReadVarint(dAtA, start, 32);
        if fieldNum == 2 {
          txIndex := value;
        } else if fieldNum == 3 {
          msgIndex := value;
        } else {
          ethTxIndex := Signed32(value);
        }
      } else {
        value, iNdEx, err := ReadVarint(dAtA, start, 64);
        if fieldNum == 1 {
          height := Signed64(value);
        } else if fieldNum == 5 {
          if err == NoError {
            failed := value != 0;
          }
        } else if fieldNum == 6 {
          gasUsed := value;
        } else {
          cumulativeGasUsed := value;
        }
      }
    }

    /** One turn of the loop: a known field, or an unknown record that is skipped. */
    method UnmarshalField(dAtA: seq<byte>, preIndex: nat, ghost steps: seq<Step>) returns (iNdEx: nat, err: Error)
      requires preIndex < |dAtA| < TWO_63 && StepsOver(steps, SCHEMA, dAtA)
      modifies this
      ensures err == steps[preIndex].err && (err == NoError ==> iNdEx == steps[preIndex].end)
      ensures Value() == SetAll(old(Value()), steps[preIndex].fields)
    {
      assert steps[preIndex] == ScanField(SCHEMA, dAtA, preIndex);
      var wire;
      wire, iNdEx, err := ReadVarint(dAtA, preIndex, 64);
      if err != NoError {
        return;
      }
      var fieldNum, wireType := FieldNumber(wire), wire % 8;
      if wireType == 4 {
        return iNdEx, EndGroup;
      }
      if fieldNum <= 0 {
        return iNdEx, IllegalTag;
      }
      if fieldNum <= 7 {
        if wireType != 0 {
          return iNdEx, WrongWireType;
        }
        iNdEx, err := ReadField(fieldNum, dAtA, iNdEx);
      } else {
        var skippy;
        skippy, err := Skip(dAtA[preIndex..]);
        if err != NoError {
          return;
        }
        if preIndex + skippy >= TWO_63 {
          return iNdEx, InvalidLength;
        }
        if preIndex + skippy > |dAtA| {
          return iNdEx, UnexpectedEOF;
        }
        iNdEx := preIndex + skippy;
      }
    }

    method Unmarshal(dAtA: seq<byte>) returns (err: Error)
      requires |dAtA| < TWO_63
      modifies this
      ensures Decoded(Value(), err) == Decode(old(Value()), dAtA)
    {
      var l := |dAtA|;
      var iNdEx := 0;
      ghost var steps := Steps(SCHEMA, dAtA);
      ghost var done: seq<Field> := [];
      while iNdEx < l
        invariant iNdEx <= l
        invariant Value() == SetAll(old(Value()), done)
        invariant Parse(SCHEMA, dAtA) == Prepend(done, ParseFrom(steps, iNdEx))
        decreases l - iNdEx
      {
        ghost var i := iNdEx;
        iNdEx, err := UnmarshalField(dAtA, iNdEx, steps);
        SetAllConcat(old(Value()), done, steps[i].fields);
        if err != NoError {
          return;
        }
        AppendAssoc(done, steps[i].fields, ParseFrom(steps, iNdEx).fields);
        done := done + steps[i].fields;
      }
      assert done + [] == done;
      err := NoError;
    }
  }

  method WriteFields(m: TxResult, dAtA: array<byte>) returns (n: nat)
    requires |Encode(m)| <= dAtA.Length
    modifies dAtA
    ensures n == |Encode(m)|
    ensures dAtA[..] == old(dAtA[..dAtA.Length - n]) + Encode(m)
  {
    ghost var raws, tails := Layout(m);
    ghost var w := Writing(raws, tails, dAtA[..]);
    var i := PutOutcome(m, dAtA, w);
    i := PutPosition(m, dAtA, i, w);
    n := dAtA.Length - i;
  }

  /** The last three fields: what the transaction did. */
  method PutOutcome(m: TxResult, dAtA: array<byte>, ghost w: Writing) returns (i: nat)
    requires Written(w, dAtA[..], dAtA.Length, 7)
    requires w.raws[4] == (if m.failed then 1 else 0) && w.raws[5] == m.gasUsed && w.raws[6] == m.cumulativeGasUsed
    modifies dAtA
    ensures Written(w, dAtA[..], i, 4)
  {
    i := PutField(dAtA, dAtA.Length, 7, m.cumulativeGasUsed, w);
    i := PutField(dAtA, i, 6, m.gasUsed, w);
    i := PutField(dAtA, i, 5, if m.failed then 1 else 0, w);
  }

  /** The first four fields: where the transaction is. */
  method PutPosition(m: TxResult, dAtA: array<byte>, start: nat, ghost w: Writing) returns (i: nat)
    requires Written(w, dAtA[..], start, 4)
    requires w.raws[0] == Low64(m.height) && w.raws[1] == m.txIndex
    requires w.raws[2] == m.msgIndex && w.raws[3] == Low64(m.ethTxIndex)
    modifies dAtA
    ensures Written(w, dAtA[..], i, 0)
  {
    i := PutField(dAtA, start, 4, Low64(m.ethTxIndex), w);
    i := PutField(dAtA, i, 3, m.msgIndex, w);
    i := PutField(dAtA, i, 2, m.txIndex, w);
    i := PutField(dAtA, i, 1, Low64(m.height), w);
  }

  /** Bytes taken by one varint field; zero if it is left out. */
  function FieldSize(v: uint64): nat {
    if v == 0 then 0 else 1 + Sov(v)
  }

  /** `tails[k]` is the encoding of the fields after the `k`-th. */
  ghost predicate TailsOf(tails: seq<seq<byte>>, raws: seq<uint64>) {
    && |raws| == 7 && |tails| == 8
    && tails[7] == []
    && forall k: nat {:trigger EncodeFrom(raws, k)} | 1 <= k <= 8 :: tails[k - 1] == EncodeFrom(raws, k)
  }

  lemma Layout(m: TxResult) returns (raws: seq<uint64>, tails: seq<seq<byte>>)
    ensures TailsOf(tails, raws) && tails[0] == Encode(m)
    ensures raws[0] == Low64(m.height) && raws[1] == m.txIndex && raws[2] == m.msgIndex
    ensures raws[3] == Low64(m.ethTxIndex) && raws[4] == (if m.failed then 1 else 0)
    ensures raws[5] == m.gasUsed && raws[6] == m.cumulativeGasUsed
    ensures forall k | 0 <= k < 8 :: |tails[k]| <= |tails[0]|
  {
    raws := Raws(m);
    tails := Tails(raws);
  }

  lemma Tails(raws: seq<uint64>) returns (tails: seq<seq<byte>>)
    requires |raws| == 7
    ensures TailsOf(tails, raws)
    ensures tails[0] == EncodeFrom(raws, 1)
    ensures forall k | 0 <= k < 8 :: |tails[k]| <= |tails[0]|
  {
    tails := seq(8, (k: nat) requires k < 8 => EncodeFrom(raws, k + 1));
    forall k | 0 <= k < 8
      ensures |tails[k]| <= |tails[0]|
    {
      TailsShrink(raws, 1, k + 1);
    }
  }

  lemma {:induction false} TailsShrink(raws: seq<uint64>, j: nat, k: nat)
    requires |raws| == 7 && 1 <= j <= k <= 8
    ensures |EncodeFrom(raws, k)| <= |EncodeFrom(raws, j)|
    decreases k - j
  {
    if j < k {
      TailsShrink(raws, j + 1, k);
    }
  }

  /** What is being written, and the buffer it is written over. */
  datatype Writing = Writing(raws: seq<uint64>, tails: seq<seq<byte>>, before: seq<byte>)

  /** The buffer ends in the encoding of the fields after the `k`-th and is otherwise untouched. */
  ghost predicate Written(w: Writing, bytes: seq<byte>, i: int, k: nat) {
    && TailsOf(w.tails, w.raws) && k <= 7
    && |w.before| == |bytes| && i == |bytes| - |w.tails[k]|
    && (forall j | 0 <= j <= k :: |w.tails[j]| <= |bytes|)
    && bytes == w.before[..i] + w.tails[k]
  }

  /** One `if` of the marshaller: the varint, and in front of it the tag byte. */
  method PutField(dAtA: array<byte>, i: nat, k: nat, v: uint64, ghost w: Writing) returns (base: nat)
    requires Written(w, dAtA[..], i, k) && k > 0 && v == w.raws[k - 1]
    modifies dAtA
    ensures Written(w, dAtA[..], base, k - 1)
  {
    base := i;
    FieldFits(w, dAtA[..], i, k);
    if v != 0 {
      ghost var bytes := dAtA[..];
      base := WriteTagged(dAtA, i, 8 * k, v);
      assert dAtA[..] == bytes[..base] + ([8 * k] + EncodeVarint(v)) + bytes[i..];
      FieldWritten(w, bytes, i, k, dAtA[..], base);
    }
  }

  lemma FieldFits(w: Writing, bytes: seq<byte>, i: nat, k: nat)
    requires Written(w, bytes, i, k) && k > 0
    ensures if w.raws[k - 1] == 0 then Written(w, bytes, i, k - 1) else |EncodeVarint(w.raws[k - 1])| < i
  {
    TailStep(w.tails, w.raws, k);
    assert |w.tails[k - 1]| <= |bytes|;
  }

  lemma FieldWritten(w: Writing, bytes: seq<byte>, i: nat, k: nat, after: seq<byte>, base: nat)
    requires Written(w, bytes, i, k) && k > 0 && w.raws[k - 1] != 0
    requires var field := [8 * k] + EncodeVarint(w.raws[k - 1]);
             base + |field| == i && after == bytes[..base] + field + bytes[i..]
    ensures Written(w, after, base, k - 1)
  {
    TailStep(w.tails, w.raws, k);
    assert bytes[..base] == w.before[..base] && bytes[i..] == w.tails[k];
  }

  lemma TailStep(tails: seq<seq<byte>>, raws: seq<uint64>, k: nat)
    requires TailsOf(tails, raws) && 1 <= k <= 7
    ensures tails[k - 1] == if raws[k - 1] == 0 then tails[k] else [8 * k] + EncodeVarint(raws[k - 1]) + tails[k]
  {
    assert tails[k - 1] == EncodeFrom(raws, k);
    assert tails[k] == EncodeFrom(raws, k + 1);
  }

  lemma ChunkSize(tails: seq<seq<byte>>, raws: seq<uint64>, k: nat)
    requires TailsOf(tails, raws) && 1 <= k <= 7
    ensures |tails[k - 1]| == FieldSize(raws[k - 1]) + |tails[k]|
    ensures FieldSize(0) == 0 && FieldSize(1) == 2
  {
    TailStep(tails, raws, k);
    SovIsLength(raws[k - 1]);
    SovIsLength(1);
  }

  lemma OutcomeSize(tails: seq<seq<byte>>, raws: seq<uint64>)
    requires TailsOf(tails, raws)
    ensures |tails[4]| == FieldSize(raws[4]) + FieldSize(raws[5]) + FieldSize(raws[6])
  {
    ChunkSize(tails, raws, 5);
    ChunkSize(tails, raws, 6);
    ChunkSize(tails, raws, 7);
  }

  lemma PositionSize(tails: seq<seq<byte>>, raws: seq<uint64>)
    requires TailsOf(tails, raws)
    ensures |tails[0]| ==
            FieldSize(raws[0]) + FieldSize(raws[1]) + FieldSize(raws[2]) + FieldSize(raws[3]) + |tails[4]|
  {
    ChunkSize(tails, raws, 1);
    ChunkSize(tails, raws, 2);
    ChunkSize(tails, raws, 3);
    ChunkSize(tails, raws, 4);
  }

  lemma SizeIsLength(m: TxResult)
    ensures |Encode(m)| ==
            FieldSize(Low64(m.height)) + FieldSize(m.txIndex) + FieldSize(m.msgIndex) + FieldSize(Low64(m.ethTxIndex)) +
            (if m.failed then 2 else 0) + FieldSize(m.gasUsed) + FieldSize(m.cumulativeGasUsed)
  {
    var raws, tails := Layout(m);
    OutcomeSize(tails, raws);
    PositionSize(tails, raws);
    ChunkSize(tails, raws, 1);
  }

  // ---------------------------------------------------------------------------------------
  // Round trips
  // ---------------------------------------------------------------------------------------

  /** The field occurrences of the encoding, from field `k` on. */
  function FieldsFrom(raws: seq<uint64>, k: nat): seq<Field>
    requires |raws| == 7 && 1 <= k <= 8
    decreases 8 - k
  {
    if k == 8 then []
    else (if raws[k - 1] == 0 then [] else [VarintField(k, raws[k - 1], true)]) + FieldsFrom(raws, k + 1)
  }

  lemma ParseChunk(k: nat, v: uint64)
    requires 1 <= k <= 7
    ensures Parse(SCHEMA, Chunk(k, v)) == Parsed(if v == 0 then [] else [VarintField(k, v, true)], NoError)
  {
    if v == 0 {
      ParseEmpty(SCHEMA);
    } else {
      ParseVarintChunk(SCHEMA, k, v);
    }
  }

  /** An encoding with unknown records before, between and after its fields. */
  function Padded(raws: seq<uint64>, pads: seq<seq<Record>>, k: nat): seq<byte>
    requires |raws| == 7 && |pads| == 8 && 1 <= k <= 8
    decreases 8 - k
  {
    AllBytes(pads[k - 1]) + if k == 8 then [] else Chunk(k, raws[k - 1]) + Padded(raws, pads, k + 1)
  }

  lemma {:induction false} ParsePadded(raws: seq<uint64>, pads: seq<seq<Record>>, k: nat)
    requires |raws| == 7 && |pads| == 8 && 1 <= k <= 8
    requires AllUnknown(pads)
    requires |Padded(raws, pads, k)| < TWO_63
    ensures Parse(SCHEMA, Padded(raws, pads, k)) == Parsed(FieldsFrom(raws, k), NoError)
    decreases 8 - k
  {
    var pad := AllBytes(pads[k - 1]);
    assert pads[k - 1] in pads;
    ParseUnknown(SCHEMA, pads[k - 1]);
    if k == 8 {
      assert pad + [] == pad;
    } else {
      ParsePadded(raws, pads, k + 1);
      ParseChunk(k, raws[k - 1]);
      ParseThree(pad, Chunk(k, raws[k - 1]), Padded(raws, pads, k + 1));
    }
  }

  predicate AllUnknown(pads: seq<seq<Record>>) {
    forall p, r | p in pads && r in p :: UnknownTo(SCHEMA, r)
  }

  lemma ParseThree(pad: seq<byte>, chunk: seq<byte>, rest: seq<byte>)
    requires |pad + (chunk + rest)| < TWO_63
    requires Parse(SCHEMA, pad) == Parsed([], NoError)
    requires Parse(SCHEMA, chunk).err == NoError && Parse(SCHEMA, rest).err == NoError
    ensures Parse(SCHEMA, pad + (chunk + rest))
         == Parsed(Parse(SCHEMA, chunk).fields + Parse(SCHEMA, rest).fields, NoError)
  {
    ParseConcat(SCHEMA, chunk, rest);
    ParseConcat(SCHEMA, pad, chunk + rest);
    var fields := Parse(SCHEMA, chunk).fields + Parse(SCHEMA, rest).fields;
    assert [] + fields == fields;
  }

  /** Protocol Buffers merge: a field that is present in `m` replaces the one in `x`. */
  function Merge(x: TxResult, m: TxResult): TxResult {
    TxResult(
      if m.height == 0 then x.height else m.height,
      if m.txIndex == 0 then x.txIndex else m.txIndex,
      if m.msgIndex == 0 then x.msgIndex else m.msgIndex,
      if m.ethTxIndex == 0 then x.ethTxIndex else m.ethTxIndex,
      x.failed || m.failed,
      if m.gasUsed == 0 then x.gasUsed else m.gasUsed,
      if m.cumulativeGasUsed == 0 then x.cumulativeGasUsed else m.cumulativeGasUsed)
  }

  function MergeField(x: TxResult, m: TxResult, k: nat): TxResult {
    match k
    case 1 => x.(height := if m.height == 0 then x.height else m.height)
    case 2 => x.(txIndex := if m.txIndex == 0 then x.txIndex else m.txIndex)
    case 3 => x.(msgIndex := if m.msgIndex == 0 then x.msgIndex else m.msgIndex)
    case 4 => x.(ethTxIndex := if m.ethTxIndex == 0 then x.ethTxIndex else m.ethTxIndex)
    case 5 => x.(failed := x.failed || m.failed)
    case 6 => x.(gasUsed := if m.gasUsed == 0 then x.gasUsed else m.gasUsed)
    case _ => x.(cumulativeGasUsed := if m.cumulativeGasUsed == 0 then x.cumulativeGasUsed else m.cumulativeGasUsed)
  }

  lemma SetIsMerge(x: TxResult, m: TxResult, k: nat)
    requires 1 <= k <= 7
    ensures MergeField(x, m, k) ==
            if Raws(m)[k - 1] == 0 then x else SetField(x, VarintField(k, Raws(m)[k - 1], true))
  {
    SignExtension(m.height, m.ethTxIndex);
  }

  lemma SignExtension(h: int64, e: int32)
    ensures Signed64(Low64(h)) == h && Signed32(Low64(e)) == e
    ensures (Low64(h) == 0 <==> h == 0) && (Low64(e) == 0 <==> e == 0)
  {
  }

  lemma SetFrom(x: TxResult, m: TxResult, k: nat)
    requires 1 <= k <= 7
    ensures SetAll(x, FieldsFrom(Raws(m), k)) == SetAll(MergeField(x, m, k), FieldsFrom(Raws(m), k + 1))
  {
    var raws := Raws(m);
    var here := if raws[k - 1] == 0 then [] else [VarintField(k, raws[k - 1], true)];
    SetAllConcat(x, here, FieldsFrom(raws, k + 1));
    SetIsMerge(x, m, k);
    if raws[k - 1] != 0 {
      assert here[1..] == [];
    }
  }

  /** Merging the fields from `k` on, one after the other. */
  function MergeFrom(x: TxResult, m: TxResult, k: nat): TxResult
    requires 1 <= k <= 8
    decreases 8 - k
  {
    if k == 8 then x else MergeFrom(MergeField(x, m, k), m, k + 1)
  }

  lemma {:induction false} SetAllFrom(x: TxResult, m: TxResult, k: nat)
    requires 1 <= k <= 8
    ensures SetAll(x, FieldsFrom(Raws(m), k)) == MergeFrom(x, m, k)
    decreases 8 - k
  {
    if k < 8 {
      SetFrom(x, m, k);
      SetAllFrom(MergeField(x, m, k), m, k + 1);
    }
  }

  lemma MergeByFields(x: TxResult, m: TxResult)
    ensures MergeFrom(x, m, 1) == Merge(x, m)
  {
    var x3 := MergeField(MergeField(MergeField(x, m, 1), m, 2), m, 3);
    var x6 := MergeField(MergeField(MergeField(x3, m, 4), m, 5), m, 6);
    assert MergeFrom(x, m, 1) == MergeFrom(x3, m, 4) == MergeFrom(x6, m, 7) == MergeField(x6, m, 7);
  }

  /** Decoding the fields of `m` onto `x` merges `m` into `x`. */
  lemma SetAllIsMerge(x: TxResult, m: TxResult)
    ensures SetAll(x, FieldsFrom(Raws(m), 1)) == Merge(x, m)
  {
    SetAllFrom(x, m, 1);
    MergeByFields(x, m);
  }

  /**
   Whatever unknown records are put before, between and after the fields of an encoding,
   decoding it onto a message merges the encoded message into it.
   */
  lemma DecodePadded(x: TxResult, m: TxResult, pads: seq<seq<Record>>)
    requires |pads| == 8 && AllUnknown(pads)
    requires |Padded(Raws(m), pads, 1)| < TWO_63
    ensures Decode(x, Padded(Raws(m), pads, 1)) == Decoded(Merge(x, m), NoError)
  {
    ParsePadded(Raws(m), pads, 1);
    SetAllIsMerge(x, m);
  }

  lemma {:induction false} PaddedWithNothing(raws: seq<uint64>, pads: seq<seq<Record>>, k: nat)
    requires |raws| == 7 && |pads| == 8 && 1 <= k <= 8
    requires forall p | p in pads :: p == []
    ensures Padded(raws, pads, k) == EncodeFrom(raws, k)
    decreases 8 - k
  {
    assert pads[k - 1] in pads;
    if k < 8 {
      PaddedWithNothing(raws, pads, k + 1);
    }
  }

  /** An encoded message has at most 77 bytes. */
  lemma {:induction false} EncodeFromLength(raws: seq<uint64>, k: nat)
    requires |raws| == 7 && 1 <= k <= 8
    ensures |EncodeFrom(raws, k)| <= 11 * (8 - k)
    decreases 8 - k
  {
    if k < 8 {
      EncodeVarintCorrect(raws[k - 1]);
      EncodeFromLength(raws, k + 1);
    }
  }

  lemma DecodeEncodeOnto(x: TxResult, m: TxResult)
    ensures Decode(x, Encode(m)) == Decoded(Merge(x, m), NoError)
  {
    var pads: seq<seq<Record>> := [[], [], [], [], [], [], [], []];
    PaddedWithNothing(Raws(m), pads, 1);
    EncodeFromLength(Raws(m), 1);
    DecodePadded(x, m, pads);
  }

  /** Unmarshalling what `Marshal` wrote into a fresh message gives the message back. */
  lemma RoundTrip(m: TxResult)
    ensures Decode(FRESH, Encode(m)) == Decoded(m, NoError)
  {
    DecodeEncodeOnto(FRESH, m);
  }

  lemma EncodeInjective(m: TxResult, m': TxResult)
    requires Encode(m) == Encode(m')
    ensures m == m'
  {
    RoundTrip(m);
    RoundTrip(m');
  }

  /** The encoding is empty exactly for the message with all fields zero. */
  lemma EncodeEmpty(m: TxResult)
    ensures Encode(m) == [] <==> m == FRESH
  {
    if Encode(m) == [] {
      RoundTrip(m);
      ParseEmpty(SCHEMA);
    }
    assert Encode(FRESH) == [] by {
      var raws, tails := Layout(FRESH);
      SizeIsLength(FRESH);
    }
  }

  /**
   Last one wins: if `x` decodes onto `m`, then `x + y` decodes onto `m` exactly when `y` decodes
   onto the result, and to the same message.
   */
  lemma DecodeConcat(m: TxResult, x: seq<byte>, y: seq<byte>)
    requires |x + y| < TWO_63 && Decode(m, x).err == NoError
    ensures Decode(m, x + y).err == NoError <==> Decode(Decode(m, x).msg, y).err == NoError
    ensures Decode(m, x + y).err == NoError ==> Decode(m, x + y) == Decode(Decode(m, x).msg, y)
  {
    ParseConcat(SCHEMA, x, y);
    if Parse(SCHEMA, y).err == NoError {
      SetAllConcat(m, Parse(SCHEMA, x).fields, Parse(SCHEMA, y).fields);
    }
  }

  // ---------------------------------------------------------------------------------------
  // Which inputs decode, and to what
  // ---------------------------------------------------------------------------------------

  /** The records of a stored result: any with a positive field number, where fields 1 to 7 are varints. */
  predicate ResultRecords(rs: seq<Record>) {
    forall r | r in rs :: WellFormed(r) && Number(r) > 0 && (Number(r) <= 7 ==> r.VarintRecord?)
  }

  lemma ResultRecordsAcceptable(rs: seq<Record>)
    ensures ResultRecords(rs) <==> AllAcceptable(SCHEMA, rs)
  {
    forall r | r in rs
      ensures WellFormed(r) && Number(r) > 0 && (Number(r) <= 7 ==> r.VarintRecord?) <==> Acceptable(SCHEMA, r)
    {
      assert Number(r) > 0 ==> (Number(r) in SCHEMA <==> Number(r) <= 7);
    }
  }

  /** Every field has the value read for it, at its width and sign; without one it keeps its value. */
  predicate Reads(m: TxResult, vs: seq<Option<nat>>, r: TxResult)
    requires |vs| == 7
  {
    && r.height == (if vs[0].Some? then Signed64(vs[0].value) else m.height)
    && r.txIndex == (if vs[1].Some? then Low32(vs[1].value) else m.txIndex)
    && r.msgIndex == (if vs[2].Some? then Low32(vs[2].value) else m.msgIndex)
    && r.ethTxIndex == (if vs[3].Some? then Signed32(vs[3].value) else m.ethTxIndex)
    && r.failed == (if vs[4].Some? then Low64(vs[4].value) != 0 else m.failed)
    && r.gasUsed == (if vs[5].Some? then Low64(vs[5].value) else m.gasUsed)
    && r.cumulativeGasUsed == (if vs[6].Some? then Low64(vs[6].value) else m.cumulativeGasUsed)
  }

  /** The numbers in the last records of the seven fields. */
  function Lasts(rs: seq<Record>): (vs: seq<Option<nat>>)
    ensures |vs| == 7
  {
    [LastVarint(rs, 1), LastVarint(rs, 2), LastVarint(rs, 3), LastVarint(rs, 4), LastVarint(rs, 5), LastVarint(rs, 6),
     LastVarint(rs, 7)]
  }

  predicate ReadsLast(m: TxResult, rs: seq<Record>, r: TxResult) {
    Reads(m, Lasts(rs), r)
  }

  lemma {:induction false} SetAllReadsLast(m: TxResult, rs: seq<Record>)
    ensures ReadsLast(m, rs, SetAll(m, FieldsOf(SCHEMA, rs)))
    decreases |rs|
  {
    if rs != [] {
      var front, r := rs[..|rs| - 1], rs[|rs| - 1];
      assert rs == front + [r];
      SetAllReadsLast(m, front);
      FieldsOfLast(SCHEMA, front, r);
      SetAllConcat(m, FieldsOf(SCHEMA, front), FieldOf(SCHEMA, r));
      SetReadsLast(m, front, r, SetAll(m, FieldsOf(SCHEMA, front)));
    }
  }

  lemma SetReadsLast(m: TxResult, front: seq<Record>, r: Record, x: TxResult)
    requires ReadsLast(m, front, x)
    ensures ReadsLast(m, front + [r], SetAll(x, FieldOf(SCHEMA, r)))
  {
    LastsAppend(front, r);
    if r.VarintRecord? && 1 <= Number(r) <= 7 {
      var value := Leb(r.value, 0, |r.value|);
      SetSingle(x, VarintField(Number(r), value, true));
      SetReads(m, Lasts(front), x, Number(r), value);
    } else {
      SetIgnored(x, r);
    }
  }

  lemma SetSingle(x: TxResult, field: Field)
    ensures SetAll(x, [field]) == SetField(x, field)
  {
    assert [field][1..] == [];
  }

  lemma SetIgnored(x: TxResult, r: Record)
    requires !(r.VarintRecord? && 1 <= Number(r) <= 7)
    ensures SetAll(x, FieldOf(SCHEMA, r)) == x
  {
    if FieldOf(SCHEMA, r) != [] {
      SetSingle(x, FieldOf(SCHEMA, r)[0]);
    }
  }

  lemma LastsAppend(front: seq<Record>, r: Record)
    ensures Lasts(front + [r]) ==
            if r.VarintRecord? && 1 <= Number(r) <= 7 then Lasts(front)[Number(r) - 1 := Some(Leb(r.value, 0, |r.value|))]
            else Lasts(front)
  {
    LastOfAppend(front, r, 1);
    LastOfAppend(front, r, 2);
    LastOfAppend(front, r, 3);
    LastOfAppend(front, r, 4);
    LastOfAppend(front, r, 5);
    LastOfAppend(front, r, 6);
    LastOfAppend(front, r, 7);
  }

  lemma SetReads(m: TxResult, vs: seq<Option<nat>>, x: TxResult, k: nat, v: nat)
    requires |vs| == 7 && Reads(m, vs, x) && 1 <= k <= 7
    ensures Reads(m, vs[k - 1 := Some(v)], SetField(x, VarintField(k, v, true)))
  {
    if k <= 3 {
      SetReadsFirst(m, vs, x, k, v);
    } else {
      SetReadsRest(m, vs, x, k, v);
    }
  }

  lemma SetReadsFirst(m: TxResult, vs: seq<Option<nat>>, x: TxResult, k: nat, v: nat)
    requires |vs| == 7 && Reads(m, vs, x) && 1 <= k <= 3
    ensures Reads(m, vs[k - 1 := Some(v)], SetField(x, VarintField(k, v, true)))
  {
  }

  lemma SetReadsRest(m: TxResult, vs: seq<Option<nat>>, x: TxResult, k: nat, v: nat)
    requires |vs| == 7 && Reads(m, vs, x) && 4 <= k <= 7
    ensures Reads(m, vs[k - 1 := Some(v)], SetField(x, VarintField(k, v, true)))
  {
  }

  /**
   Bytes decode exactly when they are a sequence of records whose declared fields are varints, and
   then every field is that of its last record.
   */
  lemma DecodeExactly(m: TxResult, s: seq<byte>)
    requires |s| < TWO_63
    ensures Decode(m, s).err == NoError <==> exists rs :: ResultRecords(rs) && AllBytes(rs) == s
    ensures forall rs | ResultRecords(rs) && AllBytes(rs) == s :: ReadsLast(m, rs, Decode(m, s).msg)
  {
    ParseExactly(SCHEMA, s);
    if Decode(m, s).err == NoError {
      var rs :| AllAcceptable(SCHEMA, rs) && AllBytes(rs) == s;
      ResultRecordsAcceptable(rs);
    }
    forall rs | ResultRecords(rs) && AllBytes(rs) == s
      ensures Decode(m, s).err == NoError && ReadsLast(m, rs, Decode(m, s).msg)
    {
      ResultRecordsAcceptable(rs);
      ParseRecords(SCHEMA, rs);
      SetAllReadsLast(m, rs);
    }
  }

  /** The message after the varint of field `k` broke off with the value `v`. */
  function LeftWith(x: TxResult, k: int, v: nat): TxResult {
    match k
    case 1 => x.(height := Signed64(v))
    case 2 => x.(txIndex := Low32(v))
    case 3 => x.(msgIndex := Low32(v))
    case 4 => x.(ethTxIndex := Signed32(v))
    case 6 => x.(gasUsed := Low64(v))
    case 7 => x.(cumulativeGasUsed := Low64(v))
    case _ => x
  }

  lemma SetLeftWith(x: TxResult, k: int, v: nat)
    ensures SetAll(x, [VarintField(k, v, false)]) == LeftWith(x, k, v)
  {
    SetSingle(x, VarintField(k, v, false));
  }

  /**
   When a field is cut short or too long, the records before it are taken over, and the field is left
   with what could be read, except that the flag keeps its value.
   */
  lemma DecodeCutShort(m: TxResult, rs: seq<Record>, tag: seq<byte>, run: seq<byte>) returns (x: TxResult)
    requires ResultRecords(rs) && IsTag(tag, 0) && 1 <= TagNumber(tag) <= 7
    requires |AllBytes(rs) + (tag + run)| < TWO_63 && forall b | b in run :: b >= 128
    ensures ReadsLast(m, rs, x)
    ensures var d := Decode(m, AllBytes(rs) + (tag + run));
            && d.err == (if |run| < 10 then UnexpectedEOF else IntOverflow)
            && d.msg == LeftWith(x, TagNumber(tag), CutField(TagNumber(tag), run).value)
  {
    ResultRecordsAcceptable(rs);
    assert TagNumber(tag) in SCHEMA && SCHEMA[TagNumber(tag)] == 0;
    ParseCutShort(SCHEMA, rs, tag, run);
    x := DecodeOneMore(m, rs, TagNumber(tag), CutField(TagNumber(tag), run).value, AllBytes(rs) + (tag + run));
  }

  lemma DecodeOneMore(m: TxResult, rs: seq<Record>, k: int, v: nat, s: seq<byte>) returns (x: TxResult)
    requires Parse(SCHEMA, s).fields == FieldsOf(SCHEMA, rs) + [VarintField(k, v, false)]
    ensures ReadsLast(m, rs, x) && Decode(m, s).msg == LeftWith(x, k, v)
  {
    x := SetAll(m, FieldsOf(SCHEMA, rs));
    SetAllReadsLast(m, rs);
    SetAllConcat(m, FieldsOf(SCHEMA, rs), [VarintField(k, v, false)]);
    SetLeftWith(x, k, v);
  }

  /** Records followed by a bad tag are taken over, and the fault of the tag is reported. */
  lemma DecodeBadTag(m: TxResult, rs: seq<Record>, tag: seq<byte>, s: seq<byte>)
    requires ResultRecords(rs) && IsVarint(tag) && AllBytes(rs) + tag <= s && |s| < TWO_63 && TagFault(SCHEMA, tag) != NoError
    ensures Decode(m, s).err == TagFault(SCHEMA, tag) && ReadsLast(m, rs, Decode(m, s).msg)
  {
    ResultRecordsAcceptable(rs);
    ParseBadTag(SCHEMA, rs, tag, s);
    SetAllReadsLast(m, rs);
  }

  /** The encoding is in canonical form: the fields that are not zero, in order and in their shortest form. */
  lemma EncodeCanonical(m: TxResult) returns (rs: seq<Record>)
    ensures AllBytes(rs) == Encode(m) && ResultRecords(rs)
    ensures Ascending(rs) && forall r | r in rs :: Canonical(r) && Number(r) <= 7
  {
    rs := WrittenFrom(Raws(m), 1);
  }

  lemma {:induction false} WrittenFrom(raws: seq<uint64>, k: nat) returns (rs: seq<Record>)
    requires |raws| == 7 && 1 <= k <= 8
    ensures AllBytes(rs) == EncodeFrom(raws, k) && Ascending(rs)
    ensures forall r | r in rs :: WellFormed(r) && r.VarintRecord? && Canonical(r) && k <= Number(r) <= 7
    decreases 8 - k
  {
    rs := [];
    if k < 8 {
      rs := WrittenFrom(raws, k + 1);
      if raws[k - 1] != 0 {
        var r := WrittenVarint(k, raws[k - 1]);
        AllBytesPush(r, rs);
        rs := [r] + rs;
      }
    }
  }
}
