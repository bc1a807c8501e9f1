/**
 The encoding guide asks more of a record than the skipper does: a group has to end with the
 field number it started with, and field numbers have to be in range. The skipper counts open
 groups and looks at no field number. `SkippedIsGuideRecord` says exactly when what it skips is a
 record of the guide, by a scan that keeps the numbers of the open groups instead of their count.
 */
module Groups {
  import opened Wire
  import opened Records

  const MAX_FIELD_NUMBER: nat := 0x1FFF_FFFF

  predicate InRange(number: nat) {
    1 <= number <= MAX_FIELD_NUMBER
  }

  /** The field number that a tag carries. */
  function TagNumber(tag: seq<byte>): nat {
    Low64(Leb(tag, 0, |tag|)) / 8
  }

  /** What the guide asks of the tags of a record, at every depth. */
  predicate GuideTags(r: Record) {
    && InRange(TagNumber(r.tag))
    && (r.GroupRecord? ==> TagNumber(r.endTag) == TagNumber(r.tag) && forall x | x in r.body :: GuideTags(x))
  }

  /** A record of the encoding guide. */
  predicate GuideRecord(r: Record) {
    WellFormed(r) && GuideTags(r)
  }

  // ---------------------------------------------------------------------------------------
  // The scan of the guide
  // ---------------------------------------------------------------------------------------

  /** The field number of the tag at an index, zero if there is none. */
  function NumberAt(s: seq<byte>, i: nat): nat
    requires i <= |s|
  {
    var tag := ScanVarint(s, i);
    if tag.err != NoError then 0 else Low64(Leb(s, i, tag.end)) / 8
  }

  ghost predicate NumbersOver(numbers: seq<nat>, s: seq<byte>) {
    && |numbers| == |s|
    && forall i: nat {:trigger NumberAt(s, i)} | i < |s| :: numbers[i] == NumberAt(s, i)
  }

  ghost function Numbers(s: seq<byte>): (numbers: seq<nat>)
    ensures NumbersOver(numbers, s)
  {
    assert NumbersOver(seq(|s|, i requires 0 <= i < |s| => NumberAt(s, i)), s);
    var numbers :| NumbersOver(numbers, s);
    numbers
  }

  /** The skip loop with a stack of the field numbers of the open groups, innermost first. */
  ghost function StrictLoop(turns: seq<Item>, numbers: seq<nat>, i: nat, stack: seq<nat>): Scan
    requires AreTurns(turns) && |numbers| == |turns|
    decreases |turns| - i
  {
    if i >= |turns| then Scan(0, UnexpectedEOF)
    else
      var it, number := turns[i], numbers[i];
      if it.err != NoError then Scan(0, it.err)
      else if !InRange(number) then Scan(0, IllegalTag)
      else if it.wireType == 4 && (stack == [] || stack[0] != number) then Scan(0, UnexpectedEndOfGroup)
      else if it.end >= TWO_63 then Scan(0, InvalidLength)
      else
        var next := OpenAfter(it.wireType, number, stack);
        if next == [] then Scan(it.end, NoError) else StrictLoop(turns, numbers, it.end, next)
  }

  ghost function StrictEnd(turns: seq<Item>, numbers: seq<nat>, i: nat, stack: seq<nat>): Scan
    requires AreTurns(turns) && |numbers| == |turns|
  {
    if stack == [] then Scan(i, NoError) else StrictLoop(turns, numbers, i, stack)
  }

  function OpenAfter(wireType: nat, number: nat, stack: seq<nat>): seq<nat>
    requires wireType == 4 ==> stack != []
  {
    if wireType == 3 then [number] + stack else if wireType == 4 then stack[1..] else stack
  }

  ghost function StrictSpec(s: seq<byte>): Scan {
    StrictLoop(Turns(s), Numbers(s), 0, [])
  }

  // ---------------------------------------------------------------------------------------
  // The scan passes over a record exactly when its tags are those of the guide
  // ---------------------------------------------------------------------------------------

  lemma NumberOfTag(numbers: seq<nat>, s: seq<byte>, i: nat, tag: seq<byte>)
    requires NumbersOver(numbers, s) && IsVarint(tag) && At(s, i, tag)
    ensures i < |s| && numbers[i] == TagNumber(tag)
  {
    ScanFinds(s, i, tag);
    assert numbers[i] == NumberAt(s, i);
  }

  lemma TagInFront(s: seq<byte>, i: nat, r: Record)
    requires WellFormed(r) && At(s, i, Bytes(r))
    ensures IsVarint(r.tag) && At(s, i, r.tag)
  {
    AtSplit(s, i, r.tag, Bytes(r)[|r.tag|..]) by {
      assert r.tag + Bytes(r)[|r.tag|..] == Bytes(r);
    }
  }

  /** The scan carries on behind the part up to `end` if `good`, and otherwise fails. */
  ghost predicate Passes(turns: seq<Item>, numbers: seq<nat>, i: nat, end: nat, stack: seq<nat>, good: bool)
    requires AreTurns(turns) && |numbers| == |turns|
  {
    if good then StrictLoop(turns, numbers, i, stack) == StrictEnd(turns, numbers, end, stack)
    else StrictLoop(turns, numbers, i, stack).err != NoError
  }

  lemma {:induction false} StrictRecord(turns: seq<Item>, numbers: seq<nat>, s: seq<byte>, i: nat, r: Record,
                                        stack: seq<nat>)
    requires TurnsOver(turns, s) && NumbersOver(numbers, s) && |s| < TWO_63
    requires WellFormed(r) && At(s, i, Bytes(r))
    ensures Passes(turns, numbers, i, i + |Bytes(r)|, stack, GuideTags(r))
    decreases r, 1
  {
    TagInFront(s, i, r);
    NumberOfTag(numbers, s, i, r.tag);
    if r.GroupRecord? {
      var j, e := GroupParts(turns, numbers, s, i, r);
      StrictRecords(turns, numbers, s, j, r, r.body, [TagNumber(r.tag)] + stack);
      GroupPasses(turns, numbers, i, j, e, e + |r.endTag|, stack, AllGuideTags(r.body));
    } else {
      PlainTurn(turns, s, i, r);
      PlainPasses(turns, numbers, i, i + |Bytes(r)|, stack);
    }
  }

  /** Where the body of a group starts and ends, and the turns before and after it. */
  lemma GroupParts(turns: seq<Item>, numbers: seq<nat>, s: seq<byte>, i: nat, r: Record) returns (j: nat, e: nat)
    requires TurnsOver(turns, s) && NumbersOver(numbers, s) && |s| < TWO_63
    requires WellFormed(r) && r.GroupRecord? && At(s, i, Bytes(r))
    ensures j == i + |r.tag| && e == j + |AllBytes(r.body)| && i < |s| && e < |s| && At(s, j, AllBytes(r.body))
    ensures turns[i] == Item(3, j, NoError) && turns[e] == Item(4, e + |r.endTag|, NoError)
    ensures numbers[e] == TagNumber(r.endTag)
  {
    AtSplit(s, i, r.tag + AllBytes(r.body), r.endTag);
    AtSplit(s, i, r.tag, AllBytes(r.body));
    TagTurn(turns, s, i, r.tag, 3);
    j := i + |r.tag|;
    e := j + |AllBytes(r.body)|;
    TagTurn(turns, s, e, r.endTag, 4);
    NumberOfTag(numbers, s, e, r.endTag);
  }

  predicate AllGuideTags(rs: seq<Record>) {
    forall x | x in rs :: GuideTags(x)
  }

  lemma GroupPasses(turns: seq<Item>, numbers: seq<nat>, i: nat, j: nat, e: nat, k: nat, stack: seq<nat>, good: bool)
    requires AreTurns(turns) && |numbers| == |turns| && i < |turns| && e < |turns| && j < TWO_63 && k < TWO_63
    requires turns[i] == Item(3, j, NoError) && turns[e] == Item(4, k, NoError)
    requires Passes(turns, numbers, j, e, [numbers[i]] + stack, good)
    ensures Passes(turns, numbers, i, k, stack, InRange(numbers[i]) && numbers[e] == numbers[i] && good)
  {
    assert ([numbers[i]] + stack)[1..] == stack;
  }

  lemma PlainPasses(turns: seq<Item>, numbers: seq<nat>, i: nat, k: nat, stack: seq<nat>)
    requires AreTurns(turns) && |numbers| == |turns| && i < |turns| && k < TWO_63
    requires turns[i].err == NoError && turns[i].end == k && turns[i].wireType !in {3, 4}
    ensures Passes(turns, numbers, i, k, stack, InRange(numbers[i]))
  {
  }

  lemma {:induction false} StrictRecords(turns: seq<Item>, numbers: seq<nat>, s: seq<byte>, i: nat, parent: Record,
                                         rs: seq<Record>, stack: seq<nat>)
    requires TurnsOver(turns, s) && NumbersOver(numbers, s) && |s| < TWO_63 && stack != []
    requires forall x | x in rs :: WellFormed(x) && x < parent
    requires At(s, i, AllBytes(rs))
    ensures Passes(turns, numbers, i, i + |AllBytes(rs)|, stack, AllGuideTags(rs))
    decreases parent, 0, |rs|
  {
    if rs != [] {
      var r := rs[0];
      assert r in rs;
      AtSplit(s, i, Bytes(r), AllBytes(rs[1..]));
      StrictRecord(turns, numbers, s, i, r, stack);
      var j := i + |Bytes(r)|;
      StrictRecords(turns, numbers, s, j, parent, rs[1..], stack);
      AllGuideStep(rs);
      PassesThen(turns, numbers, i, j, j + |AllBytes(rs[1..])|, stack, GuideTags(r), AllGuideTags(rs[1..]));
    }
  }

  lemma PassesThen(turns: seq<Item>, numbers: seq<nat>, i: nat, j: nat, k: nat, stack: seq<nat>, first: bool, rest: bool)
    requires AreTurns(turns) && |numbers| == |turns| && stack != []
    requires Passes(turns, numbers, i, j, stack, first) && Passes(turns, numbers, j, k, stack, rest)
    ensures Passes(turns, numbers, i, k, stack, first && rest)
  {
  }

  lemma AllGuideStep(rs: seq<Record>)
    requires rs != []
    ensures AllGuideTags(rs) <==> GuideTags(rs[0]) && AllGuideTags(rs[1..])
  {
    assert rs == [rs[0]] + rs[1..];
  }

  /** What the scan of the guide accepts, the skipper accepts. */
  lemma {:induction false} StrictIsSkipped(turns: seq<Item>, numbers: seq<nat>, i: nat, stack: seq<nat>)
    requires AreTurns(turns) && |numbers| == |turns| && StrictLoop(turns, numbers, i, stack).err == NoError
    ensures SkipLoop(turns, i, |stack|) == StrictLoop(turns, numbers, i, stack)
    decreases |turns| - i
  {
    var it := turns[i];
    var next := OpenAfter(it.wireType, numbers[i], stack);
    if next != [] {
      StrictIsSkipped(turns, numbers, it.end, next);
    }
  }

  // ---------------------------------------------------------------------------------------
  // When the skipper meets the guide
  // ---------------------------------------------------------------------------------------

  /** A record in front of the input has the tags of the guide exactly when the scan of the guide accepts it. */
  lemma GuideTagsExactly(s: seq<byte>, n: nat, r: Record)
    requires n <= |s| < TWO_63 && WellFormed(r) && Bytes(r) == s[..n]
    ensures GuideTags(r) <==> StrictSpec(s) == Scan(n, NoError)
  {
    StrictRecord(Turns(s), Numbers(s), s, 0, r, []);
  }

  /** The scan accepts a prefix exactly when that prefix is a record of the guide. */
  lemma StrictExact(s: seq<byte>, n: nat)
    requires n <= |s| < TWO_63
    ensures StrictSpec(s) == Scan(n, NoError) <==> exists r :: GuideRecord(r) && Bytes(r) == s[..n]
  {
    if StrictSpec(s) == Scan(n, NoError) {
      StrictIsSkipped(Turns(s), Numbers(s), 0, []);
      SkipExact(s, n);
      var r :| WellFormed(r) && Bytes(r) == s[..n];
      GuideTagsExactly(s, n, r);
      assert GuideRecord(r);
    }
    forall r | GuideRecord(r) && Bytes(r) == s[..n]
      ensures StrictSpec(s) == Scan(n, NoError)
    {
      GuideTagsExactly(s, n, r);
    }
  }

  /**
   What the skipper passes over is a record of the guide exactly when every field number is in
   range and every group ends with the number it started with.
   */
  lemma SkippedIsGuideRecord(s: seq<byte>, n: nat)
    requires n <= |s| < TWO_63 && SkipSpec(s) == Scan(n, NoError)
    ensures (exists r :: GuideRecord(r) && Bytes(r) == s[..n]) <==> StrictSpec(s).err == NoError
  {
    StrictExact(s, n);
    if StrictSpec(s).err == NoError {
      StrictIsSkipped(Turns(s), Numbers(s), 0, []);
    }
  }

  /** Field 1 opens a group and field 2 closes it: not a record of the guide, but skipped. */
  lemma SkipsMismatchedGroup()
    ensures SkipSpec([0x0B, 0x14]) == Scan(2, NoError)
    ensures !exists r :: GuideRecord(r) && Bytes(r) == [0x0B, 0x14]
  {
    var s: seq<byte> := [0x0B, 0x14];
    var start, end: seq<byte> := [0x0B], [0x14];
    var r := GroupRecord(start, [], end);
    assert Bytes(r) == s && Bytes(r) + [] == s;
    SkipSound(r, []);
    assert TagNumber(start) == 1 && TagNumber(end) == 2;
    assert !GuideTags(r);
    assert s[..2] == s;
    GuideTagsExactly(s, 2, r);
    StrictExact(s, 2);
  }
}
