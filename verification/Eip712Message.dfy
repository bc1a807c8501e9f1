/**
 * The payload that is signed: the array of messages is flattened into one member per message
 * (`ethereum/eip712/message.go`), and the schema is built for the flattened payload.
 */
module Eip712Message {
  import opened Options
  import opened Text
  import opened Json
  import opened Eip712Types
  import opened Eip712Schema

  const MSGS := "msgs"

  /** A payload and the number of its messages. */
  datatype Flat = Flat(payload: Value, count: nat)

  function Messages(payload: Value): Result<seq<Value>> {
    match Get(payload, MSGS)
    case None => Error
    case Some(Null) => Ok([])
    case Some(Arr(items)) => Ok(items)
    case Some(_) => Error
  }

  function WithMessage(payload: Value, msg: Value, i: nat): Result<Value> {
    if Get(payload, MsgField(i)).Some? || !msg.Obj? || !payload.Obj? then Error
    else Ok(Obj(payload.members + [Member(MsgField(i), msg)]))
  }

  /** Removes the first member with the key. */
  function Without(members: seq<Member>, key: string): seq<Member> {
    if members == [] then []
    else if members[0].key == key then members[1..]
    else [members[0]] + Without(members[1..], key)
  }

  /** The members that flattening appends. */
  function MessageMembers(msgs: seq<Value>): (ms: seq<Member>)
    ensures |ms| == |msgs| && forall i | 0 <= i < |msgs| :: ms[i] == Member(MsgField(i), msgs[i])
  {
    seq(|msgs|, i requires 0 <= i < |msgs| => Member(MsgField(i), msgs[i]))
  }

  /** Message `i` can be given its own member. */
  predicate CanFlatten(members: seq<Member>, msgs: seq<Value>, i: nat)
    requires i < |msgs|
  {
    msgs[i].Obj? && MsgField(i) !in KeySet(members)
  }

  function Flattened(payload: Value): Result<Flat> {
    var msgs := Messages(payload);
    if msgs.Error? then Error
    else if forall i | 0 <= i < |msgs.value| :: CanFlatten(payload.members, msgs.value, i) then
      Ok(Flat(Obj(Without(payload.members, MSGS) + MessageMembers(msgs.value)), |msgs.value|))
    else Error
  }

  method FlattenPayloadMessages(payload: Value) returns (r: Result<Flat>)
    ensures r == Flattened(payload)
  {
    var found := Messages(payload);
    if found.Error? {
      return Error;
    }
    var msgs := found.value;
    var flattened := payload;
    for i := 0 to |msgs|
      invariant flattened == Obj(payload.members + MessageMembers(msgs[..i]))
      invariant forall j | 0 <= j < i :: CanFlatten(payload.members, msgs, j)
    {
      NewField(payload.members, msgs[..i], i);
      var next := WithMessage(flattened, msgs[i], i);
      if next.Error? {
        assert !CanFlatten(payload.members, msgs, i);
        return Error;
      }
      flattened := next.value;
      assert MessageMembers(msgs[..i + 1]) == MessageMembers(msgs[..i]) + [Member(MsgField(i), msgs[i])];
    }
    assert msgs[..|msgs|] == msgs;
    WithoutAppend(payload.members, MessageMembers(msgs), MSGS);
    return Ok(Flat(Obj(Without(flattened.members, MSGS)), |msgs|));
  }

  /** The members appended for the messages before `i` do not get in the way of message `i`. */
  lemma NewField(members: seq<Member>, msgs: seq<Value>, i: nat)
    requires |msgs| <= i
    ensures MsgField(i) in KeySet(members + MessageMembers(msgs)) <==> MsgField(i) in KeySet(members)
  {
    var all := members + MessageMembers(msgs);
    forall m | m in MessageMembers(msgs)
      ensures m.key != MsgField(i)
    {
      var j :| 0 <= j < |msgs| && MessageMembers(msgs)[j] == m;
      if MsgField(j) == MsgField(i) {
        MsgFieldInjective(i, j);
      }
    }
    forall m | m in members
      ensures m in all
    {
    }
  }

  lemma {:induction false} LookupAppend(a: seq<Member>, b: seq<Member>, key: string)
    ensures Lookup(a + b, key) == if Lookup(a, key).Some? then Lookup(a, key) else Lookup(b, key)
  {
    if a == [] {
      assert a + b == b;
    } else {
      assert (a + b)[1..] == a[1..] + b;
      LookupAppend(a[1..], b, key);
    }
  }

  lemma {:induction false} WithoutAppend(a: seq<Member>, b: seq<Member>, key: string)
    requires Lookup(a, key).Some?
    ensures Without(a + b, key) == Without(a, key) + b
  {
    assert (a + b)[1..] == a[1..] + b;
    if a[0].key != key {
      WithoutAppend(a[1..], b, key);
      assert [a[0]] + (Without(a[1..], key) + b) == [a[0]] + Without(a[1..], key) + b;
    }
  }

  /** Removing the first member with a key does not change what other keys stand for. */
  lemma {:induction false} WithoutLookup(members: seq<Member>, key: string, other: string)
    requires other != key
    ensures Lookup(Without(members, key), other) == Lookup(members, other)
  {
    if members != [] && members[0].key != key {
      WithoutLookup(members[1..], key, other);
      var rest := Without(members[1..], key);
      assert ([members[0]] + rest)[1..] == rest;
    }
  }

  /** How many members have the key. */
  function Count(members: seq<Member>, key: string): (n: nat)
    ensures n == 0 <==> Lookup(members, key).None?
  {
    if members == [] then 0 else (if members[0].key == key then 1 else 0) + Count(members[1..], key)
  }

  lemma {:induction false} WithoutCount(members: seq<Member>, key: string)
    requires Lookup(members, key).Some?
    ensures Count(Without(members, key), key) == Count(members, key) - 1
  {
    if members[0].key != key {
      WithoutCount(members[1..], key);
      var rest := Without(members[1..], key);
      assert ([members[0]] + rest)[1..] == rest;
    }
  }

  /** The payload has these messages, where null counts as none, all objects, and none of the new keys. */
  predicate Flattenable(payload: Value, msgs: seq<Value>) {
    && (Get(payload, "msgs") == Some(Arr(msgs)) || (Get(payload, "msgs") == Some(Null) && msgs == []))
    && forall i: nat | i < |msgs| :: msgs[i].Obj? && Get(payload, "msg" + Itoa(i)).None?
  }

  /** Flattening succeeds exactly when there is a list of objects and none of the new keys exists. */
  lemma FlattenSucceeds(payload: Value)
    ensures Flattened(payload).Ok? <==> exists msgs :: Flattenable(payload, msgs)
  {
    if Flattened(payload).Ok? {
      var msgs := Messages(payload).value;
      forall i: nat | i < |msgs|
        ensures msgs[i].Obj? && Get(payload, "msg" + Itoa(i)).None?
      {
        assert CanFlatten(payload.members, msgs, i);
      }
      assert Flattenable(payload, msgs);
    }
    if msgs :| Flattenable(payload, msgs) {
      assert Messages(payload) == Ok(msgs);
      forall i: nat | i < |msgs|
        ensures CanFlatten(payload.members, msgs, i)
      {
        assert Get(payload, "msg" + Itoa(i)).None?;
      }
    }
  }

  // ---------------------------------------------------------------------------------------
  // What flattening does to the payload
  // ---------------------------------------------------------------------------------------

  predicate IsMsgField(key: string, n: nat) {
    exists i | 0 <= i < n :: key == MsgField(i)
  }

  /** Each message is found under its own key, and all other keys but `msgs` keep their meaning. */
  lemma FlattenedGet(payload: Value, flat: Flat, key: string)
    requires Flattened(payload) == Ok(flat)
    ensures flat.count == |Messages(payload).value|
    ensures forall i | 0 <= i < flat.count ::
              Get(flat.payload, MsgField(i)) == Some(Messages(payload).value[i])
    ensures key != MSGS && !IsMsgField(key, flat.count) ==> Get(flat.payload, key) == Get(payload, key)
    ensures IsMsgField(key, flat.count) ==> Get(payload, key).None?
  {
    var msgs := Messages(payload).value;
    forall i | 0 <= i < flat.count
      ensures Get(flat.payload, MsgField(i)) == Some(msgs[i])
    {
      assert CanFlatten(payload.members, msgs, i);
      FlatFieldFound(payload, msgs, i);
    }
    if key != MSGS && !IsMsgField(key, flat.count) {
      WithoutLookup(payload.members, MSGS, key);
      LookupAppend(Without(payload.members, MSGS), MessageMembers(msgs), key);
      MessageKeys(msgs, key);
    }
    if IsMsgField(key, flat.count) {
      var i :| 0 <= i < flat.count && key == MsgField(i);
      assert CanFlatten(payload.members, msgs, i);
    }
  }

  lemma MessageKeys(msgs: seq<Value>, key: string)
    ensures Lookup(MessageMembers(msgs), key).Some? <==> IsMsgField(key, |msgs|)
    ensures forall i | 0 <= i < |msgs| && key == MsgField(i) :: Lookup(MessageMembers(msgs), key) == Some(msgs[i])
  {
    var added := MessageMembers(msgs);
    var r := Lookup(added, key);
    forall i | 0 <= i < |msgs| && key == MsgField(i)
      ensures r == Some(msgs[i])
    {
      assert added[i] in added && key in KeySet(added);
      var j :| 0 <= j < |added| && added[j] == Member(key, r.value);
      MsgFieldInjective(i, j);
    }
    if r.Some? {
      var j :| 0 <= j < |added| && added[j] == Member(key, r.value);
      assert key == MsgField(j);
    }
  }

  lemma FlatFieldFound(payload: Value, msgs: seq<Value>, i: nat)
    requires payload.Obj? && i < |msgs| && MsgField(i) !in KeySet(payload.members)
    ensures Get(Obj(Without(payload.members, MSGS) + MessageMembers(msgs)), MsgField(i)) == Some(msgs[i])
  {
    MsgFieldIsNotMsgs(i);
    WithoutLookup(payload.members, MSGS, MsgField(i));
    LookupAppend(Without(payload.members, MSGS), MessageMembers(msgs), MsgField(i));
    MessageKeys(msgs, MsgField(i));
  }

  lemma MsgFieldIsNotMsgs(i: nat)
    ensures MsgField(i) != MSGS
  {
    assert MsgField(i)[3] == Itoa(i)[0] && Itoa(i)[0] in Itoa(i);
  }

  /** The `msgs` member is gone exactly when the payload had only one. */
  lemma MsgsRemoved(payload: Value, flat: Flat)
    requires Flattened(payload) == Ok(flat)
    ensures Get(flat.payload, MSGS).None? <==> Count(payload.members, MSGS) == 1
  {
    var msgs := Messages(payload).value;
    WithoutCount(payload.members, MSGS);
    LookupAppend(Without(payload.members, MSGS), MessageMembers(msgs), MSGS);
    MessageKeys(msgs, MSGS);
    forall i | 0 <= i < |msgs|
      ensures MSGS != MsgField(i)
    {
      MsgFieldIsNotMsgs(i);
    }
  }

  /**
   * Nothing is lost: two payloads flatten to the same result exactly when they have the same messages
   * and the same other members in the same order, and then every other key has the same value.
   */
  lemma FlattenInjective(p: Value, q: Value, key: string)
    requires Flattened(p).Ok? && Messages(q).Ok?
    ensures Flattened(p) == Flattened(q) <==>
            Messages(p) == Messages(q) && Without(p.members, MSGS) == Without(q.members, MSGS)
    ensures Flattened(p) == Flattened(q) && key != MSGS ==> Get(p, key) == Get(q, key)
  {
    if Flattened(p) == Flattened(q) {
      SameFlattened(p, q, Flattened(p).value, key);
    }
    if Messages(p) == Messages(q) && Without(p.members, MSGS) == Without(q.members, MSGS) {
      SameMessages(p, q, Messages(p).value);
    }
  }

  lemma SameFlattened(p: Value, q: Value, flat: Flat, key: string)
    requires Flattened(p) == Ok(flat) && Flattened(q) == Ok(flat)
    ensures Messages(p) == Messages(q)
    ensures Without(p.members, MSGS) == Without(q.members, MSGS)
    ensures key != MSGS ==> Get(p, key) == Get(q, key)
  {
    FlattenedGet(p, flat, key);
    FlattenedGet(q, flat, key);
    var a, b := Messages(p).value, Messages(q).value;
    forall i | 0 <= i < flat.count
      ensures a[i] == b[i]
    {
      assert Get(flat.payload, MsgField(i)) == Some(a[i]);
    }
    assert a == b;
    SameFront(Without(p.members, MSGS), Without(q.members, MSGS), MessageMembers(a));
  }

  lemma SameMessages(p: Value, q: Value, msgs: seq<Value>)
    requires Messages(p) == Messages(q) == Ok(msgs) && Without(p.members, MSGS) == Without(q.members, MSGS)
    ensures Flattened(p) == Flattened(q)
  {
    forall i | 0 <= i < |msgs|
      ensures CanFlatten(p.members, msgs, i) <==> CanFlatten(q.members, msgs, i)
    {
      MsgFieldIsNotMsgs(i);
      WithoutLookup(p.members, MSGS, MsgField(i));
      WithoutLookup(q.members, MSGS, MsgField(i));
    }
  }

  /** A null and an empty list of messages flatten alike. */
  lemma NullFlattensLikeEmpty(front: seq<Member>, rest: seq<Member>)
    requires Lookup(front, MSGS).None?
    ensures var p, q := Obj(front + ([Member(MSGS, Null)] + rest)), Obj(front + ([Member(MSGS, Arr([]))] + rest));
            p != q && Flattened(p) == Flattened(q) == Ok(Flat(Obj(front + rest), 0))
  {
    var p, q := front + ([Member(MSGS, Null)] + rest), front + ([Member(MSGS, Arr([]))] + rest);
    assert p[|front|] == Member(MSGS, Null) && q[|front|] == Member(MSGS, Arr([]));
    FirstMember(front, Member(MSGS, Null), rest);
    FirstMember(front, Member(MSGS, Arr([])), rest);
    assert front + rest + MessageMembers([]) == front + rest;
  }

  lemma FirstMember(front: seq<Member>, m: Member, rest: seq<Member>)
    requires Lookup(front, m.key).None?
    ensures Without(front + ([m] + rest), m.key) == front + rest
    ensures Lookup(front + ([m] + rest), m.key) == Some(m.value)
  {
    LookupAppend(front, [m] + rest, m.key);
    WithoutBehind(front, [m] + rest, m.key);
    assert ([m] + rest)[1..] == rest;
  }

  lemma {:induction false} WithoutBehind(front: seq<Member>, rest: seq<Member>, key: string)
    requires Lookup(front, key).None?
    ensures Without(front + rest, key) == front + Without(rest, key)
  {
    if front == [] {
      assert front + rest == rest;
    } else {
      assert (front + rest)[1..] == front[1..] + rest;
      WithoutBehind(front[1..], rest, key);
      assert [front[0]] + (front[1..] + Without(rest, key)) == front + Without(rest, key);
    }
  }

  lemma SameFront(x: seq<Member>, y: seq<Member>, rest: seq<Member>)
    requires x + rest == y + rest
    ensures x == y
  {
    assert |x| == |y|;
    assert (x + rest)[..|x|] == x && (y + rest)[..|y|] == y;
  }

  // ---------------------------------------------------------------------------------------
  // From the transaction to its schema
  // ---------------------------------------------------------------------------------------

  /**
   * Whenever typed data can be produced for a payload, its schema is closed and its transaction
   * type ends with one field for each message, in order, whose type describes that message.
   */
  lemma TypedDataDescribesMessages(payload: Value, flat: Flat, table: Table)
    requires Flattened(payload) == Ok(flat) && Schema(flat.payload, flat.count) == Ok(table)
    requires forall i | 0 <= i < flat.count :: Plain(Messages(payload).value[i])
    ensures Closed(table) && TX in table && |table[TX]| == |BASE[TX]| + flat.count
    ensures HasBaseTypes(table)
    ensures forall i | 0 <= i < flat.count ::
              var entry, msg := table[TX][|BASE[TX]| + i], Messages(payload).value[i];
              && entry.name == "msg" + Itoa(i) && RootType(msg).Ok?
              && Describes(table, entry.typ, msg, RootType(msg).value, "Type")
  {
    FlattenedGet(payload, flat, MSGS);
    SchemaDescribes(flat.payload, flat.count);
    forall i | 0 <= i < flat.count
      ensures var entry, msg := table[TX][|BASE[TX]| + i], Messages(payload).value[i];
              && entry.name == "msg" + Itoa(i) && RootType(msg).Ok?
              && Describes(table, entry.typ, msg, RootType(msg).value, "Type")
    {
      assert ListsMessage(table, flat.payload, i);
    }
  }
}
