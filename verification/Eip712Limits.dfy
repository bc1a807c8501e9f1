/**
 * When a schema can be built. The generator tries 1000 names for a type, so that it can run out of
 * them; `SchemaSucceeds` says that it does not before the messages hold more than 1000 objects, and
 * `OneTooMany` that it may then.
 */
module Eip712Limits {
  import opened Options
  import opened Text
  import opened Json
  import opened Eip712Types
  import opened Eip712Schema
  import opened Eip712Message

  // ---------------------------------------------------------------------------------------
  // Room for one more type
  // ---------------------------------------------------------------------------------------

  predicate EndsInDigit(name: string) {
    name != "" && IsDigit(name[|name| - 1])
  }

  /** The names of the table that have an index; those of the base types have none. */
  function Taken(table: Table): set<string> {
    set name | name in table && EndsInDigit(name)
  }

  lemma IndexedEndsInDigit(typeDef: string, k: nat)
    ensures EndsInDigit(Indexed(typeDef, k))
  {
    var name := Indexed(typeDef, k);
    assert name[|name| - 1] in Itoa(k);
  }

  lemma IndexedInjective(typeDef: string, j: nat, k: nat)
    requires Indexed(typeDef, j) == Indexed(typeDef, k)
    ensures j == k
  {
    assert Indexed(typeDef, j)[|typeDef|..] == Itoa(j) && Indexed(typeDef, k)[|typeDef|..] == Itoa(k);
    ItoaInjective(j, k);
  }

  lemma {:induction false} ManyNames(names: set<string>, typeDef: string, n: nat)
    requires forall k: nat | k < n :: Indexed(typeDef, k) in names
    ensures |names| >= n
    decreases n
  {
    if n > 0 {
      var last := Indexed(typeDef, n - 1);
      forall k: nat | k < n - 1
        ensures Indexed(typeDef, k) in names - {last}
      {
        if Indexed(typeDef, k) == last {
          IndexedInjective(typeDef, k, n - 1);
        }
      }
      ManyNames(names - {last}, typeDef, n - 1);
    }
  }

  /** A type can be added while fewer than 1000 names are taken, and it takes at most one. */
  lemma AddTypeRoom(table: Table, typeDef: string, fields: seq<TypeField>)
    ensures |Taken(table)| < MAX_DUPLICATES ==> AddType(table, typeDef, fields).outcome.Ok?
    ensures |Taken(AddType(table, typeDef, fields).table)| <= |Taken(table)| + 1
  {
    var s := AddType(table, typeDef, fields);
    if s.outcome.Error? {
      forall k: nat | k < MAX_DUPLICATES
        ensures Indexed(typeDef, k) in Taken(table)
      {
        assert !Fits(table, Indexed(typeDef, k), fields);
        IndexedEndsInDigit(typeDef, k);
      }
      ManyNames(Taken(table), typeDef, MAX_DUPLICATES);
    } else {
      var name := s.outcome.value;
      assert s.table == table[name := fields];
      assert Taken(s.table) <= Taken(table) + {name};
      Cardinality(Taken(s.table), Taken(table) + {name});
    }
  }

  lemma {:induction false} Cardinality(a: set<string>, b: set<string>)
    requires a <= b
    ensures |a| <= |b|
  {
    if x :| x in a {
      Cardinality(a - {x}, b - {x});
    }
  }

  // ---------------------------------------------------------------------------------------
  // Room for a whole document
  // ---------------------------------------------------------------------------------------

  /** The number of objects that get a type: of an array, only the first item is looked at. */
  function Objects(json: Value): nat
    decreases json, 1
  {
    if json.Obj? then 1 + MemberObjects(json, SortedKeys(json.members)) else 0
  }

  function MemberObjects(json: Value, keys: seq<string>): nat
    decreases json, 0, |keys|
  {
    if keys == [] then 0
    else
      var value := Get(json, keys[0]);
      (if value.None? then 0 else FieldObjects(value.value)) + MemberObjects(json, keys[1..])
  }

  function FieldObjects(value: Value): nat
    decreases value, 3
  {
    match value
    case Arr(items) => if items == [] then 0 else Objects(items[0])
    case _ => Objects(value)
  }

  /** The step succeeds and takes at most `n` names. */
  ghost predicate Takes<T>(before: Table, s: Step<T>, n: nat) {
    s.outcome.Ok? && |Taken(s.table)| <= |Taken(before)| + n
  }

  lemma {:induction false} AddTypesRoom(table: Table, rootType: string, prefix: string, json: Value)
    requires json.Obj? && |Taken(table)| + Objects(json) <= MAX_DUPLICATES
    ensures Takes(table, AddTypes(table, rootType, prefix, json), Objects(json))
    decreases json, 1
  {
    var keys := SortedKeys(json.members);
    AddFieldsRoom(table, rootType, prefix, json, keys);
    var fields := AddFields(table, rootType, prefix, json, keys);
    AddTypeRoom(fields.table, TypeDefFor(prefix, rootType), fields.outcome.value);
  }

  lemma {:induction false} AddFieldsRoom(table: Table, rootType: string, prefix: string, json: Value, keys: seq<string>)
    requires |Taken(table)| + MemberObjects(json, keys) <= MAX_DUPLICATES
    ensures Takes(table, AddFields(table, rootType, prefix, json, keys), MemberObjects(json, keys))
    decreases json, 0, |keys|
  {
    if keys != [] {
      var value := Get(json, keys[0]);
      if value.None? {
        AddFieldsRoom(table, rootType, prefix, json, keys[1..]);
      } else {
        AddFieldRoom(table, rootType, prefix, keys[0], value.value);
        var head := AddField(table, rootType, prefix, keys[0], value.value);
        AddFieldsRoom(head.table, rootType, prefix, json, keys[1..]);
      }
    }
  }

  lemma {:induction false} AddFieldRoom(table: Table, rootType: string, prefix: string, key: string, value: Value)
    requires |Taken(table)| + FieldObjects(value) <= MAX_DUPLICATES
    ensures Takes(table, AddField(table, rootType, prefix, key, value), FieldObjects(value))
    decreases value, 3
  {
    if value.Obj? {
      AddTypesRoom(table, rootType, SubField(prefix, key), value);
    } else if value.Arr? && value.items != [] && value.items[0].Obj? {
      AddTypesRoom(table, rootType, SubField(prefix, key), value.items[0]);
    }
  }

  // ---------------------------------------------------------------------------------------
  // When the schema of a transaction can be built
  // ---------------------------------------------------------------------------------------

  /** An object with a type. */
  predicate Typed(msg: Value) {
    match Get(msg, "type")
    case Some(Str(s)) => s != ""
    case _ => false
  }

  predicate HasTyped(payload: Value, i: nat) {
    var msg := Get(payload, MsgField(i));
    msg.Some? && Typed(msg.value)
  }

  /** The objects of the messages from `i` on. */
  function MessageObjects(payload: Value, i: nat, n: nat): nat
    decreases n - i
  {
    if n <= i then 0
    else
      var msg := Get(payload, MsgField(i));
      (if msg.None? then 0 else Objects(msg.value)) + MessageObjects(payload, i + 1, n)
  }

  /**
   * The schema can only be built when every message is an object with a type; and then it can be, as
   * long as the messages hold at most 1000 objects in all.
   */
  lemma SchemaSucceeds(payload: Value, n: nat)
    ensures Schema(payload, n).Ok? ==> AllTyped(payload, 0, n)
    ensures MessageObjects(payload, 0, n) <= MAX_DUPLICATES && AllTyped(payload, 0, n) ==> Schema(payload, n).Ok?
  {
    if Schema(payload, n).Ok? {
      AddMsgsNeeds(BASE, payload, 0, n);
    }
    if MessageObjects(payload, 0, n) <= MAX_DUPLICATES && AllTyped(payload, 0, n) {
      assert Taken(BASE) == {};
      AddMsgsRoom(BASE, payload, 0, n);
    }
  }

  predicate AllTyped(payload: Value, i: nat, n: nat) {
    forall j: nat | i <= j < n :: HasTyped(payload, j)
  }

  lemma {:induction false} AddMsgsNeeds(table: Table, payload: Value, i: nat, n: nat)
    requires AddMsgs(table, payload, i, n).Ok?
    ensures AllTyped(payload, i, n)
    decreases n - i
  {
    if i < n {
      var msg := Get(payload, MsgField(i));
      AddMsgNeeds(table, MsgField(i), msg);
      AddMsgsNeeds(AddMsg(table, MsgField(i), msg).table, payload, i + 1, n);
      TypedFrom(payload, i, n);
    }
  }

  lemma TypedFrom(payload: Value, i: nat, n: nat)
    requires HasTyped(payload, i) && AllTyped(payload, i + 1, n)
    ensures AllTyped(payload, i, n)
  {
  }

  lemma AddMsgNeeds(table: Table, field: string, msg: Option<Value>)
    ensures AddMsg(table, field, msg).outcome.Ok? ==> msg.Some? && Typed(msg.value)
  {
  }

  lemma {:induction false} AddMsgsRoom(table: Table, payload: Value, i: nat, n: nat)
    requires |Taken(table)| + MessageObjects(payload, i, n) <= MAX_DUPLICATES
    requires AllTyped(payload, i, n)
    ensures AddMsgs(table, payload, i, n).Ok?
    decreases n - i
  {
    if i < n {
      assert HasTyped(payload, i);
      var msg := Get(payload, MsgField(i)).value;
      AddMsgRoom(table, MsgField(i), msg);
      AddMsgsRoom(AddMsg(table, MsgField(i), Some(msg)).table, payload, i + 1, n);
    }
  }

  lemma AddMsgRoom(table: Table, field: string, msg: Value)
    requires Typed(msg) && |Taken(table)| + Objects(msg) <= MAX_DUPLICATES
    ensures Takes(table, AddMsg(table, field, Some(msg)), Objects(msg))
  {
    var root := RootType(msg).value;
    AddTypesRoom(table, root, ROOT_PREFIX, msg);
    var s := AddTypes(table, root, ROOT_PREFIX, msg);
    assert Taken(AppendToTx(s.table, TypeField(field, s.outcome.value))) == Taken(s.table);
  }

  // ---------------------------------------------------------------------------------------
  // From the transaction
  // ---------------------------------------------------------------------------------------

  /** The objects of a list of messages. */
  function ListObjects(msgs: seq<Value>): nat {
    if msgs == [] then 0 else Objects(msgs[0]) + ListObjects(msgs[1..])
  }

  lemma {:induction false} FlatObjects(payload: Value, msgs: seq<Value>, i: nat)
    requires i <= |msgs| && forall j | 0 <= j < |msgs| :: Get(payload, MsgField(j)) == Some(msgs[j])
    ensures MessageObjects(payload, i, |msgs|) == ListObjects(msgs[i..])
    decreases |msgs| - i
  {
    if i < |msgs| {
      FlatObjects(payload, msgs, i + 1);
      assert msgs[i..][1..] == msgs[i + 1..];
    }
  }

  /**
   * Typed data can be produced for a payload that can be flattened only if every message has a type,
   * and if the messages hold at most 1000 objects, whenever every message has one.
   */
  lemma TypedDataSucceeds(payload: Value, flat: Flat)
    requires Flattened(payload) == Ok(flat)
    ensures var msgs := Messages(payload).value;
            var typed := forall msg | msg in msgs :: Typed(msg);
            && (Schema(flat.payload, flat.count).Ok? ==> typed)
            && (ListObjects(msgs) <= MAX_DUPLICATES && typed ==> Schema(flat.payload, flat.count).Ok?)
  {
    var msgs := Messages(payload).value;
    FlattenedGet(payload, flat, MSGS);
    FlatObjects(flat.payload, msgs, 0);
    assert msgs[0..] == msgs;
    SchemaSucceeds(flat.payload, flat.count);
    forall i: nat | i < flat.count
      ensures HasTyped(flat.payload, i) <==> Typed(msgs[i])
    {
      assert Get(flat.payload, MsgField(i)) == Some(msgs[i]);
    }
    if Schema(flat.payload, flat.count).Ok? {
      forall msg | msg in msgs
        ensures Typed(msg)
      {
        var i :| 0 <= i < |msgs| && msgs[i] == msg;
        assert HasTyped(flat.payload, i);
      }
    }
    if forall msg | msg in msgs :: Typed(msg) {
      forall i: nat | i < flat.count
        ensures HasTyped(flat.payload, i)
      {
        assert msgs[i] in msgs;
      }
    }
  }

  // ---------------------------------------------------------------------------------------
  // The limit is reached
  // ---------------------------------------------------------------------------------------

  /** Messages of one type that all differ in the name of a member. */
  function Variant(i: nat): Value {
    Obj([Member("type", Str("a")), Member(MsgField(i), Bool(true))])
  }

  function VariantFields(i: nat): seq<TypeField> {
    [TypeField("type", "string"), TypeField(MsgField(i), "bool")]
  }

  function Variants(n: nat): Value {
    Obj(MessageMembers(seq(n, i requires 0 <= i < n => Variant(i))))
  }

  lemma VariantsGet(n: nat, i: nat)
    requires i < n
    ensures Get(Variants(n), MsgField(i)) == Some(Variant(i))
  {
    MessageKeys(seq(n, j requires 0 <= j < n => Variant(j)), MsgField(i));
  }

  lemma VariantKeys(i: nat)
    ensures SortedKeys(Variant(i).members) == ["type", MsgField(i)]
    ensures Get(Variant(i), "type") == Some(Str("a")) && Get(Variant(i), MsgField(i)) == Some(Bool(true))
  {
    var members := Variant(i).members;
    var keys := ["type", MsgField(i)];
    assert members[1..] == [members[1]] && members[1..][1..] == [];
    assert MsgField(i)[0] == 'm';
    assert Codes(MsgField(i))[0] < Codes("type")[0];
    assert Descending(keys);
    assert KeySet(members) == {"type", MsgField(i)};
    DescendingUnique(SortedKeys(members), keys);
  }

  lemma SimpleField(table: Table, rootType: string, key: string, value: Value)
    requires value.Str? || value.Bool?
    ensures AddField(table, rootType, ROOT_PREFIX, key, value) ==
            Step(Ok([TypeField(key, PrimitiveType(value))]), table)
  {
    assert PrimitiveType(value) + "" == PrimitiveType(value);
  }

  lemma VariantType(table: Table, i: nat)
    ensures AddTypes(table, "Typea", ROOT_PREFIX, Variant(i)) == AddType(table, "Typea", VariantFields(i))
  {
    VariantKeys(i);
    var json, keys := Variant(i), ["type", MsgField(i)];
    SimpleField(table, "Typea", "type", Str("a"));
    SimpleField(table, "Typea", MsgField(i), Bool(true));
    assert keys[1..] == [MsgField(i)] && [MsgField(i)][1..] == [];
    var last := [TypeField(MsgField(i), "bool")];
    assert last + [] == last && [TypeField("type", "string")] + last == VariantFields(i);
    assert AddFields(table, "Typea", ROOT_PREFIX, json, []) == Step(Ok([]), table);
    assert AddFields(table, "Typea", ROOT_PREFIX, json, [MsgField(i)]) == Step(Ok(last), table);
    assert AddFields(table, "Typea", ROOT_PREFIX, json, keys) == Step(Ok(VariantFields(i)), table);
  }

  /** The first `i` names stand for the first `i` variants, and the others are free. */
  ghost predicate Filled(table: Table, i: nat) {
    && (forall k: nat | k < i :: NamesVariant(table, k))
    && forall k: nat | i <= k :: Indexed("Typea", k) !in table
  }

  predicate NamesVariant(table: Table, k: nat) {
    Indexed("Typea", k) in table && table[Indexed("Typea", k)] == VariantFields(k)
  }

  lemma NoFitBefore(table: Table, i: nat, k: nat)
    requires NamesVariant(table, k) && k != i
    ensures !Fits(table, Indexed("Typea", k), VariantFields(i))
  {
    if VariantFields(k) == VariantFields(i) {
      assert VariantFields(k)[1] == VariantFields(i)[1];
      MsgFieldInjective(k, i);
    }
  }

  lemma AddVariant(table: Table, i: nat)
    requires Filled(table, i) && i <= MAX_DUPLICATES
    ensures var s := AddType(table, "Typea", VariantFields(i));
            if i == MAX_DUPLICATES then s.outcome.Error?
            else s == Step(Ok(Indexed("Typea", i)), table[Indexed("Typea", i) := VariantFields(i)])
  {
    forall k: nat | k < i
      ensures !Fits(table, Indexed("Typea", k), VariantFields(i))
    {
      NoFitBefore(table, i, k);
    }
    if i < MAX_DUPLICATES {
      assert Fits(table, Indexed("Typea", i), VariantFields(i));
      assert FirstFit(table, "Typea", VariantFields(i), 0) == Some(i);
    }
  }

  lemma StillFilled(table: Table, i: nat, field: TypeField)
    requires Filled(table, i)
    ensures Filled(AppendToTx(table[Indexed("Typea", i) := VariantFields(i)], field), i + 1)
  {
    var after := AppendToTx(table[Indexed("Typea", i) := VariantFields(i)], field);
    forall k: nat
      ensures k <= i ==> NamesVariant(after, k)
      ensures k > i ==> Indexed("Typea", k) !in after
    {
      IndexedIsNotTx("Typea", k);
      if Indexed("Typea", k) == Indexed("Typea", i) {
        IndexedInjective("Typea", k, i);
      }
      assert k < i ==> NamesVariant(table, k);
    }
  }

  function AfterVariant(table: Table, i: nat): Table {
    AppendToTx(table[Indexed("Typea", i) := VariantFields(i)], TypeField(MsgField(i), Indexed("Typea", i)))
  }

  lemma VariantRoot(i: nat)
    ensures RootType(Variant(i)) == Ok("Typea")
  {
    VariantKeys(i);
    SplitWithout("a", '/');
    assert "Type" + "a" == "Typea";
  }

  lemma AddVariantMsg(table: Table, i: nat)
    requires Filled(table, i) && i <= MAX_DUPLICATES
    ensures var s := AddMsg(table, MsgField(i), Some(Variant(i)));
            if i == MAX_DUPLICATES then s.outcome.Error? else s.outcome.Ok? && s.table == AfterVariant(table, i)
  {
    VariantRoot(i);
    VariantType(table, i);
    AddVariant(table, i);
  }

  lemma {:induction false} VariantsFail(table: Table, n: nat, i: nat)
    requires Filled(table, i) && i <= MAX_DUPLICATES < n
    ensures AddMsgs(table, Variants(n), i, n).Error?
    decreases n - i
  {
    VariantsGet(n, i);
    AddVariantMsg(table, i);
    if i < MAX_DUPLICATES {
      StillFilled(table, i, TypeField(MsgField(i), Indexed("Typea", i)));
      VariantsFail(AfterVariant(table, i), n, i + 1);
    }
  }

  /** The limit is sharp: 1001 messages of one type, all typed and of one object each, have no schema. */
  lemma OneTooMany()
    ensures var n := MAX_DUPLICATES + 1;
            && Schema(Variants(n), n).Error?
            && MessageObjects(Variants(n), 0, n) == n
            && AllTyped(Variants(n), 0, n)
  {
    var n := MAX_DUPLICATES + 1;
    forall k: nat
      ensures Indexed("Typea", k) !in BASE
    {
      IndexedEndsInDigit("Typea", k);
    }
    VariantsFail(BASE, n, 0);
    VariantObjects(n, 0);
    forall i: nat | i < n
      ensures HasTyped(Variants(n), i)
    {
      VariantsGet(n, i);
      VariantKeys(i);
    }
  }

  lemma {:induction false} VariantObjects(n: nat, i: nat)
    requires i <= n
    ensures MessageObjects(Variants(n), i, n) == n - i
    decreases n - i
  {
    if i < n {
      VariantsGet(n, i);
      OneObject(i);
      VariantObjects(n, i + 1);
    }
  }

  lemma OneObject(i: nat)
    ensures Objects(Variant(i)) == 1
  {
    VariantKeys(i);
    var json, keys := Variant(i), ["type", MsgField(i)];
    assert keys[1..] == [MsgField(i)] && [MsgField(i)][1..] == [];
    assert MemberObjects(json, []) == 0;
    assert MemberObjects(json, [MsgField(i)]) == 0;
    assert MemberObjects(json, keys) == 0;
  }
}
