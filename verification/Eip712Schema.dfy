/**
 * The schema of a whole transaction: the in-place construction of the table, message after
 * message, and what the finished table says (`ethereum/eip712/types.go`).
 */
module Eip712Schema {
  import opened Options
  import opened Text
  import opened Json
  import opened Eip712Types

  const BASE: Table := map[
    "EIP712Domain" := [TypeField("name", "string"), TypeField("version", "string"),
                       TypeField("chainId", "uint256"), TypeField("verifyingContract", "string"),
                       TypeField("salt", "string")],
    "Tx" := [TypeField("account_number", "string"), TypeField("chain_id", "string"),
             TypeField("fee", "Fee"), TypeField("memo", "string"), TypeField("sequence", "string")],
    "Fee" := [TypeField("amount", "Coin[]"), TypeField("gas", "string")],
    "Coin" := [TypeField("denom", "string"), TypeField("amount", "string")]]

  function MsgField(i: nat): string {
    "msg" + Itoa(i)
  }

  lemma MsgFieldInjective(i: nat, j: nat)
    requires MsgField(i) == MsgField(j)
    ensures i == j
  {
    assert MsgField(i)[3..] == Itoa(i) && MsgField(j)[3..] == Itoa(j);
    ItoaInjective(i, j);
  }

  /** The type name of a message: the last component of its `type` member. */
  function RootType(msg: Value): Result<string> {
    var t := Get(msg, "type");
    if t.Some? && t.value.Str? && t.value.s != "" then
      var tokens := Split(t.value.s, '/');
      Ok("Type" + tokens[|tokens| - 1])
    else Error
  }

  /** The type name is what follows the last slash, or all of it when there is none. */
  lemma RootTypeOf(msg: Value, typ: string) returns (path: string, name: string)
    requires Get(msg, "type") == Some(Str(typ)) && typ != ""
    ensures '/' !in name && (typ == name || typ == path + "/" + name)
    ensures RootType(msg) == Ok("Type" + name)
  {
    path, name := AtLastSlash(typ);
    SplitWithout(name, '/');
    if typ != name {
      assert path + "/" + name == path + ['/'] + name;
      SplitAtSeparator(path, '/', name);
    }
  }

  lemma {:induction false} AtLastSlash(s: string) returns (path: string, name: string)
    ensures '/' !in name && (s == name || s == path + "/" + name)
  {
    if s == "" || s[|s| - 1] == '/' {
      path, name := if s == "" then "" else s[..|s| - 1], "";
    } else {
      path, name := AtLastSlash(s[..|s| - 1]);
      name := name + [s[|s| - 1]];
    }
  }

  function AppendToTx(table: Table, field: TypeField): Table {
    table[TX := (if TX in table then table[TX] else []) + [field]]
  }

  function AddMsg(table: Table, field: string, msg: Option<Value>): Step<string> {
    if msg.None? || !msg.value.Obj? then Step(Error, table)
    else
      var root := RootType(msg.value);
      if root.Error? then Step(Error, table)
      else
        var s := AddTypes(table, root.value, ROOT_PREFIX, msg.value);
        if s.outcome.Error? then s
        else Step(s.outcome, AppendToTx(s.table, TypeField(field, s.outcome.value)))
  }

  /** The table after the messages from `i` on, or nothing if one of them is refused. */
  function AddMsgs(table: Table, payload: Value, i: nat, n: nat): Result<Table>
    decreases n - i
  {
    if n <= i then Ok(table)
    else
      var s := AddMsg(table, MsgField(i), Get(payload, MsgField(i)));
      if s.outcome.Error? then Error else AddMsgs(s.table, payload, i + 1, n)
  }

  function Schema(payload: Value, n: nat): Result<Table> {
    AddMsgs(BASE, payload, 0, n)
  }

  // ---------------------------------------------------------------------------------------
  // Construction in place
  // ---------------------------------------------------------------------------------------

  /** The keys of an object, whatever order the iteration over them takes. */
  method SortedJsonKeys(json: Value) returns (r: Result<seq<string>>)
    ensures r == if json.Obj? then Ok(SortedKeys(json.members)) else Error
  {
    if !json.Obj? {
      return Error;
    }
    var pending := KeySet(json.members);
    var keys := [];
    while pending != {}
      invariant pending <= KeySet(json.members)
      invariant forall x :: x in keys <==> x in KeySet(json.members) - pending
      decreases |pending|
    {
      var k :| k in pending;
      keys := keys + [k];
      pending := pending - {k};
    }
    var sorted := SortDescending(keys);
    DescendingUnique(sorted, SortedKeys(json.members));
    return Ok(sorted);
  }

  method TypesAreEqual(a: seq<TypeField>, b: seq<TypeField>) returns (equal: bool)
    ensures equal <==> a == b
  {
    if |a| != |b| {
      return false;
    }
    for i := 0 to |a|
      invariant a[..i] == b[..i]
    {
      if a[i].name != b[i].name || a[i].typ != b[i].typ {
        return false;
      }
    }
    assert a[..|a|] == a && b[..|a|] == b;
    return true;
  }

  class TypeTable {
    var types: Table

    constructor ()
      ensures types == BASE
    {
      types := BASE;
    }

    method AddTypesToRoot(typeDef: string, fields: seq<TypeField>) returns (r: Result<string>)
      modifies this
      ensures Step(r, types) == AddType(old(types), typeDef, fields)
    {
      var index := 0;
      var name := Indexed(typeDef, index);
      while true
        invariant index < MAX_DUPLICATES && name == Indexed(typeDef, index) && types == old(types)
        invariant FirstFit(types, typeDef, fields, 0) == FirstFit(types, typeDef, fields, index)
        decreases MAX_DUPLICATES - index
      {
        if name in types {
          var equal := TypesAreEqual(fields, types[name]);
          if equal {
            assert types == types[name := fields];
            return Ok(name);
          }
        } else {
          break;
        }
        index := index + 1;
        if index == MAX_DUPLICATES {
          return Error;
        }
        name := Indexed(typeDef, index);
      }
      types := types[name := fields];
      return Ok(name);
    }

    method RecursivelyAdd(rootType: string, prefix: string, payload: Value) returns (r: Result<string>)
      modifies this
      ensures Step(r, types) == AddTypes(old(types), rootType, prefix, payload)
      decreases payload, 1
    {
      var keys := SortedJsonKeys(payload);
      if keys.Error? {
        return Error;
      }
      ghost var all := AddFields(types, rootType, prefix, payload, keys.value);
      var fields: seq<TypeField> := [];
      assert keys.value[0..] == keys.value;
      PrependNothing(all);
      for i := 0 to |keys.value|
        invariant all == Prepend(fields, AddFields(types, rootType, prefix, payload, keys.value[i..]))
      {
        var key := keys.value[i];
        var value := Get(payload, key);
        NextField(types, rootType, prefix, payload, keys.value[i..], fields);
        assert keys.value[i..][1..] == keys.value[i + 1..];
        if value.Some? {
          var added := AddSubField(rootType, prefix, key, value.value);
          if added.Error? {
            return Error;
          }
          fields := fields + added.value;
        }
      }
      assert all == Step(Ok(fields), types) by {
        assert fields + [] == fields;
      }
      r := AddTypesToRoot(TypeDefFor(prefix, rootType), fields);
    }

    /** One turn of the loop over the members: the fields it appends. */
    method AddSubField(rootType: string, prefix: string, key: string, value: Value)
      returns (r: Result<seq<TypeField>>)
      modifies this
      ensures Step(r, types) == AddField(old(types), rootType, prefix, key, value)
      decreases value, 3
    {
      var element, suffix := value, "";
      if value.Arr? {
        if value.items == [] {
          return Ok([TypeField(key, "string[]")]);
        }
        element, suffix := value.items[0], "[]";
      }
      if PrimitiveType(element) != "" {
        return Ok([TypeField(key, PrimitiveType(element) + suffix)]);
      }
      if element.Obj? {
        var sub := RecursivelyAdd(rootType, SubField(prefix, key), element);
        if sub.Error? {
          return Error;
        }
        var name := SanitizeTypedef(sub.value);
        return Ok([TypeField(key, name + suffix)]);
      }
      return Ok([]);
    }

    method AddMsgTypesToRoot(field: string, msg: Option<Value>) returns (r: Result<string>)
      modifies this
      ensures Step(r, types) == AddMsg(old(types), field, msg)
    {
      if msg.None? || !msg.value.Obj? {
        return Error;
      }
      var root := RootType(msg.value);
      if root.Error? {
        return Error;
      }
      r := RecursivelyAdd(root.value, ROOT_PREFIX, msg.value);
      if r.Ok? {
        types := AppendToTx(types, TypeField(field, r.value));
      }
    }
  }

  lemma PrependNothing(s: Step<seq<TypeField>>)
    ensures Prepend([], s) == s
  {
    if s.outcome.Ok? {
      assert [] + s.outcome.value == s.outcome.value;
    }
  }

  /** Unfolds the walk over the members by one. */
  lemma NextField(table: Table, rootType: string, prefix: string, json: Value, keys: seq<string>,
                  fields: seq<TypeField>)
    requires keys != []
    ensures var value := Get(json, keys[0]);
            var head := if value.None? then Step(Ok([]), table)
                        else AddField(table, rootType, prefix, keys[0], value.value);
            Prepend(fields, AddFields(table, rootType, prefix, json, keys)) ==
            if head.outcome.Error? then head
            else Prepend(fields + head.outcome.value, AddFields(head.table, rootType, prefix, json, keys[1..]))
  {
    var value := Get(json, keys[0]);
    var head := if value.None? then Step(Ok([]), table)
                else AddField(table, rootType, prefix, keys[0], value.value);
    if head.outcome.Ok? {
      var rest := AddFields(head.table, rootType, prefix, json, keys[1..]);
      if rest.outcome.Ok? {
        assert fields + (head.outcome.value + rest.outcome.value) ==
               (fields + head.outcome.value) + rest.outcome.value;
      }
    }
  }

  method CreateEip712Types(payload: Value, n: nat) returns (r: Result<Table>)
    ensures r == Schema(payload, n)
  {
    var table := new TypeTable();
    for i := 0 to n
      invariant Schema(payload, n) == AddMsgs(table.types, payload, i, n)
    {
      var name := table.AddMsgTypesToRoot(MsgField(i), Get(payload, MsgField(i)));
      if name.Error? {
        return Error;
      }
    }
    return Ok(table.types);
  }

  // ---------------------------------------------------------------------------------------
  // What the finished table says
  // ---------------------------------------------------------------------------------------

  /** The transaction type lists the messages from 0 to `i`, each with a type that describes it. */
  ghost predicate ListsMessages(table: Table, payload: Value, i: nat) {
    && TX in table
    && |table[TX]| == |BASE[TX]| + i
    && table[TX][..|BASE[TX]|] == BASE[TX]
    && forall j | 0 <= j < i :: ListsMessage(table, payload, j)
  }

  ghost predicate ListsMessage(table: Table, payload: Value, j: nat)
    requires TX in table && |BASE[TX]| + j < |table[TX]|
  {
    var entry := table[TX][|BASE[TX]| + j];
    var msg := Get(payload, MsgField(j));
    && entry.name == "msg" + Itoa(j) && msg.Some? && RootType(msg.value).Ok?
    && Describes(table, entry.typ, msg.value, RootType(msg.value).value, "Type")
  }

  ghost predicate PlainMessages(payload: Value, n: nat) {
    forall j | 0 <= j < n :: Get(payload, MsgField(j)).Some? ==> Plain(Get(payload, MsgField(j)).value)
  }

  /** The types that every transaction has, and the fields that its transaction type starts with. */
  predicate HasBaseTypes(table: Table) {
    && "EIP712Domain" in table && "Fee" in table && "Coin" in table && "Tx" in table
    && table["EIP712Domain"] ==
       [TypeField("name", "string"), TypeField("version", "string"), TypeField("chainId", "uint256"),
        TypeField("verifyingContract", "string"), TypeField("salt", "string")]
    && table["Fee"] == [TypeField("amount", "Coin[]"), TypeField("gas", "string")]
    && table["Coin"] == [TypeField("denom", "string"), TypeField("amount", "string")]
    && |table["Tx"]| >= 5
    && table["Tx"][..5] ==
       [TypeField("account_number", "string"), TypeField("chain_id", "string"), TypeField("fee", "Fee"),
        TypeField("memo", "string"), TypeField("sequence", "string")]
  }

  /**
   * When the schema can be built, its transaction type has the base fields followed by one field
   * for each message, whose type describes the message; the base types are kept; and every type
   * that is mentioned is defined.
   */
  lemma SchemaDescribes(payload: Value, n: nat)
    requires PlainMessages(payload, n)
    ensures Schema(payload, n).Ok? ==>
              var table := Schema(payload, n).value;
              ListsMessages(table, payload, n) && HasBaseTypes(table) && Keeps(BASE, table) && Closed(table)
  {
    BaseIsClosed();
    AddMsgsDescribes(BASE, payload, 0, n);
  }

  lemma BaseIsClosed()
    ensures Closed(BASE)
  {
    assert "Coin[]"[..4] == "Coin";
    assert Known(BASE, "Fee") && Known(BASE, "Coin");
  }

  lemma {:induction false} AddMsgsDescribes(table: Table, payload: Value, i: nat, n: nat)
    requires PlainMessages(payload, n) && i <= n
    requires ListsMessages(table, payload, i) && Closed(table)
    ensures var r := AddMsgs(table, payload, i, n);
            r.Ok? ==> ListsMessages(r.value, payload, n) && Keeps(table, r.value) && Closed(r.value)
    decreases n - i
  {
    if i < n {
      var s := AddMsg(table, MsgField(i), Get(payload, MsgField(i)));
      if s.outcome.Ok? {
        AddMsgDescribes(table, payload, i);
        AddMsgsDescribes(s.table, payload, i + 1, n);
      }
    }
  }

  lemma AddMsgDescribes(table: Table, payload: Value, i: nat)
    requires PlainMessages(payload, i + 1)
    requires ListsMessages(table, payload, i) && Closed(table)
    requires AddMsg(table, MsgField(i), Get(payload, MsgField(i))).outcome.Ok?
    ensures var after := AddMsg(table, MsgField(i), Get(payload, MsgField(i))).table;
            ListsMessages(after, payload, i + 1) && Keeps(table, after) && Closed(after)
  {
    var msg := Get(payload, MsgField(i)).value;
    var root := RootType(msg).value;
    RootIsPath();
    AddTypesDescribes(table, root, ROOT_PREFIX, msg);
    var s := AddTypes(table, root, ROOT_PREFIX, msg);
    var field := TypeField(MsgField(i), s.outcome.value);
    var after := AppendToTx(s.table, field);
    RootPath();
    DescribesStable(s.table, after, s.outcome.value, msg, root, "Type");
    assert after[TX] == table[TX] + [field];
    forall j | 0 <= j < i
      ensures ListsMessage(after, payload, j)
    {
      assert ListsMessage(table, payload, j);
      var entry := table[TX][|BASE[TX]| + j];
      assert after[TX][|BASE[TX]| + j] == entry;
      var other := Get(payload, MsgField(j)).value;
      DescribesStable(table, after, entry.typ, other, RootType(other).value, "Type");
    }
    assert ListsMessage(after, payload, i);
    AppendCloses(s.table, field);
  }

  lemma RootPath()
    ensures Sanitize(ROOT_PREFIX) == "Type"
  {
    SplitWithout(ROOT_PREFIX, '.');
    assert Sanitize(ROOT_PREFIX) == "Type" + SanitizeParts([]);
  }

  lemma AppendCloses(table: Table, field: TypeField)
    requires Closed(table) && TX in table && field.typ in table
    ensures Closed(AppendToTx(table, field))
  {
    var after: Table := AppendToTx(table, field);
    forall name: string, i: int | name in after && 0 <= i < |after[name]|
      ensures Defined(after, after[name][i].typ)
    {
      if name != TX || i < |table[TX]| {
        assert after[name][i] == table[name][i];
        assert Defined(table, table[name][i].typ);
      }
    }
  }

  // ---------------------------------------------------------------------------------------
  // The order of members does not matter
  // ---------------------------------------------------------------------------------------

  lemma {:induction false} SameTypes(table: Table, rootType: string, prefix: string, a: Value, b: Value)
    requires Same(a, b)
    ensures AddTypes(table, rootType, prefix, a) == AddTypes(table, rootType, prefix, b)
    decreases a, 1
  {
    if a.Obj? {
      DescendingUnique(SortedKeys(a.members), SortedKeys(b.members));
      SameFields(table, rootType, prefix, a, b, SortedKeys(a.members));
    }
  }

  lemma {:induction false} SameFields(table: Table, rootType: string, prefix: string, a: Value, b: Value,
                                      keys: seq<string>)
    requires a.Obj? && Same(a, b)
    requires forall key | key in keys :: key in KeySet(a.members)
    ensures AddFields(table, rootType, prefix, a, keys) == AddFields(table, rootType, prefix, b, keys)
    decreases a, 0, |keys|
  {
    if keys != [] {
      assert keys[0] in keys;
      var x, y := Get(a, keys[0]).value, Get(b, keys[0]).value;
      SameField(table, rootType, prefix, keys[0], x, y);
      var head := AddField(table, rootType, prefix, keys[0], x);
      if head.outcome.Ok? {
        SameFields(head.table, rootType, prefix, a, b, keys[1..]);
      }
    }
  }

  lemma {:induction false} SameField(table: Table, rootType: string, prefix: string, key: string,
                                     x: Value, y: Value)
    requires Same(x, y)
    ensures AddField(table, rootType, prefix, key, x) == AddField(table, rootType, prefix, key, y)
    decreases x, 3
  {
    if x.Arr? && x.items != [] {
      SameTypes(table, rootType, SubField(prefix, key), x.items[0], y.items[0]);
    } else if x.Obj? {
      SameTypes(table, rootType, SubField(prefix, key), x, y);
    }
  }

  /** The schema depends on the document only up to the order in which members are listed. */
  lemma SchemaSame(a: Value, b: Value, n: nat)
    requires Same(a, b)
    ensures Schema(a, n) == Schema(b, n)
  {
    AddMsgsSame(BASE, a, b, 0, n);
  }

  lemma {:induction false} AddMsgsSame(table: Table, a: Value, b: Value, i: nat, n: nat)
    requires Same(a, b)
    ensures AddMsgs(table, a, i, n) == AddMsgs(table, b, i, n)
    decreases n - i
  {
    if i < n {
      var x, y := Get(a, MsgField(i)), Get(b, MsgField(i));
      SameGet(a, b, MsgField(i));
      AddMsgSame(table, MsgField(i), x, y);
      AddMsgsSame(AddMsg(table, MsgField(i), x).table, a, b, i + 1, n);
    }
  }

  ghost predicate SameOption(x: Option<Value>, y: Option<Value>) {
    if x.None? then y.None? else y.Some? && Same(x.value, y.value)
  }

  lemma SameGet(a: Value, b: Value, key: string)
    requires Same(a, b)
    ensures SameOption(Get(a, key), Get(b, key))
  {
  }

  lemma RootTypeSame(a: Value, b: Value)
    requires Same(a, b)
    ensures RootType(a) == RootType(b)
  {
    SameGet(a, b, "type");
  }

  lemma AddMsgSame(table: Table, field: string, x: Option<Value>, y: Option<Value>)
    requires SameOption(x, y)
    ensures AddMsg(table, field, x) == AddMsg(table, field, y)
  {
    if x.Some? && x.value.Obj? {
      RootTypeSame(x.value, y.value);
      var root := RootType(x.value);
      if root.Ok? {
        SameTypes(table, root.value, ROOT_PREFIX, x.value, y.value);
      }
    }
  }
}
