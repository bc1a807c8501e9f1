/**
 * The EIP-712 schema generator: it walks the messages of a transaction and builds the table of
 * struct types that typed-data signing needs (`ethereum/eip712/types.go`).
 */
module Eip712Types {
  import opened Options
  import opened Text
  import opened Json

  /** One field of a struct type. */
  datatype TypeField = TypeField(name: string, typ: string)

  type Table = map<string, seq<TypeField>>

  datatype Result<T> = Ok(value: T) | Error

  /** What an operation on the table returns, and the table it leaves. */
  datatype Step<T> = Step(outcome: Result<T>, table: Table)

  const MAX_DUPLICATES := 1000
  const ROOT_PREFIX := "_"
  const TX := "Tx"

  // ---------------------------------------------------------------------------------------
  // Type names
  // ---------------------------------------------------------------------------------------

  predicate IsLetter(c: char) {
    'a' <= c <= 'z' || 'A' <= c <= 'Z'
  }

  predicate Alphanumeric(s: string) {
    forall c | c in s :: IsLetter(c) || IsDigit(c)
  }

  /** The keys that the document parser reads as plain names. */
  predicate PlainKey(key: string) {
    key != "" && forall c | c in key :: IsLetter(c) || IsDigit(c) || c == '_'
  }

  function Upper(c: char): char {
    if 'a' <= c <= 'z' then (c as int - 32) as char else c
  }

  /** Title casing of one alphanumeric word: the first letter is raised, the rest is kept. */
  function Title(s: string): string {
    if s == "" then ""
    else if IsLetter(s[0]) then [Upper(s[0])] + s[1..]
    else [s[0]] + Title(s[1..])
  }

  function TitleAll(words: seq<string>): string {
    if words == [] then "" else Title(words[0]) + TitleAll(words[1..])
  }

  function SanitizePart(part: string): string {
    if part == ROOT_PREFIX then "Type" else TitleAll(Split(part, '_'))
  }

  function SanitizeParts(parts: seq<string>): string {
    if parts == [] then "" else SanitizePart(parts[0]) + SanitizeParts(parts[1..])
  }

  function Sanitize(s: string): string {
    SanitizeParts(Split(s, '.'))
  }

  method SanitizeTypedef(s: string) returns (buf: string)
    ensures buf == Sanitize(s)
  {
    buf := "";
    var parts := Split(s, '.');
    for i := 0 to |parts|
      invariant SanitizeParts(parts) == buf + SanitizeParts(parts[i..])
    {
      var written := WritePart(parts[i]);
      assert parts[i..][1..] == parts[i + 1..];
      assert buf + (written + SanitizeParts(parts[i + 1..])) == (buf + written) + SanitizeParts(parts[i + 1..]);
      buf := buf + written;
    }
  }

  method WritePart(part: string) returns (buf: string)
    ensures buf == SanitizePart(part)
  {
    if part == ROOT_PREFIX {
      return "Type";
    }
    buf := "";
    var words := Split(part, '_');
    for j := 0 to |words|
      invariant TitleAll(words) == buf + TitleAll(words[j..])
    {
      assert words[j..][1..] == words[j + 1..];
      assert buf + (Title(words[j]) + TitleAll(words[j + 1..])) == (buf + Title(words[j])) + TitleAll(words[j + 1..]);
      buf := buf + Title(words[j]);
    }
  }

  lemma {:induction false} SanitizePartsAppend(a: seq<string>, b: seq<string>)
    ensures SanitizeParts(a + b) == SanitizeParts(a) + SanitizeParts(b)
  {
    if a == [] {
      assert a + b == b;
    } else {
      assert (a + b)[1..] == a[1..] + b;
      SanitizePartsAppend(a[1..], b);
    }
  }

  lemma {:induction false} TitleAlphanumeric(s: string)
    requires Alphanumeric(s)
    ensures Alphanumeric(Title(s))
  {
    if s != "" && !IsLetter(s[0]) {
      TitleAlphanumeric(s[1..]);
    }
  }

  lemma {:induction false} SplitPlain(s: string)
    requires forall c | c in s :: IsLetter(c) || IsDigit(c) || c == '_'
    ensures forall w | w in Split(s, '_') :: Alphanumeric(w)
  {
    if s != "" {
      SplitPlain(s[1..]);
      var rest := Split(s[1..], '_');
      assert rest[0] in rest && forall w | w in rest[1..] :: w in rest;
      assert s[0] in s;
      assert s[0] != '_' ==> Alphanumeric([s[0]] + rest[0]);
    }
  }

  lemma {:induction false} TitleAllAlphanumeric(words: seq<string>)
    requires forall w | w in words :: Alphanumeric(w)
    ensures Alphanumeric(TitleAll(words))
  {
    if words != [] {
      TitleAlphanumeric(words[0]);
      TitleAllAlphanumeric(words[1..]);
    }
  }

  // Capitalised words, read off the characters of a key

  /** Underscores are dropped, and the first letter after each of them is raised, as is the very first. */
  function Camel(s: string, raise: bool): string {
    if s == "" then ""
    else if s[0] == '_' then Camel(s[1..], true)
    else if raise && IsLetter(s[0]) then [Upper(s[0])] + Camel(s[1..], false)
    else [s[0]] + Camel(s[1..], raise)
  }

  /** What a key contributes to the name of a type: a lone underscore stands for the root. */
  function CamelCase(key: string): string {
    if key == "_" then "Type" else Camel(key, true)
  }

  lemma UpperLetters(i: nat, c: char)
    requires i < 26
    ensures Upper("abcdefghijklmnopqrstuvwxyz"[i]) == "ABCDEFGHIJKLMNOPQRSTUVWXYZ"[i]
    ensures c !in "abcdefghijklmnopqrstuvwxyz" ==> Upper(c) == c
  {
    if 'a' <= c <= 'z' {
      assert "abcdefghijklmnopqrstuvwxyz"[c as int - 97] == c;
    }
  }

  lemma {:induction false} WordsAreCamel(s: string)
    ensures var words := Split(s, '_');
            && TitleAll(words) == Camel(s, true)
            && words[0] + TitleAll(words[1..]) == Camel(s, false)
  {
    if s == "" {
      assert [""][1..] == [];
    } else {
      WordsAreCamel(s[1..]);
      var rest := Split(s[1..], '_');
      if s[0] == '_' {
        assert ([""] + rest)[1..] == rest;
      } else {
        assert ([[s[0]] + rest[0]] + rest[1..])[1..] == rest[1..];
        assert TitleAll(rest) == Title(rest[0]) + TitleAll(rest[1..]);
        LongerWord(s[0], rest[0], TitleAll(rest[1..]));
      }
    }
  }

  lemma LongerWord(c: char, word: string, rest: string)
    ensures ([c] + word) + rest == [c] + (word + rest)
    ensures Title([c] + word) + rest == if IsLetter(c) then [Upper(c)] + (word + rest) else [c] + (Title(word) + rest)
  {
    assert ([c] + word)[1..] == word;
  }

  /** Keys are turned into capitalised words. */
  lemma SanitizeKey(key: string)
    ensures SanitizePart(key) == CamelCase(key)
  {
    WordsAreCamel(key);
  }

  /** A path into a message from which type names are derived. */
  ghost predicate IsPath(prefix: string) {
    var name := Sanitize(prefix);
    name != "" && name[0] == 'T' && Alphanumeric(name)
  }

  lemma RootIsPath()
    ensures IsPath(ROOT_PREFIX)
  {
    SplitWithout(ROOT_PREFIX, '.');
    assert Sanitize(ROOT_PREFIX) == "Type" + SanitizeParts([]);
    assert Sanitize(ROOT_PREFIX) == "Type";
  }

  lemma SubFieldIsPath(prefix: string, key: string)
    requires IsPath(prefix) && PlainKey(key)
    ensures IsPath(SubField(prefix, key))
    ensures SubField(prefix, key) != ROOT_PREFIX
  {
    SanitizeSubField(prefix, key);
    SplitPlain(key);
    TitleAllAlphanumeric(Split(key, '_'));
    assert Alphanumeric("Type");
    assert SubField(prefix, key)[|prefix|] == '.';
  }

  /** Path components are sanitized one by one. */
  lemma SanitizeSubField(prefix: string, key: string)
    requires '.' !in key
    ensures Sanitize(SubField(prefix, key)) == Sanitize(prefix) + SanitizePart(key)
  {
    assert SubField(prefix, key) == prefix + ['.'] + key;
    SplitAtSeparator(prefix, '.', key);
    SplitWithout(key, '.');
    SanitizePartsAppend(Split(prefix, '.'), [key]);
    assert SanitizeParts([key]) == SanitizePart(key) + SanitizeParts([]);
  }

  /** Words within a component, however many, are capitalised and joined; the root prefix is no such component. */
  lemma SanitizeWords(words: seq<string>)
    requires words != [] && words != ["", ""] && forall w | w in words :: '_' !in w
    ensures SanitizePart(Join(words, '_')) == TitleAll(words)
  {
    SplitJoin(words, '_');
    SplitAtSeparator("", '_', "");
    assert "" + ['_'] + "" == ROOT_PREFIX;
  }

  /** A sanitized name with its index is not changed by sanitizing it again. */
  lemma SanitizeFixed(prefix: string, k: nat)
    requires IsPath(prefix)
    ensures Sanitize(Indexed(Sanitize(prefix), k)) == Indexed(Sanitize(prefix), k)
  {
    var name := Indexed(Sanitize(prefix), k);
    SplitWithout(name, '.');
    SplitWithout(name, '_');
    assert Title(name) == [Upper('T')] + name[1..] == name;
    assert TitleAll([name]) == Title(name) + TitleAll([]);
    assert SanitizeParts([name]) == SanitizePart(name) + SanitizeParts([]);
    assert name != ROOT_PREFIX;
  }

  function SubField(prefix: string, key: string): string {
    prefix + "." + key
  }

  function Indexed(typeDef: string, k: nat): string {
    typeDef + Itoa(k)
  }

  lemma IndexedIsNotTx(typeDef: string, k: nat)
    ensures Indexed(typeDef, k) != TX
  {
    var name := Indexed(typeDef, k);
    assert name[|name| - 1] in Itoa(k);
  }

  function TypeDefFor(prefix: string, rootType: string): string {
    if prefix == ROOT_PREFIX then rootType else Sanitize(prefix)
  }

  // ---------------------------------------------------------------------------------------
  // Adding one type
  // ---------------------------------------------------------------------------------------

  /** The name is free, or already stands for these fields. */
  predicate Fits(table: Table, name: string, fields: seq<TypeField>) {
    name in table ==> table[name] == fields
  }

  /** The first index from `k` on whose name fits; none if all of them up to the limit are taken. */
  function FirstFit(table: Table, typeDef: string, fields: seq<TypeField>, k: nat): (r: Option<nat>)
    requires k < MAX_DUPLICATES
    ensures r.Some? ==> k <= r.value < MAX_DUPLICATES && Fits(table, Indexed(typeDef, r.value), fields)
    ensures forall j | k <= j < (if r.Some? then r.value else MAX_DUPLICATES) ::
              !Fits(table, Indexed(typeDef, j), fields)
    decreases MAX_DUPLICATES - k
  {
    if Fits(table, Indexed(typeDef, k), fields) then Some(k)
    else if k + 1 == MAX_DUPLICATES then None
    else FirstFit(table, typeDef, fields, k + 1)
  }

  function AddType(table: Table, typeDef: string, fields: seq<TypeField>): (s: Step<string>)
    ensures s.outcome.Error? <==> forall k: nat | k < 1000 :: TakenOtherwise(table, typeDef + Itoa(k), fields)
    ensures s.outcome.Ok? ==> exists k: nat :: k < 1000 && IsFirstFree(table, typeDef, fields, k, s.outcome.value)
    ensures s.table == if s.outcome.Ok? then table[s.outcome.value := fields] else table
    ensures Grows(table, s.table)
  {
    var k := FirstFit(table, typeDef, fields, 0);
    NoneFitsBefore(table, typeDef, fields);
    if k.None? then Step(Error, table)
    else
      var name := Indexed(typeDef, k.value);
      assert !TakenOtherwise(table, typeDef + Itoa(k.value), fields);
      assert IsFirstFree(table, typeDef, fields, k.value, name);
      Step(Ok(name), table[name := fields])
  }

  lemma NoneFitsBefore(table: Table, typeDef: string, fields: seq<TypeField>)
    ensures var r := FirstFit(table, typeDef, fields, 0);
            forall j: nat | j < (if r.Some? then r.value else 1000) :: TakenOtherwise(table, typeDef + Itoa(j), fields)
  {
    var r := FirstFit(table, typeDef, fields, 0);
    forall j: nat | j < (if r.Some? then r.value else 1000)
      ensures TakenOtherwise(table, typeDef + Itoa(j), fields)
    {
      assert !Fits(table, Indexed(typeDef, j), fields);
    }
  }

  /** The name stands for other fields. */
  predicate TakenOtherwise(table: Table, name: string, fields: seq<TypeField>) {
    name in table && table[name] != fields
  }

  /** `name` is the stem with index `k`, and all lower indices stand for other fields. */
  predicate IsFirstFree(table: Table, typeDef: string, fields: seq<TypeField>, k: nat, name: string) {
    && name == typeDef + Itoa(k)
    && !TakenOtherwise(table, name, fields)
    && forall j: nat | j < k :: TakenOtherwise(table, typeDef + Itoa(j), fields)
  }

  /** No type is removed or redefined. */
  ghost predicate Grows(before: Table, after: Table) {
    forall name | name in before :: name in after && after[name] == before[name]
  }

  // ---------------------------------------------------------------------------------------
  // Walking a message
  // ---------------------------------------------------------------------------------------

  /** The schema type of a primitive value; empty for objects, arrays and null. */
  function PrimitiveType(json: Value): string {
    match json
    case Bool(_) => "bool"
    case Number(_) => "int64"
    case Str(_) => "string"
    case _ => ""
  }

  /** A member that has no representation (null, nested arrays) yields no field. */
  function AddField(table: Table, rootType: string, prefix: string, key: string, value: Value)
    : Step<seq<TypeField>>
    decreases value, 3
  {
    match value
    case Arr(items) =>
      if items == [] then Step(Ok([TypeField(key, "string[]")]), table)
      else AddElement(table, rootType, prefix, key, items[0], "[]")
    case _ => AddElement(table, rootType, prefix, key, value, "")
  }

  function AddElement(table: Table, rootType: string, prefix: string, key: string, value: Value,
                      suffix: string)
    : Step<seq<TypeField>>
    decreases value, 2
  {
    if PrimitiveType(value) != "" then
      Step(Ok([TypeField(key, PrimitiveType(value) + suffix)]), table)
    else if value.Obj? then
      var sub := AddTypes(table, rootType, SubField(prefix, key), value);
      if sub.outcome.Error? then Step(Error, sub.table)
      else Step(Ok([TypeField(key, Sanitize(sub.outcome.value) + suffix)]), sub.table)
    else Step(Ok([]), table)
  }

  function AddFields(table: Table, rootType: string, prefix: string, json: Value, keys: seq<string>)
    : Step<seq<TypeField>>
    decreases json, 0, |keys|
  {
    if keys == [] then Step(Ok([]), table)
    else
      var value := Get(json, keys[0]);
      var head := if value.None? then Step(Ok([]), table)
                  else AddField(table, rootType, prefix, keys[0], value.value);
      if head.outcome.Error? then head
      else Prepend(head.outcome.value, AddFields(head.table, rootType, prefix, json, keys[1..]))
  }

  function Prepend(fields: seq<TypeField>, rest: Step<seq<TypeField>>): Step<seq<TypeField>> {
    if rest.outcome.Error? then rest else Step(Ok(fields + rest.outcome.value), rest.table)
  }

  /** Adds the types of an object and of the objects below it, and returns the object's type. */
  function AddTypes(table: Table, rootType: string, prefix: string, json: Value): Step<string>
    decreases json, 1
  {
    if !json.Obj? then Step(Error, table)
    else
      var fields := AddFields(table, rootType, prefix, json, SortedKeys(json.members));
      if fields.outcome.Error? then Step(Error, fields.table)
      else AddType(fields.table, TypeDefFor(prefix, rootType), fields.outcome.value)
  }

  // ---------------------------------------------------------------------------------------
  // What the table has to say about a message
  // ---------------------------------------------------------------------------------------

  predicate Simple(value: Value) {
    value.Bool? || value.Number? || value.Str? || value.Obj?
  }

  /** The values that a struct field can have. */
  predicate Typable(value: Value) {
    if value.Arr? then value.items == [] || Simple(value.items[0]) else Simple(value)
  }

  function TypableKeys(json: Value, keys: seq<string>): seq<string> {
    if keys == [] then []
    else
      var value := Get(json, keys[0]);
      (if value.Some? && Typable(value.value) then [keys[0]] else []) + TypableKeys(json, keys[1..])
  }

  function Names(fields: seq<TypeField>): seq<string> {
    seq(|fields|, i requires 0 <= i < |fields| => fields[i].name)
  }

  /**
   * The type `name` is the schema of the object: it is called by the stem and an index, its fields
   * are exactly the members that can be typed, in descending order of their keys, and each field has
   * the type of its member. The types of objects below are called by the path of keys to them.
   */
  ghost predicate Describes(table: Table, name: string, json: Value, stem: string, path: string)
    decreases json, 1
  {
    && json.Obj?
    && name != TX
    && name in table
    && IsNamed(name, stem)
    && Names(table[name]) == TypableKeys(json, SortedKeys(json.members))
    && FieldsMatch(table, table[name], json, path)
  }

  ghost predicate IsNamed(name: string, stem: string) {
    exists k: nat :: k < 1000 && name == stem + Itoa(k)
  }

  ghost predicate FieldsMatch(table: Table, fields: seq<TypeField>, json: Value, path: string)
    decreases json, 0
  {
    forall f | f in fields ::
      Get(json, f.name).Some? && ValueMatches(table, f.typ, Get(json, f.name).value, path + CamelCase(f.name))
  }

  ghost predicate ValueMatches(table: Table, typ: string, value: Value, path: string)
    decreases value, 3
  {
    match value
    case Arr(items) =>
      if items == [] then typ == "string[]"
      else |typ| >= 2 && typ[|typ| - 2..] == "[]" && ElementMatches(table, typ[..|typ| - 2], items[0], path)
    case _ => ElementMatches(table, typ, value, path)
  }

  ghost predicate ElementMatches(table: Table, typ: string, value: Value, path: string)
    decreases value, 2
  {
    match value
    case Obj(_) => Describes(table, typ, value, path, path)
    case Bool(_) => typ == "bool"
    case Number(_) => typ == "int64"
    case Str(_) => typ == "string"
    case Null => false
    case Arr(_) => false
  }

  /** Every object below the value has plain keys only. */
  ghost predicate Plain(value: Value) {
    match value
    case Arr(items) => forall i | 0 <= i < |items| :: Plain(items[i])
    case Obj(members) => forall i | 0 <= i < |members| :: PlainKey(members[i].key) && Plain(members[i].value)
    case _ => true
  }

  /** Types other than the transaction type are neither removed nor redefined. */
  ghost predicate Keeps(before: Table, after: Table) {
    forall name | name in before && name != TX :: name in after && after[name] == before[name]
  }

  /** The type, or the element type of the array type, is primitive or defined by the table. */
  predicate Defined(table: Table, typ: string) {
    || Known(table, typ)
    || (|typ| >= 2 && typ[|typ| - 2..] == "[]" && Known(table, typ[..|typ| - 2]))
  }

  predicate Known(table: Table, typ: string) {
    typ == "bool" || typ == "int64" || typ == "string" || typ == "uint256" || typ in table
  }

  /** Every type that the table mentions is one it defines. */
  predicate Closed(table: Table) {
    forall name, i | name in table && 0 <= i < |table[name]| :: Defined(table, table[name][i].typ)
  }

  /** No type is removed or redefined, and no dangling reference is introduced. */
  ghost predicate Extends(before: Table, after: Table) {
    Grows(before, after) && (Closed(before) ==> Closed(after))
  }

  lemma MatchIsDefined(table: Table, typ: string, value: Value, path: string)
    requires ValueMatches(table, typ, value, path)
    ensures Defined(table, typ)
  {
    if value.Arr? {
      if value.items == [] {
        assert typ[..6] == "string" && typ[6..] == "[]";
      } else {
        ElementIsKnown(table, typ[..|typ| - 2], value.items[0], path);
      }
    } else {
      ElementIsKnown(table, typ, value, path);
    }
  }

  lemma ElementIsKnown(table: Table, typ: string, value: Value, path: string)
    requires ElementMatches(table, typ, value, path)
    ensures Known(table, typ)
  {
  }

  lemma AddTypeCloses(table: Table, typeDef: string, fields: seq<TypeField>, json: Value, path: string)
    requires FieldsMatch(table, fields, json, path)
    ensures Extends(table, AddType(table, typeDef, fields).table)
  {
    var after: Table := AddType(table, typeDef, fields).table;
    if Closed(table) {
      forall name: string, i: int | name in after && 0 <= i < |after[name]|
        ensures Defined(after, after[name][i].typ)
      {
        var f := after[name][i];
        if after[name] == fields {
          assert f in fields;
          MatchIsDefined(table, f.typ, Get(json, f.name).value, path + CamelCase(f.name));
        }
      }
    }
  }

  lemma {:induction false} DescribesStable(before: Table, after: Table, name: string, json: Value, stem: string,
                                           path: string)
    requires Describes(before, name, json, stem, path) && Keeps(before, after)
    ensures Describes(after, name, json, stem, path)
    decreases json, 1
  {
    FieldsMatchStable(before, after, before[name], json, path);
  }

  lemma {:induction false} FieldsMatchStable(before: Table, after: Table, fields: seq<TypeField>, json: Value,
                                             path: string)
    requires FieldsMatch(before, fields, json, path) && Keeps(before, after)
    ensures FieldsMatch(after, fields, json, path)
    decreases json, 0
  {
    forall f | f in fields
      ensures ValueMatches(after, f.typ, Get(json, f.name).value, path + CamelCase(f.name))
    {
      ValueMatchesStable(before, after, f.typ, Get(json, f.name).value, path + CamelCase(f.name));
    }
  }

  lemma {:induction false} ValueMatchesStable(before: Table, after: Table, typ: string, value: Value, path: string)
    requires ValueMatches(before, typ, value, path) && Keeps(before, after)
    ensures ValueMatches(after, typ, value, path)
    decreases value, 3
  {
    if value.Obj? {
      DescribesStable(before, after, typ, value, path, path);
    } else if value.Arr? && value.items != [] && value.items[0].Obj? {
      DescribesStable(before, after, typ[..|typ| - 2], value.items[0], path, path);
    }
  }

  // ---------------------------------------------------------------------------------------
  // The walk describes what it walks over
  // ---------------------------------------------------------------------------------------

  /** The outcome of `AddFields` on the given keys. */
  ghost predicate Described(before: Table, json: Value, keys: seq<string>, s: Step<seq<TypeField>>, path: string) {
    && Extends(before, s.table)
    && (s.outcome.Ok? ==>
          && Names(s.outcome.value) == TypableKeys(json, keys)
          && FieldsMatch(s.table, s.outcome.value, json, path))
  }

  lemma {:induction false} AddTypesDescribes(table: Table, rootType: string, prefix: string, json: Value)
    requires Plain(json) && IsPath(prefix)
    ensures var s := AddTypes(table, rootType, prefix, json);
            var path := Sanitize(prefix);
            && Extends(table, s.table)
            && (s.outcome.Ok? ==>
                  Describes(s.table, s.outcome.value, json, if prefix == ROOT_PREFIX then rootType else path, path))
    decreases json, 1
  {
    if json.Obj? {
      var keys := SortedKeys(json.members);
      AddFieldsDescribes(table, rootType, prefix, json, keys);
      var fields := AddFields(table, rootType, prefix, json, keys);
      if fields.outcome.Ok? {
        var typeDef := TypeDefFor(prefix, rootType);
        var s := AddType(fields.table, typeDef, fields.outcome.value);
        if s.outcome.Ok? {
          var k: nat :| k < 1000 && IsFirstFree(fields.table, typeDef, fields.outcome.value, k, s.outcome.value);
          assert s.outcome.value == Indexed(typeDef, k);
          IndexedIsNotTx(typeDef, k);
          FieldsMatchStable(fields.table, s.table, fields.outcome.value, json, Sanitize(prefix));
          AddTypeCloses(fields.table, typeDef, fields.outcome.value, json, Sanitize(prefix));
        }
      }
    }
  }

  lemma {:induction false} AddFieldsDescribes(table: Table, rootType: string, prefix: string, json: Value,
                                              keys: seq<string>)
    requires json.Obj? && Plain(json) && IsPath(prefix)
    requires forall key | key in keys :: key in KeySet(json.members)
    ensures Described(table, json, keys, AddFields(table, rootType, prefix, json, keys), Sanitize(prefix))
    decreases json, 0, |keys|
  {
    if keys != [] {
      assert keys[0] in keys;
      var value := Get(json, keys[0]).value;
      PlainMember(json, keys[0]);
      AddFieldDescribes(table, rootType, prefix, keys[0], value);
      var head := AddField(table, rootType, prefix, keys[0], value);
      if head.outcome.Ok? {
        AddFieldsDescribes(head.table, rootType, prefix, json, keys[1..]);
        var rest := AddFields(head.table, rootType, prefix, json, keys[1..]);
        if rest.outcome.Ok? {
          FieldThenRest(json, keys, head, rest, Sanitize(prefix));
        }
      }
    }
  }

  lemma FieldThenRest(json: Value, keys: seq<string>, head: Step<seq<TypeField>>, rest: Step<seq<TypeField>>,
                      path: string)
    requires keys != [] && Get(json, keys[0]).Some? && head.outcome.Ok? && rest.outcome.Ok?
    requires FieldFor(head.table, keys[0], Get(json, keys[0]).value, head.outcome.value, path + CamelCase(keys[0]))
    requires Described(head.table, json, keys[1..], rest, path)
    ensures Names(head.outcome.value + rest.outcome.value) == TypableKeys(json, keys)
    ensures FieldsMatch(rest.table, head.outcome.value + rest.outcome.value, json, path)
  {
    var value := Get(json, keys[0]).value;
    var fields := head.outcome.value;
    NamesAppend(fields, rest.outcome.value);
    if Typable(value) {
      ValueMatchesStable(head.table, rest.table, fields[0].typ, value, path + CamelCase(keys[0]));
      assert Names(fields) == [keys[0]];
    } else {
      assert Names(fields) == [];
    }
  }

  lemma PlainMember(json: Value, key: string)
    requires json.Obj? && Plain(json) && key in KeySet(json.members)
    ensures PlainKey(key) && Plain(Get(json, key).value)
  {
    var i :| 0 <= i < |json.members| && json.members[i] == Member(key, Get(json, key).value);
  }

  lemma NamesAppend(a: seq<TypeField>, b: seq<TypeField>)
    ensures Names(a + b) == Names(a) + Names(b)
  {
  }

  lemma {:induction false} AddFieldDescribes(table: Table, rootType: string, prefix: string, key: string,
                                             value: Value)
    requires PlainKey(key) && Plain(value) && IsPath(prefix)
    ensures var s := AddField(table, rootType, prefix, key, value);
            && Extends(table, s.table)
            && (s.outcome.Ok? ==> FieldFor(s.table, key, value, s.outcome.value, Sanitize(prefix) + CamelCase(key)))
    decreases value, 3
  {
    var path := Sanitize(prefix) + CamelCase(key);
    if value.Arr? {
      if value.items != [] {
        AddElementDescribes(table, rootType, prefix, key, value.items[0], "[]");
        var s := AddElement(table, rootType, prefix, key, value.items[0], "[]");
        if s.outcome.Ok? && Simple(value.items[0]) {
          var base := ElementType(s, key, value.items[0], "[]", path);
          assert (base + "[]")[|base|..] == "[]";
          assert (base + "[]")[..|base|] == base;
        }
      }
    } else {
      AddElementDescribes(table, rootType, prefix, key, value, "");
      var s := AddElement(table, rootType, prefix, key, value, "");
      if s.outcome.Ok? && Simple(value) {
        var base := ElementType(s, key, value, "", path);
        assert base + "" == base;
      }
    }
  }

  lemma ElementType(s: Step<seq<TypeField>>, key: string, value: Value, suffix: string, path: string)
    returns (base: string)
    requires s.outcome.Ok? && HasElementType(s, key, value, suffix, path)
    ensures s.outcome.value == [TypeField(key, base + suffix)] && ElementMatches(s.table, base, value, path)
  {
    base :| s.outcome.value == [TypeField(key, base + suffix)] && ElementMatches(s.table, base, value, path);
  }

  ghost predicate HasElementType(s: Step<seq<TypeField>>, key: string, value: Value, suffix: string, path: string)
    requires s.outcome.Ok?
  {
    exists base :: s.outcome.value == [TypeField(key, base + suffix)] && ElementMatches(s.table, base, value, path)
  }

  /** The fields that a member gives rise to: one of its type, or none. */
  ghost predicate FieldFor(table: Table, key: string, value: Value, fields: seq<TypeField>, path: string) {
    if Typable(value) then
      |fields| == 1 && fields[0].name == key && ValueMatches(table, fields[0].typ, value, path)
    else fields == []
  }

  lemma {:induction false} AddElementDescribes(table: Table, rootType: string, prefix: string, key: string,
                                               value: Value, suffix: string)
    requires PlainKey(key) && Plain(value) && IsPath(prefix)
    ensures var s := AddElement(table, rootType, prefix, key, value, suffix);
            && Extends(table, s.table)
            && (s.outcome.Ok? ==>
                  if Simple(value) then HasElementType(s, key, value, suffix, Sanitize(prefix) + CamelCase(key))
                  else s.outcome.value == [])
    decreases value, 2
  {
    var path := Sanitize(prefix) + CamelCase(key);
    if value.Obj? {
      var below := SubField(prefix, key);
      SubFieldIsPath(prefix, key);
      SanitizeSubField(prefix, key);
      SanitizeKey(key);
      AddTypesDescribes(table, rootType, below, value);
      var sub := AddTypes(table, rootType, below, value);
      if sub.outcome.Ok? {
        NestedIsFixed(below, sub.outcome.value);
        assert ElementMatches(sub.table, sub.outcome.value, value, path);
      }
    } else if Simple(value) {
      assert ElementMatches(table, PrimitiveType(value), value, path);
    }
  }

  lemma NestedIsFixed(prefix: string, name: string)
    requires IsPath(prefix) && IsNamed(name, Sanitize(prefix))
    ensures Sanitize(name) == name
  {
    var k: nat :| k < 1000 && name == Sanitize(prefix) + Itoa(k);
    SanitizeFixed(prefix, k);
  }
}
