/**
 * JSON documents as the parser of the typed-data code presents them: an object is the list of its
 * members in document order, and a key is looked up by its first occurrence.
 */
module Json {
  import opened Options
  import opened Text

  datatype Value =
    | Null
    | Bool(b: bool)
    | Number(text: string)
    | Str(s: string)
    | Arr(items: seq<Value>)
    | Obj(members: seq<Member>)

  datatype Member = Member(key: string, value: Value)

  function KeySet(members: seq<Member>): set<string> {
    set m | m in members :: m.key
  }

  /** The value of the first member with the key. */
  function Lookup(members: seq<Member>, key: string): (r: Option<Value>)
    ensures r.Some? <==> key in KeySet(members)
    ensures r.Some? ==> Member(key, r.value) in members
  {
    if members == [] then None
    else
      assert members == [members[0]] + members[1..];
      if members[0].key == key then Some(members[0].value) else Lookup(members[1..], key)
  }

  /** `Get`: absent for anything but an object. */
  function Get(json: Value, key: string): (r: Option<Value>)
    ensures r.Some? ==> json.Obj? && r.value < json
    ensures r.Some? <==> json.Obj? && key in KeySet(json.members)
  {
    if json.Obj? then Lookup(json.members, key) else None
  }

  /** The keys of an object, strictly descending. */
  function SortedKeys(members: seq<Member>): (keys: seq<string>)
    ensures Descending(keys)
    ensures forall x :: x in keys <==> x in KeySet(members)
  {
    if members == [] then []
    else
      assert members == [members[0]] + members[1..];
      Insert(SortedKeys(members[1..]), members[0].key)
  }

  /**
   * The same document up to the order in which members are listed: arrays agree item by item,
   * objects agree key by key.
   */
  ghost predicate Same(a: Value, b: Value)
    decreases a
  {
    match a
    case Arr(items) =>
      b.Arr? && |items| == |b.items| && forall i | 0 <= i < |items| :: Same(items[i], b.items[i])
    case Obj(members) =>
      && b.Obj?
      && KeySet(members) == KeySet(b.members)
      && forall key | key in KeySet(members) :: Same(Get(a, key).value, Get(b, key).value)
    case _ => a == b
  }
}
