/** The few library functions on strings that the typed-data code uses. */
module Text {
  import opened Order

  /** `strings.Split` with a one-character separator. */
  function Split(s: string, c: char): (parts: seq<string>)
    ensures parts != []
  {
    if s == [] then [""]
    else
      var rest := Split(s[1..], c);
      if s[0] == c then [""] + rest else [[s[0]] + rest[0]] + rest[1..]
  }

  /** Splitting at a separator splits the two sides. */
  lemma {:induction false} SplitAtSeparator(a: string, c: char, b: string)
    ensures Split(a + [c] + b, c) == Split(a, c) + Split(b, c)
  {
    if a == [] {
      assert ([c] + b)[1..] == b;
      assert a + [c] + b == [c] + b;
    } else {
      var rest := a[1..] + [c] + b;
      assert (a + [c] + b)[1..] == rest;
      SplitAtSeparator(a[1..], c, b);
      SplitStep(a + [c] + b, c, rest, Split(a[1..], c), Split(b, c));
      assert [a[0]] + a[1..] == a;
    }
  }

  lemma SplitStep(s: string, c: char, rest: string, l: seq<string>, r: seq<string>)
    requires s != [] && s[1..] == rest && l != []
    requires Split(rest, c) == l + r
    ensures Split(s, c) == (if s[0] == c then [""] + l else [[s[0]] + l[0]] + l[1..]) + r
  {
    assert (l + r)[0] == l[0] && (l + r)[1..] == l[1..] + r;
  }

  lemma {:induction false} SplitWithout(s: string, c: char)
    requires c !in s
    ensures Split(s, c) == [s]
  {
    if s != [] {
      SplitWithout(s[1..], c);
      assert [s[0]] + s[1..] == s;
    }
  }

  /** `strings.Join` with a one-character separator. */
  function Join(words: seq<string>, c: char): string {
    if words == [] then ""
    else if |words| == 1 then words[0]
    else words[0] + [c] + Join(words[1..], c)
  }

  /** Splitting undoes joining. */
  lemma {:induction false} SplitJoin(words: seq<string>, c: char)
    requires words != [] && forall w | w in words :: c !in w
    ensures Split(Join(words, c), c) == words
  {
    SplitWithout(words[0], c);
    if |words| > 1 {
      SplitJoin(words[1..], c);
      SplitAtSeparator(words[0], c, Join(words[1..], c));
    }
    assert words == [words[0]] + words[1..];
  }

  // ---------------------------------------------------------------------------------------
  // Decimal numbers
  // ---------------------------------------------------------------------------------------

  predicate IsDigit(c: char) {
    '0' <= c <= '9'
  }

  function Digit(n: nat): (c: char)
    requires n < 10
    ensures IsDigit(c)
  {
    ('0' as int + n) as char
  }

  /** `%d` of a non-negative integer. */
  function Itoa(n: nat): (s: string)
    ensures s != "" && forall c | c in s :: IsDigit(c)
  {
    if n < 10 then [Digit(n)] else Itoa(n / 10) + [Digit(n % 10)]
  }

  lemma {:induction false} ItoaInjective(m: nat, n: nat)
    requires Itoa(m) == Itoa(n)
    ensures m == n
  {
    var s := Itoa(m);
    assert s[|s| - 1] == Digit(m % 10) == Digit(n % 10);
    if m >= 10 && n >= 10 {
      assert Itoa(m / 10) == s[..|s| - 1] == Itoa(n / 10);
      ItoaInjective(m / 10, n / 10);
    }
  }

  /** The number that decimal digits spell, most significant first. */
  function Atoi(s: string): nat
    requires forall c | c in s :: IsDigit(c)
  {
    if s == "" then 0 else assert IsDigit(s[|s| - 1]); 10 * Atoi(s[..|s| - 1]) + (s[|s| - 1] as int - '0' as int)
  }

  /** A number is written as the digits that spell it, without a leading zero. */
  lemma {:induction false} ItoaSpells(n: nat)
    ensures Atoi(Itoa(n)) == n
    ensures Itoa(n)[0] == '0' ==> n == 0 && |Itoa(n)| == 1
  {
    var s := Itoa(n);
    assert s[..|s| - 1] == if n < 10 then "" else Itoa(n / 10);
    if n >= 10 {
      ItoaSpells(n / 10);
    }
  }

  // ---------------------------------------------------------------------------------------
  // Order and sorting
  // ---------------------------------------------------------------------------------------

  function Codes(s: string): seq<int> {
    seq(|s|, i requires 0 <= i < |s| => s[i] as int)
  }

  /** `strings.Compare(a, b) < 0` */
  predicate Below(a: string, b: string) {
    Less(Codes(a), Codes(b))
  }

  lemma BelowTransitive(a: string, b: string, c: string)
    requires Below(a, b) && Below(b, c)
    ensures Below(a, c)
  {
    LessTransitive(Codes(a), Codes(b), Codes(c));
  }

  lemma BelowIrreflexive(a: string)
    ensures !Below(a, a)
  {
    LessIrreflexive(Codes(a));
  }

  lemma BelowTotal(a: string, b: string)
    ensures a == b || Below(a, b) || Below(b, a)
  {
    var x, y := Codes(a), Codes(b);
    LessTotal(x, y);
    if x == y {
      forall i | 0 <= i < |a|
        ensures a[i] == b[i]
      {
        assert x[i] == a[i] as int && y[i] == b[i] as int;
      }
      assert |x| == |a| && |y| == |b|;
    }
  }

  /** Strictly descending, hence without repetitions. */
  predicate Descending(s: seq<string>) {
    forall i, j | 0 <= i < j < |s| :: Below(s[j], s[i])
  }

  /** Two strictly descending lists of the same strings are the same list. */
  lemma {:induction false} DescendingUnique(s: seq<string>, t: seq<string>)
    requires Descending(s) && Descending(t)
    requires forall x :: x in s <==> x in t
    ensures s == t
  {
    assert s != [] ==> s[0] in s;
    assert t != [] ==> t[0] in t;
    if s != [] {
      if s[0] != t[0] {
        HeadIsGreatest(s, t[0]);
        HeadIsGreatest(t, s[0]);
        BelowTransitive(s[0], t[0], s[0]);
        BelowIrreflexive(s[0]);
      }
      TailMembers(s);
      TailMembers(t);
      DescendingUnique(s[1..], t[1..]);
    }
  }

  lemma HeadIsGreatest(s: seq<string>, x: string)
    requires Descending(s) && x in s && x != s[0]
    ensures Below(x, s[0])
  {
  }

  lemma TailMembers(s: seq<string>)
    requires Descending(s) && s != []
    ensures forall x :: x in s[1..] <==> x in s && x != s[0]
  {
    BelowIrreflexive(s[0]);
    forall x | x in s[1..]
      ensures x != s[0]
    {
      var i :| 1 <= i < |s| && s[i] == x;
      assert Below(s[i], s[0]);
    }
  }

  /** Inserts `x` into a descending list, unless it is there. */
  function Insert(s: seq<string>, x: string): (r: seq<string>)
    requires Descending(s)
    ensures Descending(r)
    ensures forall y :: y in r <==> y in s || y == x
  {
    if s == [] then [x]
    else if x == s[0] then s
    else
      BelowTotal(x, s[0]);
      if Below(s[0], x) then InsertInFront(s, x); [x] + s
      else
        var rest := Insert(s[1..], x);
        BelowRest(s[0], s[1..], rest, x);
        [s[0]] + rest
  }

  lemma InsertInFront(s: seq<string>, x: string)
    requires Descending(s) && s != [] && Below(s[0], x)
    ensures Descending([x] + s)
  {
    forall j | 0 <= j < |s|
      ensures Below(s[j], x)
    {
      if j > 0 {
        BelowTransitive(s[j], s[0], x);
      }
    }
  }

  lemma BelowRest(head: string, tail: seq<string>, rest: seq<string>, x: string)
    requires Below(x, head) && (forall y | y in tail :: Below(y, head))
    requires Descending(rest) && forall y :: y in rest <==> y in tail || y == x
    ensures Descending([head] + rest)
  {
    forall j | 0 <= j < |rest|
      ensures Below(rest[j], head)
    {
      assert rest[j] in rest;
    }
  }

  /** `sort.Slice` with the descending comparison, on a list without repetitions. */
  method SortDescending(keys: seq<string>) returns (sorted: seq<string>)
    ensures Descending(sorted)
    ensures forall x :: x in sorted <==> x in keys
  {
    sorted := [];
    for i := 0 to |keys|
      invariant Descending(sorted)
      invariant forall x :: x in sorted <==> x in keys[..i]
    {
      sorted := Insert(sorted, keys[i]);
      assert keys[..i + 1] == keys[..i] + [keys[i]];
    }
    assert keys[..|keys|] == keys;
  }
}
