/** Sums over the values of a map, for conservation laws. */
module Totals {

  ghost function Pick(keys: set<string>): (k: string)
    requires keys != {}
    ensures k in keys
  {
    var k :| k in keys;
    k
  }

  /** The sum of the values at the keys. */
  ghost function SumOver(m: map<string, int>, keys: set<string>): int {
    if keys == {} then 0
    else
      var k := Pick(keys);
      At(m, k) + SumOver(m, keys - {k})
  }

  /** The sum of all values. */
  ghost function Total(m: map<string, int>): int {
    SumOver(m, m.Keys)
  }

  /** Any key can be taken out first. */
  lemma {:induction false} SumSplit(m: map<string, int>, keys: set<string>, k: string)
    requires k in keys
    ensures SumOver(m, keys) == At(m, k) + SumOver(m, keys - {k})
  {
    var j := Pick(keys);
    if j != k {
      SumSplit(m, keys - {j}, k);
      SumSplit(m, keys - {k}, j);
      assert keys - {j} - {k} == keys - {k} - {j};
    }
  }

  lemma {:induction false} SumElsewhere(m: map<string, int>, n: map<string, int>, keys: set<string>)
    requires forall k | k in keys :: At(m, k) == At(n, k)
    ensures SumOver(m, keys) == SumOver(n, keys)
  {
    if keys != {} {
      SumElsewhere(m, n, keys - {Pick(keys)});
    }
  }

  function At(m: map<string, int>, k: string): int {
    if k in m then m[k] else 0
  }

  lemma TotalUpdate(m: map<string, int>, n: map<string, int>, k: string, v: int)
    requires n == m[k := v]
    ensures Total(n) == Total(m) - At(m, k) + v
  {
    var rest := m.Keys - {k};
    assert n.Keys - {k} == rest;
    SumSplit(n, n.Keys, k);
    SumElsewhere(m, n, rest);
    if k in m {
      SumSplit(m, m.Keys, k);
    } else {
      assert m.Keys == rest;
    }
  }

  /** Takes `amount` from one account and gives it to another, or to the same. */
  function Move(m: map<string, int>, from: string, to: string, amount: int): map<string, int> {
    var taken := m[from := At(m, from) - amount];
    taken[to := At(taken, to) + amount]
  }

  lemma MoveAt(m: map<string, int>, from: string, to: string, amount: int, k: string)
    ensures At(Move(m, from, to, amount), k) ==
            At(m, k) - (if k == from then amount else 0) + (if k == to then amount else 0)
  {
  }

  lemma MoveTotal(m: map<string, int>, from: string, to: string, amount: int)
    ensures Total(Move(m, from, to, amount)) == Total(m)
  {
    var taken := m[from := At(m, from) - amount];
    TotalUpdate(m, taken, from, At(m, from) - amount);
    TotalUpdate(taken, Move(m, from, to, amount), to, At(taken, to) + amount);
  }
}
