/** Sums over finite sets of integers. */
module SetSum {
  lemma NotEmpty(s: set<int>)
    ensures s == {} || exists x :: x in s
  {
    if forall x :: x !in s {
      assert s == {};
    }
  }

  /** The sum of `f` over `s`. */
  ghost function Sum(f: map<int, int>, s: set<int>): int
    requires s <= f.Keys
  {
    if s == {} then 0
    else
      NotEmpty(s);
      var x :| x in s;
      f[x] + Sum(f, s - {x})
  }

  lemma {:induction false} SumRemove(f: map<int, int>, s: set<int>, x: int)
    requires s <= f.Keys && x in s
    ensures Sum(f, s) == f[x] + Sum(f, s - {x})
    decreases s
  {
    var y :| y in s && Sum(f, s) == f[y] + Sum(f, s - {y});
    if y != x {
      SumRemove(f, s - {y}, x);
      SumRemove(f, s - {x}, y);
      assert s - {y} - {x} == s - {x} - {y};
    }
  }

  lemma {:induction false} SumUnion(f: map<int, int>, a: set<int>, b: set<int>)
    requires a <= f.Keys && b <= f.Keys && a !! b
    ensures Sum(f, a + b) == Sum(f, a) + Sum(f, b)
    decreases a
  {
    if a == {} {
      assert a + b == b;
    } else {
      NotEmpty(a);
      var x :| x in a;
      SumRemove(f, a, x);
      SumRemove(f, a + b, x);
      SumUnion(f, a - {x}, b);
      assert a + b - {x} == (a - {x}) + b;
    }
  }

  lemma {:induction false} SumAgrees(f: map<int, int>, g: map<int, int>, s: set<int>)
    requires s <= f.Keys && s <= g.Keys && forall x | x in s :: f[x] == g[x]
    ensures Sum(f, s) == Sum(g, s)
    decreases s
  {
    if s != {} {
      NotEmpty(s);
      var x :| x in s;
      SumRemove(f, s, x);
      SumRemove(g, s, x);
      SumAgrees(f, g, s - {x});
    }
  }

  /** A key added to a map adds its value to the sum of all values. */
  lemma SumExtend(f: map<int, int>, x: int, v: int)
    requires x !in f
    ensures Sum(f[x := v], f[x := v].Keys) == v + Sum(f, f.Keys)
  {
    var g := f[x := v];
    SumRemove(g, g.Keys, x);
    assert g.Keys - {x} == f.Keys;
    SumAgrees(f, g, f.Keys);
  }

  /** A loop that adds up `f` over a set in any order. */
  method Total(f: map<int, int>, s: set<int>) returns (sum: int)
    requires s <= f.Keys
    ensures sum == Sum(f, s)
  {
    sum := 0;
    var rest := s;
    while rest != {}
      invariant rest <= s && sum + Sum(f, rest) == Sum(f, s)
      decreases rest
    {
      NotEmpty(rest);
      var x :| x in rest;
      SumRemove(f, rest, x);
      sum := sum + f[x];
      rest := rest - {x};
    }
  }
}
