/** The reconstruction order over the call graph: callees first, smallest first among
    those that can be written, and what a cycle of calls does to it.

    A function is named by its rank in alphabetical order. */
module CallOrder {
  import CfgSplit
  import SetSum

  /** The call graph: who calls whom, and the size of every known symbol. */
  datatype Graph = Graph(edges: map<int, set<int>>, size: map<int, int>)

  function Calls(g: Graph, n: int): set<int> {
    if n in g.edges then g.edges[n] else {}
  }

  /** The callees that count: kept, and not the function itself. */
  function Callees(g: Graph, keep: set<int>, n: int): set<int> {
    Calls(g, n) * keep - {n}
  }

  predicate Before(g: Graph, a: int, b: int)
    requires a in g.size && b in g.size
  {
    g.size[a] < g.size[b] || (g.size[a] == g.size[b] && a < b)
  }

  /** Everything `n` calls has been listed, and `n` has not. */
  ghost predicate Open(g: Graph, keep: set<int>, done: set<int>, n: int) {
    n in keep && n !in done && Callees(g, keep, n) <= done
  }

  /** `n` is the smallest open function. */
  ghost predicate Picks(g: Graph, keep: set<int>, done: set<int>, n: int)
    requires keep <= g.size.Keys
  {
    Open(g, keep, done, n) && forall m | Open(g, keep, done, m) && m != n :: Before(g, n, m)
  }

  function Elems(s: seq<int>): set<int> {
    set x | x in s
  }

  /** Each entry is the smallest function open at its turn. */
  ghost predicate Greedy(g: Graph, keep: set<int>, out: seq<int>)
    requires keep <= g.size.Keys
  {
    forall i | 0 <= i < |out| :: Picks(g, keep, Elems(out[..i]), out[i])
  }

  /** A greedy order that stops only when nothing is open. */
  ghost predicate IsOrder(g: Graph, keep: set<int>, out: seq<int>)
    requires keep <= g.size.Keys
  {
    Greedy(g, keep, out) && forall n :: !Open(g, keep, Elems(out), n)
  }

  // ------------------------------------------------------------------------ the sort

  /** The in-degree left: callees not yet listed. */
  ghost function Waiting(g: Graph, keep: set<int>, done: set<int>, n: int): int {
    Size(Callees(g, keep, n) - done)
  }

  /** Cardinality, under a name that can be kept out of large proofs. */
  ghost function Size(s: set<int>): int {
    |s|
  }

  lemma SizePlus(s: set<int>, c: int)
    requires c !in s
    ensures Size(s + {c}) == Size(s) + 1
  {
  }

  ghost function Callers(g: Graph, keep: set<int>, c: int): set<int> {
    set n | n in keep && c in Callees(g, keep, n)
  }

  lemma WaitingDrops(g: Graph, keep: set<int>, done: set<int>, n: int, d: int)
    requires n !in done
    ensures Waiting(g, keep, done + {n}, d) == Waiting(g, keep, done, d) - if n in Callees(g, keep, d) then 1 else 0
  {
    var c := Callees(g, keep, d);
    assert c - (done + {n}) == (c - done) - {n};
  }

  lemma WaitingZero(g: Graph, keep: set<int>, done: set<int>, n: int)
    ensures Waiting(g, keep, done, n) == 0 <==> Callees(g, keep, n) <= done
  {
    assert Callees(g, keep, n) <= done <==> Callees(g, keep, n) - done == {};
  }

  /** `rdeps` once every function outside `rest` has been noted with its callees. */
  ghost predicate Rows(g: Graph, keep: set<int>, rdeps: map<int, set<int>>, rest: set<int>) {
    rdeps.Keys == keep && forall c | c in keep :: rdeps[c] == Callers(g, keep, c) - rest
  }

  /** `more` is `rdeps` with `n` noted as a caller of each of `callees`. */
  ghost predicate Noted(rdeps: map<int, set<int>>, more: map<int, set<int>>, callees: set<int>, n: int) {
    more.Keys == rdeps.Keys && forall c | c in rdeps :: more[c] == rdeps[c] + if c in callees then {n} else {}
  }

  lemma NoteNone(g: Graph, keep: set<int>, rdeps: map<int, set<int>>, n: int)
    ensures Noted(rdeps, rdeps, {}, n) && Size({}) == 0 && Callees(g, keep, n) - Calls(g, n) == {}
  {
  }

  lemma NoteOne(rdeps: map<int, set<int>>, more: map<int, set<int>>, callees: set<int>, n: int, c: int)
    requires Noted(rdeps, more, callees, n) && c in more
    ensures Noted(rdeps, more[c := more[c] + {n}], callees + {c}, n)
  {
    var next := more[c := more[c] + {n}];
    forall k | k in rdeps
      ensures next[k] == rdeps[k] + if k in callees + {c} then {n} else {}
    {
      assert more[k] == rdeps[k] + if k in callees then {n} else {};
    }
  }

  lemma RowsStep(g: Graph, keep: set<int>, rdeps: map<int, set<int>>, more: map<int, set<int>>, rest: set<int>, n: int)
    requires Rows(g, keep, rdeps, rest) && Noted(rdeps, more, Callees(g, keep, n), n) && n in rest && n in keep
    ensures Rows(g, keep, more, rest - {n})
  {
    hide Callees;
    forall c | c in keep
      ensures more[c] == Callers(g, keep, c) - (rest - {n})
    {
      assert rdeps[c] == Callers(g, keep, c) - rest;
      CallersStep(g, keep, c, rest, n);
    }
  }

  lemma CallersStep(g: Graph, keep: set<int>, c: int, rest: set<int>, n: int)
    requires n in rest && n in keep
    ensures Callers(g, keep, c) - (rest - {n})
            == (Callers(g, keep, c) - rest) + if c in Callees(g, keep, n) then {n} else {}
  {
  }

  lemma CalleesStep(g: Graph, keep: set<int>, n: int, was: set<int>, c: int)
    requires c in was && was <= Calls(g, n)
    ensures var callees := Callees(g, keep, n);
            callees - (was - {c}) == (callees - was) + if c in keep && c != n then {c} else {}
  {
  }

  /** `indeg` and `rdeps`, filled by walking every kept function's callees. */
  method Degrees(g: Graph, keep: set<int>) returns (indeg: map<int, int>, rdeps: map<int, set<int>>)
    ensures indeg.Keys == keep && rdeps.Keys == keep
    ensures forall n | n in keep :: indeg[n] == Waiting(g, keep, {}, n)
    ensures forall c | c in keep :: rdeps[c] == Callers(g, keep, c)
  {
    hide Waiting, Callees;
    indeg := map n | n in keep :: 0;
    rdeps := map n | n in keep :: {};
    var rest := keep;
    assert Rows(g, keep, rdeps, rest);
    while rest != {}
      invariant rest <= keep && indeg.Keys == keep && Rows(g, keep, rdeps, rest)
      invariant forall n | n in keep :: indeg[n] == if n in rest then 0 else Waiting(g, keep, {}, n)
      decreases rest
    {
      hide Callers;
      SetSum.NotEmpty(rest);
      var n :| n in rest;
      var size, more := CountCallees(g, keep, n, rdeps);
      indeg := indeg[n := size];
      RowsStep(g, keep, rdeps, more, rest, n);
      rdeps := more;
      rest := rest - {n};
    }
  }

  /** The inner loop: one function's callees counted, and itself noted as their caller. */
  method CountCallees(g: Graph, keep: set<int>, n: int, rdeps: map<int, set<int>>)
    returns (size: int, more: map<int, set<int>>)
    requires n in keep && rdeps.Keys == keep
    ensures size == Waiting(g, keep, {}, n) && Noted(rdeps, more, Callees(g, keep, n), n)
  {
    hide Callees, Size, Noted, Calls;
    size, more := 0, rdeps;
    var todo := Calls(g, n);
    ghost var counted: set<int> := {};
    NoteNone(g, keep, rdeps, n);
    while todo != {}
      invariant todo <= Calls(g, n) && more.Keys == keep
      invariant counted == Callees(g, keep, n) - todo
      invariant size == Size(counted) && Noted(rdeps, more, counted, n)
      decreases todo
    {
      SetSum.NotEmpty(todo);
      var c :| c in todo;
      CalleesStep(g, keep, n, todo, c);
      if c in keep && c != n {
        NoteOne(rdeps, more, counted, n, c);
        SizePlus(counted, c);
        size := size + 1;
        more := more[c := more[c] + {n}];
        counted := counted + {c};
      }
      todo := todo - {c};
    }
    assert counted == Callees(g, keep, n);
  }

  ghost predicate Ascending(g: Graph, s: seq<int>)
    requires Elems(s) <= g.size.Keys
  {
    forall i, j | 0 <= i < j < |s| :: Before(g, s[i], s[j])
  }

  /** Append and sort again: the new entry goes to its place. */
  method Insert(g: Graph, s: seq<int>, d: int) returns (r: seq<int>)
    requires Elems(s) + {d} <= g.size.Keys && d !in s
    requires forall i | 0 <= i < |s| :: s[i] in g.size
    requires Ascending(g, s)
    ensures Elems(r) == Elems(s) + {d}
    ensures forall i | 0 <= i < |r| :: r[i] in g.size
    ensures Ascending(g, r)
  {
    var i := |s|;
    while i > 0 && Before(g, d, s[i - 1])
      invariant 0 <= i <= |s|
      invariant forall j | i <= j < |s| :: Before(g, d, s[j])
    {
      i := i - 1;
    }
    assert forall j | 0 <= j < i :: Before(g, s[j], d) by {
      forall j | 0 <= j < i
        ensures Before(g, s[j], d)
      {
        assert s[i - 1] != d;
        assert j < i - 1 ==> Before(g, s[j], s[i - 1]);
      }
    }
    r := s[..i] + [d] + s[i..];
    InsertElems(s, i, d);
  }

  lemma InsertElems(s: seq<int>, i: nat, d: int)
    requires i <= |s|
    ensures Elems(s[..i] + [d] + s[i..]) == Elems(s) + {d}
  {
    assert s == s[..i] + s[i..];
  }

  /** With every function listed, all it calls is listed. */
  ghost predicate Complete(g: Graph, keep: set<int>, done: set<int>) {
    forall m | m in done :: Callees(g, keep, m) <= done
  }

  /** What the main loop keeps between turns. */
  ghost predicate Turn(g: Graph, keep: set<int>, indeg: map<int, int>, ready: seq<int>, done: set<int>) {
    && indeg.Keys == keep
    && (forall n | n in keep :: indeg[n] == Waiting(g, keep, done, n))
    && (forall n :: n in ready <==> Open(g, keep, done, n))
  }

  /** The functions ready at the start, sorted. */
  method FirstReady(g: Graph, keep: set<int>, indeg: map<int, int>) returns (ready: seq<int>)
    requires keep <= g.size.Keys && indeg.Keys == keep
    requires forall n | n in keep :: indeg[n] == Waiting(g, keep, {}, n)
    ensures Elems(ready) <= keep && Ascending(g, ready) && Turn(g, keep, indeg, ready, {})
  {
    hide Waiting, Callees;
    ready := [];
    var rest := set n | n in keep && indeg[n] == 0;
    ghost var start := rest;
    while rest != {}
      invariant rest <= start && Elems(ready) == start - rest && Ascending(g, ready)
      decreases rest
    {
      SetSum.NotEmpty(rest);
      var n :| n in rest;
      assert n !in Elems(ready);
      ready := Insert(g, ready, n);
      rest := rest - {n};
    }
    forall n
      ensures n in ready <==> Open(g, keep, {}, n)
    {
      assert n in ready <==> n in Elems(ready);
      WaitingZero(g, keep, {}, n);
    }
  }

  /** One turn's inner loop: the callers of `n` lose one callee each, and those left with
      none become ready. */
  method Release(
      g: Graph, keep: set<int>, indeg: map<int, int>, ready: seq<int>, done: set<int>, n: int, callers: set<int>)
    returns (indeg': map<int, int>, ready': seq<int>)
    requires keep <= g.size.Keys && Elems(ready) <= keep && Ascending(g, ready)
    requires Complete(g, keep, done) && Open(g, keep, done, n) && n !in ready && callers == Callers(g, keep, n)
    requires indeg.Keys == keep && forall m | m in keep :: indeg[m] == Waiting(g, keep, done, m)
    requires forall m :: m in ready <==> Open(g, keep, done, m) && m != n
    ensures Elems(ready') <= keep && Ascending(g, ready') && Turn(g, keep, indeg', ready', done + {n})
  {
    hide Waiting, Callees;
    indeg', ready' := indeg, ready;
    var order := CfgSplit.Sorted(callers);
    ghost var after := done + {n};
    ghost var freed: set<int> := {};
    for k := 0 to |order|
      invariant indeg'.Keys == keep && Elems(ready') <= keep && Ascending(g, ready')
      invariant forall m | m in keep :: indeg'[m] == Waiting(g, keep, if m in order[..k] then after else done, m)
      invariant Elems(ready') == Elems(ready) + freed
      invariant forall m :: m in freed <==> m in order[..k] && Waiting(g, keep, after, m) == 0
    {
      var d := order[k];
      assert d in callers;
      assert d !in order[..k];
      WaitingDrops(g, keep, done, n, d);
      indeg' := indeg'[d := indeg'[d] - 1];
      if indeg'[d] == 0 {
        NotReadyYet(g, keep, done, n, d);
        assert d !in Elems(ready');
        ready' := Insert(g, ready', d);
        freed := freed + {d};
      }
    }
    assert order[..|order|] == order;
    assert forall m :: m in order <==> m in callers;
    TurnTaken(g, keep, indeg', ready, ready', done, n, freed);
  }

  /** With every caller visited the degrees and the list are those of the next turn. */
  lemma TurnTaken(
      g: Graph, keep: set<int>, indeg: map<int, int>, ready: seq<int>, ready': seq<int>,
      done: set<int>, n: int, freed: set<int>)
    requires Complete(g, keep, done) && Open(g, keep, done, n) && indeg.Keys == keep
    requires forall m | m in keep ::
               indeg[m] == Waiting(g, keep, if m in Callers(g, keep, n) then done + {n} else done, m)
    requires forall m :: m in ready <==> Open(g, keep, done, m) && m != n
    requires Elems(ready') == Elems(ready) + freed
    requires forall m :: m in freed <==> m in Callers(g, keep, n) && Waiting(g, keep, done + {n}, m) == 0
    ensures Turn(g, keep, indeg, ready', done + {n})
  {
    hide Waiting, Callees;
    forall m | m in keep
      ensures indeg[m] == Waiting(g, keep, done + {n}, m)
    {
      WaitingDrops(g, keep, done, n, m);
    }
    forall m
      ensures m in ready' <==> Open(g, keep, done + {n}, m)
    {
      assert m in ready' <==> m in Elems(ready');
      assert m in ready <==> m in Elems(ready);
      OpenAfter(g, keep, done, n, m);
    }
  }

  lemma NotReadyYet(g: Graph, keep: set<int>, done: set<int>, n: int, d: int)
    requires n !in done && d in Callers(g, keep, n)
    ensures !Open(g, keep, done, d)
  {
  }

  /** What is open once `n` is listed: what was open before, less `n`, and the callers of
      `n` that wait for nothing more. */
  lemma OpenAfter(g: Graph, keep: set<int>, done: set<int>, n: int, m: int)
    requires Complete(g, keep, done) && Open(g, keep, done, n)
    ensures Open(g, keep, done + {n}, m)
            == ((Open(g, keep, done, m) && m != n)
                || (m in Callers(g, keep, n) && Waiting(g, keep, done + {n}, m) == 0))
  {
    WaitingZero(g, keep, done + {n}, m);
  }

  /** The `--order` loop. */
  method Order(g: Graph, keep: set<int>) returns (out: seq<int>)
    requires keep <= g.size.Keys
    ensures IsOrder(g, keep, out) && Planned(g, keep, out)
  {
    var indeg, rdeps := Degrees(g, keep);
    var ready := FirstReady(g, keep, indeg);
    out := [];
    while ready != []
      invariant Elems(out) <= keep && Elems(ready) <= keep && Ascending(g, ready)
      invariant Turn(g, keep, indeg, ready, Elems(out)) && Greedy(g, keep, out) && Complete(g, keep, Elems(out))
      decreases keep - Elems(out)
    {
      hide Waiting, Callees;
      var n := ready[0];
      assert n in ready;
      HeadPicks(g, keep, indeg, ready, Elems(out));
      TailLeft(g, ready);
      var indeg', ready' := Release(g, keep, indeg, ready[1..], Elems(out), n, rdeps[n]);
      GreedySnoc(g, keep, out, n);
      out := out + [n];
      indeg, ready := indeg', ready';
    }
    assert forall n :: n !in ready;
    OrderIsPlanned(g, keep, out);
  }

  lemma HeadPicks(g: Graph, keep: set<int>, indeg: map<int, int>, ready: seq<int>, done: set<int>)
    requires keep <= g.size.Keys && Elems(ready) <= keep && Ascending(g, ready) && ready != []
    requires Turn(g, keep, indeg, ready, done)
    ensures Picks(g, keep, done, ready[0])
  {
    hide Open;
    assert ready[0] in ready;
  }

  lemma TailLeft(g: Graph, ready: seq<int>)
    requires Elems(ready) <= g.size.Keys && Ascending(g, ready) && ready != []
    ensures Elems(ready[1..]) <= Elems(ready) && Ascending(g, ready[1..])
    ensures forall m :: m in ready[1..] <==> m in ready && m != ready[0]
  {
    forall m | m in ready[1..]
      ensures m != ready[0]
    {
      var i :| 1 <= i < |ready| && ready[i] == m;
      assert Before(g, ready[0], ready[i]);
    }
  }

  lemma GreedySnoc(g: Graph, keep: set<int>, out: seq<int>, n: int)
    requires keep <= g.size.Keys && Greedy(g, keep, out) && Picks(g, keep, Elems(out), n)
    ensures Greedy(g, keep, out + [n]) && Elems(out + [n]) == Elems(out) + {n}
  {
    forall i | 0 <= i < |out + [n]|
      ensures Picks(g, keep, Elems((out + [n])[..i]), (out + [n])[i])
    {
      assert (out + [n])[..i] == out[..i];
      assert out[..|out|] == out;
    }
  }

  // ---------------------------------------------------------- what the order promises

  /** Nothing is listed twice. */
  lemma ListedOnce(g: Graph, keep: set<int>, out: seq<int>, i: nat, j: nat)
    requires keep <= g.size.Keys && Greedy(g, keep, out) && i < j < |out|
    ensures out[i] != out[j]
  {
    assert Picks(g, keep, Elems(out[..j]), out[j]);
    assert out[i] == out[..j][i];
  }

  /** Every callee of a listed function is listed, and only before it. */
  lemma CalleesFirst(g: Graph, keep: set<int>, out: seq<int>, i: nat, c: int)
    requires keep <= g.size.Keys && Greedy(g, keep, out) && i < |out| && c in Callees(g, keep, out[i])
    ensures c in out && forall j | 0 <= j < |out| && out[j] == c :: j < i
  {
    assert Picks(g, keep, Elems(out[..i]), out[i]);
    assert c in out[..i];
    var k :| 0 <= k < i && out[k] == c;
    forall j | k < j < |out|
      ensures out[j] != c
    {
      ListedOnce(g, keep, out, k, j);
    }
  }

  lemma {:induction false} OrdersAgree(g: Graph, keep: set<int>, a: seq<int>, b: seq<int>, n: nat)
    requires keep <= g.size.Keys && IsOrder(g, keep, a) && IsOrder(g, keep, b) && n <= |a|
    ensures n <= |b| && a[..n] == b[..n]
  {
    if n > 0 {
      OrdersAgree(g, keep, a, b, n - 1);
      assert Picks(g, keep, Elems(a[..n - 1]), a[n - 1]);
      assert b[..|b|] == b;
      assert n - 1 < |b|;
      assert Picks(g, keep, Elems(b[..n - 1]), b[n - 1]);
    }
  }

  /** There is only one such order. */
  lemma OrderUnique(g: Graph, keep: set<int>, a: seq<int>, b: seq<int>)
    requires keep <= g.size.Keys && IsOrder(g, keep, a) && IsOrder(g, keep, b)
    ensures a == b
  {
    OrdersAgree(g, keep, a, b, |a|);
    OrdersAgree(g, keep, b, a, |b|);
  }

  // ------------------------------------------------------ the order in the plainest terms

  /** `n` calls `c`, another function that was kept. */
  ghost predicate Needs(g: Graph, keep: set<int>, n: int, c: int) {
    n in g.edges && c in g.edges[n] && c in keep && c != n
  }

  /** By size, and by name where sizes are equal. */
  ghost predicate Smaller(g: Graph, a: int, b: int) {
    && a in g.size && b in g.size
    && if g.size[a] == g.size[b] then a < b else g.size[a] < g.size[b]
  }

  /** Everything a listed function needs is listed before it. */
  ghost predicate NeedsMet(g: Graph, keep: set<int>, out: seq<int>) {
    forall i, c | 0 <= i < |out| && Needs(g, keep, out[i], c) :: c in out[..i]
  }

  /** Of two listed functions the later one is the smaller only if it had to wait for
      something. */
  ghost predicate SmallestFirst(g: Graph, keep: set<int>, out: seq<int>) {
    forall i, j | 0 <= i < j < |out| && (forall c | Needs(g, keep, out[j], c) :: c in out[..i]) ::
      Smaller(g, out[i], out[j])
  }

  /** Whatever is left out needs something that is left out. */
  ghost predicate RestWaits(g: Graph, keep: set<int>, out: seq<int>) {
    forall n | n in keep && n !in out :: exists c :: Needs(g, keep, n, c) && c !in out
  }

  /** The order, said of the calls, the sizes and the list alone. */
  ghost predicate Planned(g: Graph, keep: set<int>, out: seq<int>) {
    && (forall i | 0 <= i < |out| :: out[i] in keep)
    && (forall i, j | 0 <= i < j < |out| :: out[i] != out[j])
    && NeedsMet(g, keep, out) && SmallestFirst(g, keep, out) && RestWaits(g, keep, out)
  }

  lemma NeedsAreCallees(g: Graph, keep: set<int>, n: int, c: int)
    ensures Needs(g, keep, n, c) <==> c in Callees(g, keep, n)
  {
  }

  lemma OpenPlainly(g: Graph, keep: set<int>, s: seq<int>, n: int)
    ensures Open(g, keep, Elems(s), n)
       <==> n in keep && n !in s && forall c | Needs(g, keep, n, c) :: c in s
  {
    hide Needs, Callees;
    forall c
      ensures Needs(g, keep, n, c) <==> c in Callees(g, keep, n)
    {
      NeedsAreCallees(g, keep, n, c);
    }
    assert forall c :: c in Elems(s) <==> c in s;
    if n in keep && n !in s && forall c | Needs(g, keep, n, c) :: c in s {
      forall c | c in Callees(g, keep, n)
        ensures c in Elems(s)
      {
        assert Needs(g, keep, n, c);
      }
    }
  }

  lemma BeforeIsSmaller(g: Graph, a: int, b: int)
    requires a in g.size && b in g.size
    ensures Before(g, a, b) <==> Smaller(g, a, b)
  {
  }

  lemma OrderIsPlanned(g: Graph, keep: set<int>, out: seq<int>)
    requires keep <= g.size.Keys && IsOrder(g, keep, out)
    ensures Planned(g, keep, out)
  {
    hide Needs, Open, Before, Smaller;
    forall i | 0 <= i < |out|
      ensures Open(g, keep, Elems(out[..i]), out[i]) && out[i] in keep
      ensures forall c | Needs(g, keep, out[i], c) :: c in out[..i]
    {
      assert Picks(g, keep, Elems(out[..i]), out[i]);
      OpenPlainly(g, keep, out[..i], out[i]);
    }
    forall i, j | 0 <= i < j < |out|
      ensures out[i] != out[j]
    {
      ListedOnce(g, keep, out, i, j);
    }
    forall i, j | 0 <= i < j < |out| && (forall c | Needs(g, keep, out[j], c) :: c in out[..i])
      ensures Smaller(g, out[i], out[j])
    {
      assert Picks(g, keep, Elems(out[..i]), out[i]);
      OpenPlainly(g, keep, out[..i], out[j]);
      BeforeIsSmaller(g, out[i], out[j]);
    }
    forall n | n in keep && n !in out
      ensures exists c :: Needs(g, keep, n, c) && c !in out
    {
      OpenPlainly(g, keep, out, n);
    }
  }

  /** That says it all: a list is the order exactly when it is so. */
  lemma PlannedExactly(g: Graph, keep: set<int>, out: seq<int>)
    requires keep <= g.size.Keys
    ensures IsOrder(g, keep, out) <==> Planned(g, keep, out)
  {
    hide Needs, Open, Before, Smaller;
    if IsOrder(g, keep, out) {
      OrderIsPlanned(g, keep, out);
    }
    if Planned(g, keep, out) {
      forall i | 0 <= i < |out|
        ensures Picks(g, keep, Elems(out[..i]), out[i])
      {
        PlannedPicks(g, keep, out, i);
      }
      forall n
        ensures !Open(g, keep, Elems(out), n)
      {
        OpenPlainly(g, keep, out, n);
      }
    }
  }

  lemma PlannedPicks(g: Graph, keep: set<int>, out: seq<int>, i: nat)
    requires keep <= g.size.Keys && Planned(g, keep, out) && i < |out|
    ensures Picks(g, keep, Elems(out[..i]), out[i])
  {
    hide Needs, Open, Before, Smaller;
    OpenPlainly(g, keep, out[..i], out[i]);
    forall m | Open(g, keep, Elems(out[..i]), m) && m != out[i]
      ensures m in g.size && Before(g, out[i], m)
    {
      OpenPlainly(g, keep, out[..i], m);
      var j := PlannedLists(g, keep, out, i, m);
      BeforeIsSmaller(g, out[i], m);
    }
  }

  /** What could be listed at some turn is listed. */
  lemma PlannedLists(g: Graph, keep: set<int>, out: seq<int>, i: nat, m: int) returns (j: nat)
    requires Planned(g, keep, out) && i < |out| && m != out[i]
    requires m in keep && m !in out[..i] && forall c | Needs(g, keep, m, c) :: c in out[..i]
    ensures i < j < |out| && out[j] == m
  {
    hide Needs, Smaller;
    assert forall k | 0 <= k < i :: out[..i][k] == out[k];
    if m !in out {
      assert false;
    }
    j :| 0 <= j < |out| && out[j] == m;
  }

  // --------------------------------------------------------------------------- cycles

  /** A chain of calls, each to another kept function. */
  ghost predicate Walk(g: Graph, keep: set<int>, p: seq<int>) {
    && (forall i | 0 <= i < |p| :: p[i] in keep)
    && forall i, j | 0 <= i && j == i + 1 < |p| :: p[j] in Callees(g, keep, p[i])
  }

  /** A chain of calls from `n` that runs into a cycle of two or more functions. */
  ghost predicate MeetsCycle(g: Graph, keep: set<int>, n: int) {
    exists p: seq<int> :: p != [] && p[0] == n && Walk(g, keep, p) && Repeats(p)
  }

  /** Some entry comes again, at least two steps later. */
  ghost predicate Repeats(p: seq<int>) {
    exists i, j | 0 <= i && i + 2 <= j < |p| :: p[i] == p[j]
  }

  ghost function Position(out: seq<int>, n: int): (i: nat)
    requires n in out
    ensures i < |out| && out[i] == n
  {
    var i :| 0 <= i < |out| && out[i] == n;
    i
  }

  /** Along a chain that starts with a listed function, positions go down. */
  lemma {:induction false} WalkDescends(g: Graph, keep: set<int>, out: seq<int>, p: seq<int>, i: nat, j: nat)
    requires keep <= g.size.Keys && IsOrder(g, keep, out) && Walk(g, keep, p)
    requires i < j < |p| && p[i] in out
    ensures p[j] in out && Position(out, p[j]) < Position(out, p[i])
    decreases j - i
  {
    var k := Position(out, p[i]);
    assert p[i + 1] in Callees(g, keep, p[i]);
    CalleesFirst(g, keep, out, k, p[i + 1]);
    if i + 1 < j {
      WalkDescends(g, keep, out, p, i + 1, j);
    }
  }

  /** From a function left out there are chains of any length. */
  lemma {:induction false} LongWalk(g: Graph, keep: set<int>, out: seq<int>, n: int, len: nat) returns (p: seq<int>)
    requires keep <= g.size.Keys && IsOrder(g, keep, out) && n in keep && n !in out
    ensures |p| == len + 1 && p[0] == n && Walk(g, keep, p)
    decreases len
  {
    if len == 0 {
      p := [n];
    } else {
      assert !Open(g, keep, Elems(out), n) && n !in Elems(out);
      var waits := Callees(g, keep, n) - Elems(out);
      assert waits != {};
      SetSum.NotEmpty(waits);
      var c :| c in waits;
      var q := LongWalk(g, keep, out, c, len - 1);
      p := [n] + q;
    }
  }

  /** A sequence longer than the set its entries come from repeats itself. */
  lemma {:induction false} Pigeonhole(p: seq<int>, s: set<int>) returns (i: nat, j: nat)
    requires |p| > |s| && forall k | 0 <= k < |p| :: p[k] in s
    ensures i < j < |p| && p[i] == p[j]
    decreases s
  {
    var last := |p| - 1;
    if x :| 0 <= x < last && p[x] == p[last] {
      return x, last;
    }
    i, j := Pigeonhole(p[..last], s - {p[last]});
  }

  /** A function is left out of the order exactly when a cycle of two or more functions
      can be reached from it. */
  lemma LeftOutExactly(g: Graph, keep: set<int>, out: seq<int>, n: int)
    requires keep <= g.size.Keys && IsOrder(g, keep, out) && n in keep
    ensures n !in out <==> MeetsCycle(g, keep, n)
  {
    if n !in out {
      var p := LongWalk(g, keep, out, n, |keep|);
      var i, j := Pigeonhole(p, keep);
      assert p[i + 1] in Callees(g, keep, p[i]);
      assert Repeats(p);
    } else if MeetsCycle(g, keep, n) {
      var p :| p != [] && p[0] == n && Walk(g, keep, p) && Repeats(p);
      var i, j :| 0 <= i && i + 2 <= j < |p| && p[i] == p[j];
      if i > 0 {
        WalkDescends(g, keep, out, p, 0, i);
      }
      WalkDescends(g, keep, out, p, i, j);
    }
  }

  /** The report calls what is left over "in cycles"; a function that only calls into a
      cycle is left over too, and nothing it reaches calls it back. */
  lemma LeftOutButOnNoCycle()
    ensures var g := Graph(map[0 := {1}, 1 := {2}, 2 := {1}], map[0 := 1, 1 := 1, 2 := 1]);
            var keep := {0, 1, 2};
            && IsOrder(g, keep, [])
            && forall n | n in keep :: 0 !in Callees(g, keep, n)
  {
    var g := Graph(map[0 := {1}, 1 := {2}, 2 := {1}], map[0 := 1, 1 := 1, 2 := 1]);
    var keep := {0, 1, 2};
    assert 1 in Callees(g, keep, 0) && 2 in Callees(g, keep, 1) && 1 in Callees(g, keep, 2);
    assert Elems([]) == {};
  }

  // ----------------------------------------------------------------------- the closure

  /** Closed under calls to known symbols, and holding the root if it is known. */
  ghost predicate ClosedUnder(g: Graph, root: int, s: set<int>) {
    && (root in g.size ==> root in s)
    && forall n, c | n in s && c in Calls(g, n) && c in g.size :: c in s
  }

  /** `--of`: everything the root reaches; the least closed set. */
  method Closure(g: Graph, root: int) returns (keep: set<int>)
    ensures keep <= g.size.Keys && ClosedUnder(g, root, keep)
    ensures forall s | ClosedUnder(g, root, s) :: keep <= s
  {
    keep := {};
    var todo := {root};
    while todo != {}
      invariant keep <= g.size.Keys
      invariant root in g.size ==> root in keep || root in todo
      invariant forall n, c | n in keep && c in Calls(g, n) && c in g.size :: c in keep || c in todo
      invariant forall s | ClosedUnder(g, root, s) :: keep <= s && forall c | c in todo && c in g.size :: c in s
      decreases g.size.Keys - keep, todo
    {
      SetSum.NotEmpty(todo);
      var n :| n in todo;
      todo := todo - {n};
      if n in keep || n !in g.size {
        continue;
      }
      keep := keep + {n};
      todo := todo + Calls(g, n);
    }
  }

  lemma ElemsSnoc(s: seq<int>, x: int)
    ensures Elems(s + [x]) == Elems(s) + {x}
  {
  }

  /** The entries of `out` that are in `keep`, in the same order. */
  function Only(out: seq<int>, keep: set<int>): (r: seq<int>)
    ensures Elems(r) == Elems(out) * keep
  {
    if out == [] then []
    else
      var r := Only(out[..|out| - 1], keep);
      var x := out[|out| - 1];
      ElemsSnoc(out[..|out| - 1], x);
      ElemsSnoc(r, x);
      assert out == out[..|out| - 1] + [x];
      if x in keep then r + [x] else r
  }

  ghost predicate ClosedIn(g: Graph, all: set<int>, keep: set<int>) {
    keep <= all && forall n, c | n in keep && c in Calls(g, n) && c in all :: c in keep
  }

  lemma OpenRestricts(g: Graph, all: set<int>, keep: set<int>, done: set<int>, n: int)
    requires ClosedIn(g, all, keep)
    ensures Open(g, keep, done * keep, n) <==> n in keep && Open(g, all, done, n)
  {
    if n in keep {
      forall c | c in Callees(g, all, n)
        ensures c in Callees(g, keep, n)
      {
        assert c in Calls(g, n) && c in all;
      }
      assert Callees(g, keep, n) == Callees(g, all, n);
    }
  }

  lemma {:induction false} GreedyRestricts(g: Graph, all: set<int>, keep: set<int>, out: seq<int>)
    requires all <= g.size.Keys && ClosedIn(g, all, keep) && Greedy(g, all, out)
    ensures Greedy(g, keep, Only(out, keep))
  {
    hide Open, ClosedIn;
    if out != [] {
      var k := |out| - 1;
      var init, x := out[..k], out[k];
      forall i | 0 <= i < k
        ensures Picks(g, all, Elems(init[..i]), init[i])
      {
        assert init[..i] == out[..i];
        assert Picks(g, all, Elems(out[..i]), out[i]);
      }
      GreedyRestricts(g, all, keep, init);
      if x in keep {
        assert Picks(g, all, Elems(init), x);
        PicksRestricts(g, all, keep, Elems(init), x);
        GreedySnoc(g, keep, Only(init, keep), x);
      }
    }
  }

  lemma PicksRestricts(g: Graph, all: set<int>, keep: set<int>, done: set<int>, x: int)
    requires all <= g.size.Keys && ClosedIn(g, all, keep) && Picks(g, all, done, x) && x in keep
    ensures keep <= g.size.Keys && Picks(g, keep, done * keep, x)
  {
    OpenRestricts(g, all, keep, done, x);
    forall m | Open(g, keep, done * keep, m) && m != x
      ensures Before(g, x, m)
    {
      OpenRestricts(g, all, keep, done, m);
    }
  }

  /** Restricting the graph to what a function reaches lists exactly the entries of the
      whole order that are reached, in the same order. */
  lemma OrderRestricts(g: Graph, all: set<int>, keep: set<int>, whole: seq<int>, part: seq<int>)
    requires all <= g.size.Keys && ClosedIn(g, all, keep)
    requires IsOrder(g, all, whole) && IsOrder(g, keep, part)
    ensures part == Only(whole, keep)
  {
    var r := Only(whole, keep);
    GreedyRestricts(g, all, keep, whole);
    forall n
      ensures !Open(g, keep, Elems(r), n)
    {
      OpenRestricts(g, all, keep, Elems(whole), n);
    }
    OrderUnique(g, keep, part, r);
  }
}
