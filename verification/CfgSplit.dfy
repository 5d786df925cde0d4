/** Splitting one function into basic blocks and attributing its bytes to dispatch
    cases: sizes, leaders, blocks, reachability and the accounting. */
module CfgSplit {
  import opened Wrappers
  import opened SetSum

  /** What an instruction does to control: jump or return, conditional branch, neither. */
  datatype Flow = Jump | Branch | Fall

  /** An instruction; `target` is the address its operand names, if it names one. */
  datatype Insn = Insn(addr: int, size: int, flow: Flow, target: Option<int>)

  /** The code being split: instructions in address order, and the range they cover. */
  datatype Code = Code(insns: seq<Insn>, lo: int, hi: int)

  /** `direct_target`: the operand's address when it lies in the range. */
  function DirectTarget(c: Code, x: Insn): Option<int> {
    if x.target.Some? && c.lo <= x.target.value < c.hi then x.target else None
  }

  function Next(x: Insn): int {
    x.addr + x.size
  }

  /** Where control can go inside the range after one instruction. */
  function Successors(c: Code, x: Insn): seq<int> {
    (if x.flow != Fall && DirectTarget(c, x).Some? then [DirectTarget(c, x).value] else [])
    + (if x.flow != Jump && Next(x) < c.hi then [Next(x)] else [])
  }

  /** Control can go from an instruction to address `to`: after a jump or return only to the
      address its operand names in the range; after a conditional branch there or to the byte
      past the branch; after any other instruction to the byte past it.  Never outside. */
  ghost predicate Goes(c: Code, x: Insn, to: int) {
    && to < c.hi
    && match x.flow
       case Jump => x.target == Some(to) && c.lo <= to
       case Branch => (x.target == Some(to) && c.lo <= to) || to == x.addr + x.size
       case Fall => to == x.addr + x.size
  }

  /** The successors are exactly where control can go. */
  lemma SuccessorsGo(c: Code, x: Insn)
    ensures forall to :: to in Successors(c, x) <==> Goes(c, x, to)
  {
  }

  // ------------------------------------------------------------------------ size pass

  /** The address just past instruction `k - 1`, that is where instruction `k` starts. */
  function AddrAt(c: Code, k: nat): int
    requires k <= |c.insns|
  {
    if k < |c.insns| then c.insns[k].addr else c.hi
  }

  ghost predicate Adjoins(c: Code, k: nat)
    requires k < |c.insns|
  {
    c.insns[k].size > 0 && Next(c.insns[k]) == AddrAt(c, k + 1)
  }

  /** The instructions tile the range: each starts where the one before ends. */
  ghost predicate Tiled(c: Code) {
    && c.insns != [] && c.insns[0].addr == c.lo
    && forall k | 0 <= k < |c.insns| :: Adjoins(c, k)
  }

  /** What a listing must be for its sizes to come out right. */
  ghost predicate Listed(insns: seq<Insn>, lo: int, hi: int) {
    && insns != [] && insns[0].addr == lo
    && insns[|insns| - 1].size > 0 && Next(insns[|insns| - 1]) == hi
    && forall k | 0 <= k < |insns| - 1 :: Rises(insns, k)
  }

  ghost predicate Rises(insns: seq<Insn>, k: nat)
    requires k + 1 < |insns|
  {
    insns[k].addr < insns[k + 1].addr
  }

  /** The instruction with its size taken from the distance to the next, if that is positive. */
  function Sized(insns: seq<Insn>, k: nat): Insn
    requires k < |insns|
  {
    if k + 1 < |insns| && insns[k + 1].addr > insns[k].addr
    then insns[k].(size := insns[k + 1].addr - insns[k].addr) else insns[k]
  }

  /** Sizes from address differences, in place: whatever sizes the listing printed for the
      others, the result tiles the range exactly when addresses ascend from its start and the
      last size is right. */
  method SizePass(insns: array<Insn>, lo: int, hi: int)
    modifies insns
    ensures forall k | 0 <= k < insns.Length :: insns[k] == old(insns[k]).(size := insns[k].size)
    ensures Tiled(Code(insns[..], lo, hi)) <==> Listed(old(insns[..]), lo, hi)
  {
    ghost var was := insns[..];
    var i := 0;
    while i < insns.Length - 1
      invariant 0 <= i && (i == 0 || i <= insns.Length - 1)
      invariant forall k | 0 <= k < i :: insns[k] == Sized(was, k)
      invariant forall k | i <= k < insns.Length :: insns[k] == was[k]
    {
      var gap := insns[i + 1].addr - insns[i].addr;
      if gap > 0 {
        insns[i] := insns[i].(size := gap);
      }
      i := i + 1;
    }
    assert forall k | 0 <= k < insns.Length :: insns[..][k] == Sized(was, k);
    hide Tiled, Listed;
    TiledExactly(was, insns[..], lo, hi);
  }

  lemma TiledExactly(was: seq<Insn>, now: seq<Insn>, lo: int, hi: int)
    requires |now| == |was| && forall k | 0 <= k < |was| :: now[k] == Sized(was, k)
    ensures Tiled(Code(now, lo, hi)) <==> Listed(was, lo, hi)
  {
    var c, n := Code(now, lo, hi), |was|;
    if Tiled(c) {
      forall k | 0 <= k < n - 1
        ensures Rises(was, k)
      {
        assert Adjoins(c, k);
      }
      assert Adjoins(c, n - 1);
    }
    if Listed(was, lo, hi) {
      forall k | 0 <= k < n
        ensures Adjoins(c, k)
      {
        assert k < n - 1 ==> Rises(was, k);
      }
    }
  }

  // -------------------------------------------------------------------------- leaders

  predicate Ends(x: Insn) {
    x.flow != Fall
  }

  /** The leaders the tool collects: the entry, the in-range cases, and for every
      instruction that ends a block its target and the address after it. */
  ghost predicate LeadersOf(c: Code, cases: set<int>, leaders: set<int>) {
    && c.lo in leaders
    && (forall t | t in cases && c.lo <= t < c.hi :: t in leaders)
    && (forall k | 0 <= k < |c.insns| && Ends(c.insns[k]) ::
          && (DirectTarget(c, c.insns[k]).Some? ==> DirectTarget(c, c.insns[k]).value in leaders)
          && (Next(c.insns[k]) < c.hi ==> Next(c.insns[k]) in leaders))
    && (forall t | t in leaders :: t == c.lo || (t in cases && c.lo <= t < c.hi)
          || exists k | 0 <= k < |c.insns| && Ends(c.insns[k]) ::
               t == Next(c.insns[k]) < c.hi || DirectTarget(c, c.insns[k]) == Some(t))
  }

  method FindLeaders(c: Code, cases: set<int>) returns (leaders: set<int>)
    ensures LeadersOf(c, cases, leaders) && forall t :: t in leaders <==> Leads(c, cases, t)
  {
    hide Leads;
    leaders := {c.lo} + set t | t in cases && c.lo <= t < c.hi;
    for n := 0 to |c.insns|
      invariant c.lo in leaders && forall t | t in cases && c.lo <= t < c.hi :: t in leaders
      invariant forall k | 0 <= k < n && Ends(c.insns[k]) ::
                  && (DirectTarget(c, c.insns[k]).Some? ==> DirectTarget(c, c.insns[k]).value in leaders)
                  && (Next(c.insns[k]) < c.hi ==> Next(c.insns[k]) in leaders)
      invariant forall t | t in leaders :: t == c.lo || (t in cases && c.lo <= t < c.hi)
                  || exists k | 0 <= k < n && Ends(c.insns[k]) ::
                       t == Next(c.insns[k]) < c.hi || DirectTarget(c, c.insns[k]) == Some(t)
    {
      var x := c.insns[n];
      if Ends(x) {
        var t := DirectTarget(c, x);
        if t.Some? {
          leaders := leaders + {t.value};
        }
        if Next(x) < c.hi {
          leaders := leaders + {Next(x)};
        }
      }
    }
    LeadersExactly(c, cases, leaders);
  }

  /** Address `t` starts a block: the entry, a case, or in the range and named by an
      instruction that ends a block, or just past one. */
  ghost predicate Leads(c: Code, cases: set<int>, t: int) {
    || t == c.lo
    || (t in cases && c.lo <= t < c.hi)
    || exists k | 0 <= k < |c.insns| :: LeadBy(c, c.insns[k], t)
  }

  ghost predicate LeadBy(c: Code, x: Insn, t: int) {
    x.flow != Fall && t < c.hi && ((x.target == Some(t) && c.lo <= t) || t == x.addr + x.size)
  }

  lemma LeadersExactly(c: Code, cases: set<int>, leaders: set<int>)
    ensures LeadersOf(c, cases, leaders) <==> forall t :: t in leaders <==> Leads(c, cases, t)
  {
    if LeadersOf(c, cases, leaders) {
      forall t
        ensures t in leaders <==> Leads(c, cases, t)
      {
        if Leads(c, cases, t) && t != c.lo && t !in cases {
          var k :| 0 <= k < |c.insns| && LeadBy(c, c.insns[k], t);
          assert t in leaders;
        }
        if t in leaders && t != c.lo && t !in cases {
          var k :| 0 <= k < |c.insns| && Ends(c.insns[k])
            && (t == Next(c.insns[k]) < c.hi || DirectTarget(c, c.insns[k]) == Some(t));
          assert LeadBy(c, c.insns[k], t);
        }
      }
    }
    if forall t :: t in leaders <==> Leads(c, cases, t) {
      LeadsEnough(c, cases, leaders);
    }
  }

  lemma LeadsEnough(c: Code, cases: set<int>, leaders: set<int>)
    requires forall t :: t in leaders <==> Leads(c, cases, t)
    ensures LeadersOf(c, cases, leaders)
  {
    forall k | 0 <= k < |c.insns| && Ends(c.insns[k])
      ensures DirectTarget(c, c.insns[k]).Some? ==> DirectTarget(c, c.insns[k]).value in leaders
      ensures Next(c.insns[k]) < c.hi ==> Next(c.insns[k]) in leaders
    {
      var x := c.insns[k];
      if DirectTarget(c, x).Some? {
        assert LeadBy(c, x, DirectTarget(c, x).value);
      }
      if Next(x) < c.hi {
        assert LeadBy(c, x, Next(x));
      }
    }
    forall t | t in leaders && t != c.lo && !(t in cases && c.lo <= t < c.hi)
      ensures exists k | 0 <= k < |c.insns| && Ends(c.insns[k]) ::
                t == Next(c.insns[k]) < c.hi || DirectTarget(c, c.insns[k]) == Some(t)
    {
      assert Leads(c, cases, t);
      var k :| 0 <= k < |c.insns| && LeadBy(c, c.insns[k], t);
      assert Ends(c.insns[k]);
    }
  }

  /** Every leader is the start of an instruction. */
  ghost predicate LeadersAreStarts(c: Code, leaders: set<int>) {
    forall t | t in leaders :: exists k | 0 <= k < |c.insns| :: c.insns[k].addr == t
  }

  // --------------------------------------------------------------------------- blocks

  datatype Block = Block(size: int, succ: seq<int>)

  /** The end of the block that instruction `k` is in: the next leader's index. */
  function BlockEnd(c: Code, leaders: set<int>, k: nat): (m: nat)
    requires k < |c.insns|
    ensures k < m <= |c.insns|
    ensures m < |c.insns| ==> c.insns[m].addr in leaders
    ensures forall j | k < j < m :: c.insns[j].addr !in leaders
    decreases |c.insns| - k
  {
    if k + 1 == |c.insns| || c.insns[k + 1].addr in leaders then k + 1 else BlockEnd(c, leaders, k + 1)
  }

  /** The block of the leader at instruction `k`. */
  function BlockAt(c: Code, leaders: set<int>, k: nat): Block
    requires k < |c.insns|
  {
    var m := BlockEnd(c, leaders, k);
    Block(AddrAt(c, m) - c.insns[k].addr, Successors(c, c.insns[m - 1]))
  }

  ghost predicate Ready(c: Code, cases: set<int>, leaders: set<int>) {
    Tiled(c) && LeadersOf(c, cases, leaders) && LeadersAreStarts(c, leaders)
  }

  /** An instruction that ends a block is the last of its block. */
  lemma EndsLast(c: Code, cases: set<int>, leaders: set<int>, k: nat)
    requires Ready(c, cases, leaders) && k < |c.insns| && Ends(c.insns[k])
    ensures BlockEnd(c, leaders, k) == k + 1
  {
    assert Adjoins(c, k);
    AddressesAscend(c, k + 1, |c.insns|);
  }

  lemma {:induction false} AddressesAscend(c: Code, j: nat, k: nat)
    requires Tiled(c) && j <= k <= |c.insns|
    ensures j < k ==> AddrAt(c, j) < AddrAt(c, k)
    decreases k - j
  {
    if j < k {
      assert Adjoins(c, j);
      AddressesAscend(c, j + 1, k);
    }
  }

  lemma StartsDistinct(c: Code, j: nat, k: nat)
    requires Tiled(c) && j < |c.insns| && k < |c.insns| && c.insns[j].addr == c.insns[k].addr
    ensures j == k
  {
    if j < k {
      AddressesAscend(c, j, k);
    } else {
      AddressesAscend(c, k, j);
    }
  }

  /** The walk over one block: from the leader at instruction `k` up to address `end`. */
  method WalkBlock(c: Code, cases: set<int>, leaders: set<int>, k: nat, end: int) returns (b: Block)
    requires Ready(c, cases, leaders) && k < |c.insns|
    requires end == AddrAt(c, BlockEnd(c, leaders, k))
    ensures b == BlockAt(c, leaders, k)
  {
    hide LeadersOf, LeadersAreStarts;
    ghost var m := BlockEnd(c, leaders, k);
    var i, size := k, 0;
    while i < |c.insns| && c.insns[i].addr < end
      invariant k <= i <= m
      invariant size == AddrAt(c, i) - c.insns[k].addr
      invariant i < m ==> BlockEnd(c, leaders, i) == m
      invariant i > k ==> !Ends(c.insns[i - 1]) && Next(c.insns[i - 1]) == AddrAt(c, i)
      decreases |c.insns| - i
    {
      var x := c.insns[i];
      assert Adjoins(c, i);
      size := size + x.size;
      if Ends(x) {
        EndsLast(c, cases, leaders, i);
        return Block(size, Successors(c, x));
      }
      i := i + 1;
    }
    AddressesAscend(c, i, m);
    b := Block(size, if end < c.hi then [end] else []);
  }

  // ------------------------------------------------------------------ the block table

  ghost predicate Ascending(s: seq<int>) {
    forall i, j | 0 <= i < j < |s| :: s[i] < s[j]
  }

  ghost predicate IsLeast(x: int, s: set<int>) {
    x in s && forall y | y in s :: x <= y
  }

  /** `sorted` of a set: repeatedly the least element left. */
  method Sorted(s: set<int>) returns (r: seq<int>)
    ensures Ascending(r) && forall x :: x in r <==> x in s
  {
    r := [];
    var rest := s;
    while rest != {}
      invariant Ascending(r) && rest <= s
      invariant forall x :: x in r <==> x in s && x !in rest
      invariant forall i, y | 0 <= i < |r| && y in rest :: r[i] < y
      decreases rest
    {
      var x := Least(rest);
      r := r + [x];
      rest := rest - {x};
    }
  }

  method Least(s: set<int>) returns (x: int)
    requires s != {}
    ensures IsLeast(x, s)
  {
    NotEmpty(s);
    x :| x in s;
    var rest := s - {x};
    while rest != {}
      invariant x in s && rest <= s && forall y | y in s && y !in rest :: x <= y
      decreases rest
    {
      NotEmpty(rest);
      var y :| y in rest;
      if y < x {
        x := y;
      }
      rest := rest - {y};
    }
  }

  /** The instruction that starts at an address. */
  function IndexOf(c: Code, addr: int, k: nat): (r: nat)
    requires k <= |c.insns| && exists j | k <= j < |c.insns| :: c.insns[j].addr == addr
    ensures k <= r < |c.insns| && c.insns[r].addr == addr
    decreases |c.insns| - k
  {
    if c.insns[k].addr == addr then k else IndexOf(c, addr, k + 1)
  }

  /** The next leader's address, or the end of the range, is where the block ends. */
  lemma NextStartIsEnd(c: Code, cases: set<int>, leaders: set<int>, starts: seq<int>, j: nat, k: nat)
    requires Ready(c, cases, leaders) && Ascending(starts) && (forall x :: x in starts <==> x in leaders)
    requires j < |starts| && k < |c.insns| && c.insns[k].addr == starts[j]
    ensures (if j + 1 < |starts| then starts[j + 1] else c.hi) == AddrAt(c, BlockEnd(c, leaders, k))
  {
    var m := BlockEnd(c, leaders, k);
    AddressesAscend(c, k, m);
    if m < |c.insns| {
      var t := c.insns[m].addr;
      assert t in starts;
      var i :| 0 <= i < |starts| && starts[i] == t;
      assert j < i;
      if j + 1 < i {
        BetweenLeaders(c, leaders, k, starts[j + 1]);
      }
    } else if j + 1 < |starts| {
      BetweenLeaders(c, leaders, k, starts[j + 1]);
      LeaderInside(c, leaders, starts[j + 1]);
    }
  }

  lemma LeaderInside(c: Code, leaders: set<int>, t: int)
    requires Tiled(c) && LeadersAreStarts(c, leaders) && t in leaders
    ensures t < c.hi
  {
    var i :| 0 <= i < |c.insns| && c.insns[i].addr == t;
    AddressesAscend(c, i, |c.insns|);
  }

  /** No leader lies strictly inside a block. */
  lemma BetweenLeaders(c: Code, leaders: set<int>, k: nat, t: int)
    requires Tiled(c) && LeadersAreStarts(c, leaders) && k < |c.insns| && t in leaders
    requires c.insns[k].addr < t
    ensures AddrAt(c, BlockEnd(c, leaders, k)) <= t
  {
    var i: nat :| i < |c.insns| && c.insns[i].addr == t;
    hide LeadersAreStarts, BlockEnd, Tiled;
    var m := BlockEnd(c, leaders, k);
    if i <= k {
      AddressesAscend(c, i, k);
    } else {
      assert m <= i;
      AddressesAscend(c, m, i);
    }
  }

  /** The part of the table for the leaders in `done`. */
  ghost predicate PartTable(c: Code, leaders: set<int>, done: set<int>, blocks: map<int, Block>) {
    blocks.Keys == done && forall k | 0 <= k < |c.insns| :: Entered(c, leaders, blocks, k)
  }

  /** Instruction `k`, if it starts a block of the table, starts the right one. */
  ghost predicate Entered(c: Code, leaders: set<int>, blocks: map<int, Block>, k: nat)
    requires k < |c.insns|
  {
    c.insns[k].addr in blocks ==> blocks[c.insns[k].addr] == BlockAt(c, leaders, k)
  }

  lemma OneMoreBlock(c: Code, leaders: set<int>, done: set<int>, blocks: map<int, Block>, k: nat)
    requires Tiled(c) && PartTable(c, leaders, done, blocks) && k < |c.insns|
    ensures PartTable(c, leaders, done + {c.insns[k].addr}, blocks[c.insns[k].addr := BlockAt(c, leaders, k)])
  {
    hide BlockAt;
    var more := blocks[c.insns[k].addr := BlockAt(c, leaders, k)];
    forall i | 0 <= i < |c.insns|
      ensures Entered(c, leaders, more, i)
    {
      assert Entered(c, leaders, blocks, i);
      if c.insns[i].addr == c.insns[k].addr {
        StartsDistinct(c, i, k);
      }
    }
  }

  /** `build_blocks`. */
  method BuildBlocks(c: Code, cases: set<int>, leaders: set<int>) returns (blocks: map<int, Block>)
    requires Ready(c, cases, leaders)
    ensures PartTable(c, leaders, leaders, blocks)
    ensures blocks.Keys == leaders
    ensures forall k | 0 <= k < |c.insns| && c.insns[k].addr in leaders :: LeavesTo(c, leaders, blocks, k)
  {
    hide PartTable, LeadersOf;
    var starts := Sorted(leaders);
    blocks := map[];
    EmptyTable(c, leaders);
    ghost var done := {};
    for j := 0 to |starts|
      invariant PartTable(c, leaders, done, blocks)
      invariant forall x :: x in done <==> x in starts[..j]
    {
      var start := starts[j];
      var end := if j + 1 < |starts| then starts[j + 1] else c.hi;
      assert start in leaders;
      var k := IndexOf(c, start, 0);
      NextStartIsEnd(c, cases, leaders, starts, j, k);
      var b := WalkBlock(c, cases, leaders, k, end);
      OneMoreBlock(c, leaders, done, blocks, k);
      blocks := blocks[start := b];
      done := done + {start};
    }
    assert starts[..|starts|] == starts;
    assert forall x :: x in done <==> x in leaders;
    assert done == leaders;
    TableLeaves(c, leaders, blocks);
  }

  /** The block of the table that instruction `k` leads is left exactly to where control can
      go from its last instruction, and lasts to the end of that. */
  ghost predicate LeavesTo(c: Code, leaders: set<int>, blocks: map<int, Block>, k: nat)
    requires k < |c.insns|
  {
    var last, addr := c.insns[BlockEnd(c, leaders, k) - 1], c.insns[k].addr;
    && addr in blocks && addr + blocks[addr].size == last.addr + last.size
    && forall to :: to in blocks[addr].succ <==> Goes(c, last, to)
  }

  lemma TableLeaves(c: Code, leaders: set<int>, blocks: map<int, Block>)
    requires Tiled(c) && PartTable(c, leaders, leaders, blocks)
    ensures blocks.Keys == leaders
    ensures forall k | 0 <= k < |c.insns| && c.insns[k].addr in leaders :: LeavesTo(c, leaders, blocks, k)
  {
    hide Goes, Successors;
    forall k | 0 <= k < |c.insns| && c.insns[k].addr in leaders
      ensures LeavesTo(c, leaders, blocks, k)
    {
      var m := BlockEnd(c, leaders, k);
      assert Entered(c, leaders, blocks, k);
      assert Adjoins(c, m - 1);
      SuccessorsGo(c, c.insns[m - 1]);
    }
  }

  lemma EmptyTable(c: Code, leaders: set<int>)
    ensures PartTable(c, leaders, {}, map[])
  {
  }
}
