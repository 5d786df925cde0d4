/** Worklist reachability over the block table, what it means for single instructions,
    and the byte accounting built on it. */
module CfgReach {
  import opened Wrappers
  import opened CfgSplit
  import SetSum

  type Blocks = map<int, Block>

  // --------------------------------------------------------------------- reachability

  /** Closed under successors that are blocks, and holding the entry. */
  ghost predicate Closed(blocks: Blocks, entry: int, s: set<int>) {
    && (entry in blocks ==> entry in s)
    && forall b, t | b in s && b in blocks && t in blocks[b].succ && t in blocks :: t in s
  }

  /** The blocks reachable from an entry: the least closed set. */
  ghost predicate IsReach(blocks: Blocks, entry: int, seen: set<int>) {
    && seen <= blocks.Keys && Closed(blocks, entry, seen)
    && forall s: set<int> | Closed(blocks, entry, s) :: seen <= s
  }

  /** `reachable`: a stack, and a set of blocks already seen. */
  method Reachable(blocks: Blocks, entry: int) returns (seen: set<int>)
    ensures IsReach(blocks, entry, seen)
  {
    seen := {};
    var stack := [entry];
    while stack != []
      invariant seen <= blocks.Keys
      invariant entry in blocks ==> entry in seen || entry in stack
      invariant forall b, t | b in seen && t in blocks[b].succ && t in blocks :: t in seen || t in stack
      invariant forall s: set<int> | Closed(blocks, entry, s) ::
                  seen <= s && forall t | t in stack && t in blocks :: t in s
      decreases blocks.Keys - seen, |stack|
    {
      var b := stack[|stack| - 1];
      ghost var was := stack;
      stack := stack[..|stack| - 1];
      assert forall t :: t in was ==> t in stack || t == b;
      if b in seen || b !in blocks {
        continue;
      }
      seen := seen + {b};
      stack := stack + blocks[b].succ;
    }
  }

  // ------------------------------------------------- instructions and blocks compared

  /** The leader of the block that holds instruction `k`. */
  function BlockStart(c: Code, leaders: set<int>, k: nat): (j: nat)
    requires k < |c.insns| && c.insns[0].addr in leaders
    ensures j <= k && c.insns[j].addr in leaders
    ensures forall i | j < i <= k :: c.insns[i].addr !in leaders
  {
    if c.insns[k].addr in leaders then k else BlockStart(c, leaders, k - 1)
  }

  /** Control can go from instruction `k` to instruction `j`. */
  ghost predicate Steps(c: Code, k: nat, j: nat)
    requires k < |c.insns| && j < |c.insns|
  {
    Goes(c, c.insns[k], c.insns[j].addr)
  }

  lemma StepsAreSuccessors(c: Code, k: nat, j: nat)
    requires k < |c.insns| && j < |c.insns|
    ensures Steps(c, k, j) <==> c.insns[j].addr in Successors(c, c.insns[k])
  {
    SuccessorsGo(c, c.insns[k]);
  }

  /** Closed under what control can go to from single instructions, from instruction `entry`. */
  ghost predicate InsnClosed(c: Code, entry: nat, s: set<nat>) {
    && entry in s
    && forall k: nat, j: nat | k < |c.insns| && j < |c.insns| && k in s && Steps(c, k, j) :: j in s
  }

  /** The instructions reachable one at a time: the least such set. */
  ghost predicate IsInsnReach(c: Code, entry: nat, s: set<nat>) {
    && InsnClosed(c, entry, s) && forall s': set<nat> | InsnClosed(c, entry, s') :: s <= s'
  }

  /** The instructions of a set of blocks. */
  ghost function InsnsOf(c: Code, leaders: set<int>, seen: set<int>): set<nat>
    requires c.insns != [] && c.insns[0].addr in leaders
  {
    set k: nat | k < |c.insns| && c.insns[BlockStart(c, leaders, k)].addr in seen
  }

  /** The setting of the comparison: a table built from ready code. */
  ghost predicate Built(c: Code, cases: set<int>, leaders: set<int>, blocks: Blocks) {
    Ready(c, cases, leaders) && PartTable(c, leaders, leaders, blocks)
  }

  lemma {:induction false} SameEnd(c: Code, leaders: set<int>, j: nat, k: nat)
    requires j <= k < |c.insns| && forall i | j < i <= k :: c.insns[i].addr !in leaders
    ensures BlockEnd(c, leaders, j) == BlockEnd(c, leaders, k)
    decreases k - j
  {
    if j < k {
      SameEnd(c, leaders, j + 1, k);
    }
  }

  /** A successor of instruction `k` is the next one of its block, or a leader that its
      block names as a successor. */
  lemma SuccessorCases(c: Code, cases: set<int>, leaders: set<int>, blocks: Blocks, k: nat, j: nat)
    requires Built(c, cases, leaders, blocks)
    requires k < |c.insns| && j < |c.insns| && Steps(c, k, j)
    ensures c.insns[0].addr in leaders
    ensures c.insns[j].addr in leaders || j == k + 1
    ensures var b := c.insns[BlockStart(c, leaders, k)].addr;
            c.insns[j].addr in leaders ==> b in blocks && c.insns[j].addr in blocks[b].succ
  {
    hide Tiled, LeadersOf, LeadersAreStarts, Steps, BlockEnd, BlockStart, PartTable;
    StepCases(c, cases, leaders, k, j);
    if c.insns[j].addr in leaders {
      var s := BlockStart(c, leaders, k);
      SameEnd(c, leaders, s, k);
      StepNamed(c, leaders, blocks, s, k, j);
    }
  }

  /** A block whose last instruction is `k` names where control can go from there. */
  lemma StepNamed(c: Code, leaders: set<int>, blocks: Blocks, s: nat, k: nat, j: nat)
    requires PartTable(c, leaders, leaders, blocks) && s <= k < |c.insns| && j < |c.insns| && Steps(c, k, j)
    requires c.insns[s].addr in leaders && BlockEnd(c, leaders, s) == k + 1
    ensures c.insns[s].addr in blocks && c.insns[j].addr in blocks[c.insns[s].addr].succ
  {
    hide Steps, Successors, BlockEnd;
    StepsAreSuccessors(c, k, j);
    assert Entered(c, leaders, blocks, s);
  }

  lemma StepCases(c: Code, cases: set<int>, leaders: set<int>, k: nat, j: nat)
    requires Ready(c, cases, leaders) && k < |c.insns| && j < |c.insns| && Steps(c, k, j)
    ensures c.insns[0].addr in leaders && (c.insns[j].addr in leaders || j == k + 1)
    ensures c.insns[j].addr in leaders ==> BlockEnd(c, leaders, k) == k + 1
  {
    assert Adjoins(c, k);
    if Ends(c.insns[k]) {
      EndsLast(c, cases, leaders, k);
    } else {
      assert k + 1 < |c.insns| && c.insns[k + 1].addr == c.insns[j].addr;
      StartsDistinct(c, j, k + 1);
    }
  }

  lemma NoDeadTail(c: Code, cases: set<int>, leaders: set<int>, k: nat)
    requires Ready(c, cases, leaders) && k + 1 < |c.insns| && c.insns[k + 1].addr !in leaders
    ensures Steps(c, k, k + 1)
  {
    assert Adjoins(c, k);
    AddressesAscend(c, k + 1, |c.insns|);
  }

  /** Inside a closed set of instructions, a block entered at its leader is whole. */
  lemma {:induction false} BlockWhole(
      c: Code, cases: set<int>, leaders: set<int>, s: set<nat>, entry: nat, j: nat, k: nat)
    requires Ready(c, cases, leaders) && InsnClosed(c, entry, s) && j <= k < |c.insns| && j in s
    requires forall i | j < i <= k :: c.insns[i].addr !in leaders
    ensures k in s
    decreases k - j
  {
    hide LeadersOf, LeadersAreStarts, Steps;
    if j < k {
      BlockWhole(c, cases, leaders, s, entry, j, k - 1);
      NoDeadTail(c, cases, leaders, k - 1);
    }
  }

  /** One step of control out of the instructions of a closed set of blocks stays inside. */
  lemma CoverStep(
      c: Code, cases: set<int>, leaders: set<int>, blocks: Blocks, entry: int, seen: set<int>, k: nat, j: nat)
    requires Built(c, cases, leaders, blocks) && Closed(blocks, entry, seen)
    requires k < |c.insns| && j < |c.insns| && Steps(c, k, j) && c.insns[0].addr in leaders
    requires c.insns[BlockStart(c, leaders, k)].addr in seen
    ensures c.insns[BlockStart(c, leaders, j)].addr in seen
  {
    SuccessorCases(c, cases, leaders, blocks, k, j);
    hide LeadersAreStarts, LeadersOf, Steps, Tiled;
    if c.insns[j].addr in leaders {
      assert blocks.Keys == leaders;
    }
  }

  lemma CoverClosed(c: Code, cases: set<int>, leaders: set<int>, blocks: Blocks, entry: nat, seen: set<int>)
    requires Built(c, cases, leaders, blocks) && entry < |c.insns| && c.insns[entry].addr in leaders
    requires IsReach(blocks, c.insns[entry].addr, seen)
    ensures c.insns[0].addr in leaders && InsnClosed(c, entry, InsnsOf(c, leaders, seen))
  {
    var s := InsnsOf(c, leaders, seen);
    assert blocks.Keys == leaders;
    forall k: nat, j: nat | k < |c.insns| && j < |c.insns| && k in s && Steps(c, k, j)
      ensures j in s
    {
      CoverStep(c, cases, leaders, blocks, c.insns[entry].addr, seen, k, j);
    }
  }

  /** The blocks that lie wholly inside a set of instructions. */
  ghost function WholeBlocks(c: Code, leaders: set<int>, s: set<nat>): set<int>
    requires c.insns != [] && c.insns[0].addr in leaders
  {
    set k: nat | k < |c.insns| && k in s && c.insns[k].addr in leaders :: c.insns[k].addr
  }

  lemma WholeBlocksClosed(c: Code, cases: set<int>, leaders: set<int>, blocks: Blocks, entry: nat, s: set<nat>)
    requires Built(c, cases, leaders, blocks) && entry < |c.insns| && c.insns[entry].addr in leaders
    requires InsnClosed(c, entry, s)
    ensures c.insns[0].addr in leaders && Closed(blocks, c.insns[entry].addr, WholeBlocks(c, leaders, s))
  {
    var w := WholeBlocks(c, leaders, s);
    forall b, t | b in w && b in blocks && t in blocks[b].succ && t in blocks
      ensures t in w
    {
      var k: nat :| k < |c.insns| && k in s && c.insns[k].addr == b;
      BlockStays(c, cases, leaders, blocks, entry, s, k, t);
    }
  }

  /** Where a block entered inside a closed set goes is inside it too. */
  lemma BlockStays(
      c: Code, cases: set<int>, leaders: set<int>, blocks: Blocks, entry: nat, s: set<nat>, k: nat, t: int)
    requires Built(c, cases, leaders, blocks) && InsnClosed(c, entry, s)
    requires k < |c.insns| && k in s && c.insns[k].addr in leaders && c.insns[0].addr in leaders
    requires c.insns[k].addr in blocks && t in blocks[c.insns[k].addr].succ && t in blocks
    ensures t in WholeBlocks(c, leaders, s)
  {
    hide LeadersOf, BlockEnd, Tiled, Successors;
    var m := BlockEnd(c, leaders, k);
    BlockWhole(c, cases, leaders, s, entry, k, m - 1);
    SuccOf(c, leaders, blocks, k, t);
    var j :| 0 <= j < |c.insns| && c.insns[j].addr == t;
    StepsAreSuccessors(c, m - 1, j);
    assert Steps(c, m - 1, j);
  }

  /** What a block of the table names as successors. */
  lemma SuccOf(c: Code, leaders: set<int>, blocks: Blocks, k: nat, t: int)
    requires PartTable(c, leaders, leaders, blocks) && k < |c.insns|
    requires c.insns[k].addr in blocks && t in blocks[c.insns[k].addr].succ
    ensures t in Successors(c, c.insns[BlockEnd(c, leaders, k) - 1])
  {
    assert Entered(c, leaders, blocks, k);
  }

  /** The block graph preserves meaning: the instructions of the blocks reachable from a
      leader are exactly the instructions reachable from it one at a time. */
  lemma BlockGraphPreservesMeaning(
      c: Code, cases: set<int>, leaders: set<int>, blocks: Blocks, entry: nat, seen: set<int>)
    requires Built(c, cases, leaders, blocks) && entry < |c.insns| && c.insns[entry].addr in leaders
    requires IsReach(blocks, c.insns[entry].addr, seen)
    ensures c.insns[0].addr in leaders && IsInsnReach(c, entry, InsnsOf(c, leaders, seen))
  {
    CoverClosed(c, cases, leaders, blocks, entry, seen);
    var i := InsnsOf(c, leaders, seen);
    forall s: set<nat> | InsnClosed(c, entry, s)
      ensures i <= s
    {
      WholeBlocksClosed(c, cases, leaders, blocks, entry, s);
      var w := WholeBlocks(c, leaders, s);
      assert seen <= w;
      forall k | k in i
        ensures k in s
      {
        var j := BlockStart(c, leaders, k);
        assert c.insns[j].addr in w;
        var j': nat :| j' < |c.insns| && j' in s && c.insns[j'].addr == c.insns[j].addr;
        StartsDistinct(c, j, j');
        BlockWhole(c, cases, leaders, s, entry, j, k);
      }
    }
  }

  // ----------------------------------------------------------------------- accounting

  function Sizes(blocks: Blocks): map<int, int> {
    map b | b in blocks :: blocks[b].size
  }

  /** The leaders from instruction `k` on. */
  function LeadersFrom(c: Code, leaders: set<int>, k: nat): set<int>
    requires k <= |c.insns|
  {
    set t | t in leaders && AddrAt(c, k) <= t
  }

  /** A block and the leaders after it make up the leaders from it on. */
  lemma LeadersSplit(c: Code, leaders: set<int>, k: nat)
    requires Tiled(c) && LeadersAreStarts(c, leaders) && k < |c.insns| && c.insns[k].addr in leaders
    ensures var m := BlockEnd(c, leaders, k);
            LeadersFrom(c, leaders, k) - {c.insns[k].addr} == LeadersFrom(c, leaders, m)
  {
    hide Tiled, LeadersAreStarts, BlockEnd;
    var m := BlockEnd(c, leaders, k);
    AddressesAscend(c, k, m);
    forall t | t in leaders && c.insns[k].addr < t
      ensures AddrAt(c, m) <= t
    {
      BetweenLeaders(c, leaders, k, t);
    }
  }

  lemma {:induction false} SizesFrom(c: Code, cases: set<int>, leaders: set<int>, blocks: Blocks, k: nat)
    requires Built(c, cases, leaders, blocks) && k <= |c.insns|
    requires k < |c.insns| ==> c.insns[k].addr in leaders
    ensures LeadersFrom(c, leaders, k) <= Sizes(blocks).Keys
    ensures SetSum.Sum(Sizes(blocks), LeadersFrom(c, leaders, k)) == c.hi - AddrAt(c, k)
    decreases |c.insns| - k
  {
    if k == |c.insns| {
      forall t | t in leaders
        ensures t < c.hi
      {
        LeaderInside(c, leaders, t);
      }
      assert LeadersFrom(c, leaders, k) == {};
    } else {
      hide LeadersOf, LeadersAreStarts, Tiled;
      var m := BlockEnd(c, leaders, k);
      LeadersSplit(c, leaders, k);
      SetSum.SumRemove(Sizes(blocks), LeadersFrom(c, leaders, k), c.insns[k].addr);
      assert Entered(c, leaders, blocks, k);
      SizesFrom(c, cases, leaders, blocks, m);
    }
  }

  /** The accounting is complete: the block sizes sum to the whole range. */
  lemma BlocksCoverRange(c: Code, cases: set<int>, leaders: set<int>, blocks: Blocks)
    requires Built(c, cases, leaders, blocks)
    ensures SetSum.Sum(Sizes(blocks), blocks.Keys) == c.hi - c.lo
  {
    SizesFrom(c, cases, leaders, blocks, 0);
    forall t | t in leaders
      ensures c.lo <= t
    {
      var i :| 0 <= i < |c.insns| && c.insns[i].addr == t;
      AddressesAscend(c, 0, i);
    }
    assert LeadersFrom(c, leaders, 0) == blocks.Keys;
  }

  type Reach = map<int, set<int>>

  /** Every entry has its reach set. */
  predicate Known(reach: Reach, entries: seq<int>) {
    forall i | 0 <= i < |entries| :: entries[i] in reach
  }

  /** How many of the entries reach a block. */
  function Tally(reach: Reach, entries: seq<int>, b: int): (n: nat)
    requires Known(reach, entries)
    ensures n <= |entries|
  {
    if entries == [] then 0
    else
      var k := |entries| - 1;
      Tally(reach, entries[..k], b) + if b in reach[entries[k]] then 1 else 0
  }

  /** The blocks that exactly one entry reaches, that entry being among the first `n`. */
  ghost function Settled(reach: Reach, entries: seq<int>, keys: set<int>, n: nat): set<int>
    requires n <= |entries| && Known(reach, entries)
  {
    set b | b in keys && Tally(reach, entries, b) == 1 && Tally(reach, entries[..n], b) == 1
  }

  /** The blocks of entry `e` that no other entry reaches. */
  function Own(reach: Reach, entries: seq<int>, keys: set<int>, e: int): set<int>
    requires e in reach && Known(reach, entries)
  {
    set b | b in keys && b in reach[e] && Tally(reach, entries, b) == 1
  }

  lemma {:induction false} TallyGrows(reach: Reach, entries: seq<int>, n: nat, b: int)
    requires n <= |entries| && Known(reach, entries)
    ensures Tally(reach, entries[..n], b) <= Tally(reach, entries, b)
    decreases |entries| - n
  {
    if n == |entries| {
      assert entries[..n] == entries;
    } else {
      TallyGrows(reach, entries, n + 1, b);
      assert entries[..n + 1][..n] == entries[..n];
    }
  }

  /** Taking one more entry settles exactly its own blocks, none of them before. */
  lemma SettleOne(reach: Reach, entries: seq<int>, keys: set<int>, n: nat)
    requires n < |entries| && Known(reach, entries)
    ensures var own := Own(reach, entries, keys, entries[n]);
            && own !! Settled(reach, entries, keys, n)
            && own + Settled(reach, entries, keys, n) == Settled(reach, entries, keys, n + 1)
  {
    assert entries[..n + 1][..n] == entries[..n];
    forall b
      ensures Tally(reach, entries[..n + 1], b) <= Tally(reach, entries, b)
      ensures Tally(reach, entries[..n + 1], b)
              == Tally(reach, entries[..n], b) + if b in reach[entries[n]] then 1 else 0
    {
      TallyGrows(reach, entries, n + 1, b);
    }
  }

  /** What the tool reports for a set of dispatch targets. */
  datatype Account = Account(exclusive: map<int, int>, shared: int, unreached: int, total: int)

  /** The blocks whose tally satisfies a test. */
  function Tallied(reach: Reach, entries: seq<int>, keys: set<int>, test: int -> bool): set<int>
    requires Known(reach, entries)
  {
    set b | b in keys && test(Tally(reach, entries, b))
  }

  /** A tally is nothing when no entry reaches the block, and more than one when two do. */
  lemma {:induction false} TallyExactly(reach: Reach, entries: seq<int>, b: int)
    requires Known(reach, entries)
    ensures Tally(reach, entries, b) == 0 <==> Nobody(reach, entries, b)
    ensures Tally(reach, entries, b) > 1 <==> Several(reach, entries, b)
  {
    if entries != [] {
      var k := |entries| - 1;
      var init := entries[..k];
      TallyExactly(reach, init, b);
      assert forall i | 0 <= i < k :: init[i] == entries[i];
      if i :| 0 <= i < k && b in reach[init[i]] {
        assert b in reach[entries[i]];
      }
    }
  }

  ghost predicate Nobody(reach: Reach, entries: seq<int>, b: int)
    requires Known(reach, entries)
  {
    forall i | 0 <= i < |entries| :: b !in reach[entries[i]]
  }

  ghost predicate Several(reach: Reach, entries: seq<int>, b: int)
    requires Known(reach, entries)
  {
    exists i, j | 0 <= i < j < |entries| :: b in reach[entries[i]] && b in reach[entries[j]]
  }

  /** Reached from `e` and from no other entry. */
  ghost predicate OnlyFrom(reach: Reach, entries: seq<int>, e: int, b: int)
    requires e in reach && Known(reach, entries)
  {
    b in reach[e] && forall i | 0 <= i < |entries| && entries[i] != e :: b !in reach[entries[i]]
  }

  /** The three sets that are added up, said of the reach sets: the blocks reached from one
      entry alone, from two or more, and from none. */
  lemma PartsPlainly(reach: Reach, entries: seq<int>, keys: set<int>)
    requires Known(reach, entries) && forall i, j | 0 <= i < j < |entries| :: entries[i] != entries[j]
    ensures forall e | e in entries ::
              Own(reach, entries, keys, e) == set b | b in keys && OnlyFrom(reach, entries, e, b)
    ensures Tallied(reach, entries, keys, n => n > 1) == set b | b in keys && Several(reach, entries, b)
    ensures Tallied(reach, entries, keys, n => n == 0) == set b | b in keys && Nobody(reach, entries, b)
  {
    forall b
      ensures Tally(reach, entries, b) == 0 <==> Nobody(reach, entries, b)
      ensures Tally(reach, entries, b) > 1 <==> Several(reach, entries, b)
    {
      TallyExactly(reach, entries, b);
    }
    hide Tally;
    forall e, b | e in entries
      ensures b in reach[e] && Tally(reach, entries, b) == 1 <==> OnlyFrom(reach, entries, e, b)
    {
      OnlyOne(reach, entries, e, b);
    }
    hide Several, Nobody, OnlyFrom;
  }

  lemma OnlyOne(reach: Reach, entries: seq<int>, e: int, b: int)
    requires Known(reach, entries) && e in entries
    requires forall i, j | 0 <= i < j < |entries| :: entries[i] != entries[j]
    ensures b in reach[e] && Tally(reach, entries, b) == 1 <==> OnlyFrom(reach, entries, e, b)
  {
    TallyExactly(reach, entries, b);
    hide Tally;
    var k :| 0 <= k < |entries| && entries[k] == e;
  }

  /** `count`: one added for every block in every entry's reach set. */
  method CountReach(reach: Reach, entries: seq<int>) returns (count: map<int, int>)
    requires Known(reach, entries)
    ensures forall b :: b in count <==> Tally(reach, entries, b) > 0
    ensures forall b | b in count :: count[b] == Tally(reach, entries, b)
  {
    count := map[];
    for n := 0 to |entries|
      invariant forall b :: b in count <==> Tally(reach, entries[..n], b) > 0
      invariant forall b | b in count :: count[b] == Tally(reach, entries[..n], b)
    {
      assert entries[..n + 1][..n] == entries[..n];
      var was := count;
      var rest := reach[entries[n]];
      while rest != {}
        invariant rest <= reach[entries[n]]
        invariant count.Keys == was.Keys + (reach[entries[n]] - rest)
        invariant forall b | b in count :: count[b]
                    == (if b in was then was[b] else 0) + if b in reach[entries[n]] - rest then 1 else 0
        decreases rest
      {
        SetSum.NotEmpty(rest);
        var b :| b in rest;
        count := count[b := (if b in count then count[b] else 0) + 1];
        rest := rest - {b};
      }
    }
    assert entries[..|entries|] == entries;
  }

  method Exclusive(blocks: Blocks, reach: Reach, entries: seq<int>, count: map<int, int>)
    returns (exclusive: map<int, int>)
    requires forall i, j | 0 <= i < j < |entries| :: entries[i] != entries[j]
    requires Known(reach, entries) && forall i | 0 <= i < |entries| :: reach[entries[i]] <= blocks.Keys
    requires forall b :: b in count <==> Tally(reach, entries, b) > 0
    requires forall b | b in count :: count[b] == Tally(reach, entries, b)
    ensures forall e :: e in exclusive <==> e in entries
    ensures forall e | e in exclusive ::
              exclusive[e] == SetSum.Sum(Sizes(blocks), Own(reach, entries, blocks.Keys, e))
    ensures SetSum.Sum(exclusive, exclusive.Keys)
            == SetSum.Sum(Sizes(blocks), Tallied(reach, entries, blocks.Keys, n => n == 1))
  {
    hide SetSum.Sum;
    var sizes := Sizes(blocks);
    ghost var keys := blocks.Keys;
    exclusive := map[];
    assert exclusive.Keys == {};
    NothingSettled(reach, entries, keys, sizes);
    for n := 0 to |entries|
      invariant forall e :: e in exclusive <==> e in entries[..n]
      invariant forall e | e in exclusive :: exclusive[e] == SetSum.Sum(sizes, Own(reach, entries, keys, e))
      invariant SetSum.Sum(exclusive, exclusive.Keys) == SetSum.Sum(sizes, Settled(reach, entries, keys, n))
    {
      var e := entries[n];
      assert forall b | b in reach[e] :: Tally(reach, entries, b) > 0 by {
        ReachedCounts(reach, entries, n);
      }
      var own := set b | b in reach[e] && count[b] == 1;
      assert own == Own(reach, entries, keys, e);
      var sum := SetSum.Total(sizes, own);
      SetSum.SumExtend(exclusive, e, sum);
      SettleOne(reach, entries, keys, n);
      SetSum.SumUnion(sizes, own, Settled(reach, entries, keys, n));
      exclusive := exclusive[e := sum];
    }
    assert entries[..|entries|] == entries;
    assert Settled(reach, entries, keys, |entries|) == Tallied(reach, entries, keys, n => n == 1);
  }

  /** The bytes of the blocks counted more than once. */
  method Shared(blocks: Blocks, reach: Reach, entries: seq<int>, count: map<int, int>) returns (shared: int)
    requires Known(reach, entries) && forall i | 0 <= i < |entries| :: reach[entries[i]] <= blocks.Keys
    requires forall b :: b in count <==> Tally(reach, entries, b) > 0
    requires forall b | b in count :: count[b] == Tally(reach, entries, b)
    ensures shared == SetSum.Sum(Sizes(blocks), Tallied(reach, entries, blocks.Keys, n => n > 1))
  {
    var many := set b | b in count && count[b] > 1;
    CountedAreBlocks(blocks, reach, entries);
    assert forall b | b in many :: Tally(reach, entries, b) > 0;
    assert forall b | b in many :: b in Tallied(reach, entries, blocks.Keys, n => n > 1);
    assert many == Tallied(reach, entries, blocks.Keys, n => n > 1);
    shared := SetSum.Total(Sizes(blocks), many);
  }

  /** The bytes of the blocks that no target reaches. */
  method Unreached(blocks: Blocks, reach: Reach, entries: seq<int>) returns (unreached: int)
    requires Known(reach, entries)
    ensures unreached == SetSum.Sum(Sizes(blocks), Tallied(reach, entries, blocks.Keys, n => n == 0))
  {
    var covered := Covered(reach, entries);
    var none := set b | b in blocks && b !in covered;
    assert none == Tallied(reach, entries, blocks.Keys, n => n == 0);
    unreached := SetSum.Total(Sizes(blocks), none);
  }

  lemma NothingSettled(reach: Reach, entries: seq<int>, keys: set<int>, sizes: map<int, int>)
    requires keys <= sizes.Keys && Known(reach, entries)
    ensures SetSum.Sum(map[], {}) == SetSum.Sum(sizes, Settled(reach, entries, keys, 0))
  {
    assert Settled(reach, entries, keys, 0) == {};
  }

  lemma ReachedCounts(reach: Reach, entries: seq<int>, n: nat)
    requires n < |entries| && Known(reach, entries)
    ensures forall b | b in reach[entries[n]] :: Tally(reach, entries, b) > 0
  {
    forall b | b in reach[entries[n]]
      ensures Tally(reach, entries, b) > 0
    {
      TallyGrows(reach, entries, n + 1, b);
      assert entries[..n + 1][..n] == entries[..n];
    }
  }

  /** The accounting over the dispatch targets: every byte is exclusive to one target,
      shared by several or reached by none, and it is counted once. */
  method Accounting(blocks: Blocks, entries: seq<int>) returns (reach: Reach, a: Account)
    requires forall i, j | 0 <= i < j < |entries| :: entries[i] != entries[j]
    ensures forall e :: e in reach <==> e in entries
    ensures forall e | e in reach :: IsReach(blocks, e, reach[e])
    ensures forall e :: e in a.exclusive <==> e in entries
    ensures forall e | e in a.exclusive ::
              a.exclusive[e] == SetSum.Sum(Sizes(blocks), Own(reach, entries, blocks.Keys, e))
    ensures a.shared == SetSum.Sum(Sizes(blocks), Tallied(reach, entries, blocks.Keys, n => n > 1))
    ensures a.unreached == SetSum.Sum(Sizes(blocks), Tallied(reach, entries, blocks.Keys, n => n == 0))
    ensures a.total == SetSum.Sum(Sizes(blocks), blocks.Keys)
    ensures SetSum.Sum(a.exclusive, a.exclusive.Keys) + a.shared + a.unreached == a.total
  {
    hide IsReach;
    var sizes := Sizes(blocks);
    reach := ReachSets(blocks, entries);
    var count := CountReach(reach, entries);
    var exclusive := Exclusive(blocks, reach, entries, count);
    var shared := Shared(blocks, reach, entries, count);
    var unreached := Unreached(blocks, reach, entries);
    var total := SetSum.Total(sizes, blocks.Keys);
    TallyPartition(blocks, reach, entries);
    a := Account(exclusive, shared, unreached, total);
  }

  method ReachSets(blocks: Blocks, entries: seq<int>) returns (reach: Reach)
    ensures forall e :: e in reach <==> e in entries
    ensures forall e | e in reach :: IsReach(blocks, e, reach[e]) && reach[e] <= blocks.Keys
  {
    reach := map[];
    for n := 0 to |entries|
      invariant forall e :: e in reach <==> e in entries[..n]
      invariant forall e | e in reach :: IsReach(blocks, e, reach[e]) && reach[e] <= blocks.Keys
    {
      var seen := Reachable(blocks, entries[n]);
      hide IsReach;
      reach := reach[entries[n] := seen];
    }
    assert entries[..|entries|] == entries;
  }

  lemma {:induction false} CountedAreBlocks(blocks: Blocks, reach: Reach, entries: seq<int>)
    requires Known(reach, entries) && forall i | 0 <= i < |entries| :: reach[entries[i]] <= blocks.Keys
    ensures forall b | Tally(reach, entries, b) > 0 :: b in blocks
  {
    if entries != [] {
      CountedAreBlocks(blocks, reach, entries[..|entries| - 1]);
      assert reach[entries[|entries| - 1]] <= blocks.Keys;
    }
  }

  /** The union of the reach sets. */
  method Covered(reach: Reach, entries: seq<int>) returns (covered: set<int>)
    requires Known(reach, entries)
    ensures forall b :: b in covered <==> Tally(reach, entries, b) > 0
  {
    covered := {};
    for n := 0 to |entries|
      invariant forall b :: b in covered <==> Tally(reach, entries[..n], b) > 0
    {
      assert entries[..n + 1][..n] == entries[..n];
      covered := covered + reach[entries[n]];
    }
    assert entries[..|entries|] == entries;
  }

  lemma TallyPartition(blocks: Blocks, reach: Reach, entries: seq<int>)
    requires Known(reach, entries)
    ensures var sizes := Sizes(blocks);
            SetSum.Sum(sizes, Tallied(reach, entries, blocks.Keys, n => n == 1))
            + SetSum.Sum(sizes, Tallied(reach, entries, blocks.Keys, n => n > 1))
            + SetSum.Sum(sizes, Tallied(reach, entries, blocks.Keys, n => n == 0))
            == SetSum.Sum(sizes, blocks.Keys)
  {
    hide SetSum.Sum;
    var sizes := Sizes(blocks);
    var one := Tallied(reach, entries, blocks.Keys, n => n == 1);
    var many := Tallied(reach, entries, blocks.Keys, n => n > 1);
    var none := Tallied(reach, entries, blocks.Keys, n => n == 0);
    SetSum.SumUnion(sizes, one, many);
    SetSum.SumUnion(sizes, one + many, none);
    assert one + many + none == blocks.Keys;
  }
}
