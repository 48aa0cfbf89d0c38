/** The blocks a file occupies: the non-reserved blocks of a physical interval,
    cut into contiguous runs and then into extent leaves. */
module FreeBlocks {
  import opened Bytes
  import opened SparseSuper

  const MAX_BLOCKS_PER_EXTENT: nat := 0x8000

  datatype Run = Run(start: nat, len: nat)
  datatype Leaf = Leaf(logical: nat, phys: nat, len: nat)

  function Range(p: nat, n: nat): (s: seq<nat>)
    ensures |s| == n && forall i :: 0 <= i < n ==> s[i] == p + i
  {
    seq(n, i requires 0 <= i => p + i)
  }

  /** The non-reserved blocks of [a, b), ascending. */
  ghost function FreeIn(R: iset<nat>, a: nat, b: nat): seq<nat>
    decreases b
  {
    if b <= a then [] else FreeIn(R, a, b - 1) + if b - 1 in R then [] else [b - 1]
  }

  /** FreeIn enumerates exactly the free blocks of the interval, without repetition. */
  lemma {:induction false} FreeInExact(R: iset<nat>, a: nat, b: nat)
    ensures forall x :: x in FreeIn(R, a, b) <==> a <= x < b && x !in R
    ensures forall i, j :: 0 <= i < j < |FreeIn(R, a, b)| ==> FreeIn(R, a, b)[i] < FreeIn(R, a, b)[j]
    decreases b
  {
    if b > a {
      FreeInExact(R, a, b - 1);
      var s := FreeIn(R, a, b - 1);
      assert forall i :: 0 <= i < |s| ==> s[i] in s;
    }
  }

  /** Growing the interval over free blocks appends them. */
  lemma {:induction false} FreeInRun(R: iset<nat>, a: nat, m: nat, n: nat)
    requires a <= m <= n && forall x :: m <= x < n ==> x !in R
    ensures FreeIn(R, a, n) == FreeIn(R, a, m) + Range(m, n - m)
    decreases n
  {
    if m < n {
      FreeInRun(R, a, m, n - 1);
      assert Range(m, n - m) == Range(m, n - 1 - m) + [n - 1];
    }
  }

  /** Growing it over reserved blocks changes nothing. */
  lemma {:induction false} FreeInGap(R: iset<nat>, a: nat, m: nat, n: nat)
    requires m <= n && forall x :: m <= x < n ==> x in R
    ensures FreeIn(R, a, n) == FreeIn(R, a, m)
    decreases n
  {
    if m < n { FreeInGap(R, a, m, n - 1); }
  }

  function RunBlocks(runs: seq<Run>): seq<nat> {
    if runs == [] then [] else RunBlocks(runs[..|runs| - 1]) + Range(runs[|runs| - 1].start, runs[|runs| - 1].len)
  }

  function LeafBlocks(leaves: seq<Leaf>): seq<nat> {
    if leaves == [] then []
    else LeafBlocks(leaves[..|leaves| - 1]) + Range(leaves[|leaves| - 1].phys, leaves[|leaves| - 1].len)
  }

  lemma RunBlocksSnoc(runs: seq<Run>, r: Run)
    ensures RunBlocks(runs + [r]) == RunBlocks(runs) + Range(r.start, r.len)
  {
    assert (runs + [r])[..|runs|] == runs;
  }

  lemma LeafBlocksSnoc(leaves: seq<Leaf>, l: Leaf)
    ensures LeafBlocks(leaves + [l]) == LeafBlocks(leaves) + Range(l.phys, l.len)
  {
    assert (leaves + [l])[..|leaves|] == leaves;
  }

  lemma {:induction false} FreeInSplit(R: iset<nat>, a: nat, m: nat, n: nat)
    requires a <= m <= n
    ensures FreeIn(R, a, n) == FreeIn(R, a, m) + FreeIn(R, m, n)
    decreases n
  {
    if m < n { FreeInSplit(R, a, m, n - 1); }
  }

  /** The first block of a leaf is one of the blocks. */
  lemma {:induction false} LeafStartListed(leaves: seq<Leaf>, i: nat)
    requires i < |leaves| && leaves[i].len >= 1
    ensures leaves[i].phys in LeafBlocks(leaves) && |LeafBlocks(leaves[..i])| <= |LeafBlocks(leaves)|
  {
    var n := |leaves| - 1;
    if i < n {
      LeafStartListed(leaves[..n], i);
      assert leaves[..n][..i] == leaves[..i];
    } else {
      assert Range(leaves[n].phys, leaves[n].len)[0] == leaves[n].phys;
    }
  }

  /** How many times the walk from `a` to `b` enters a backup region. */
  ghost function Entries(R: iset<nat>, a: nat, b: nat): nat
    decreases b
  {
    if b <= a + 1 then 0
    else Entries(R, a, b - 1) + if b - 1 in R && b - 2 !in R then 1 else 0
  }

  lemma {:induction false} EntriesMonotone(R: iset<nat>, a: nat, m: nat, n: nat)
    requires m <= n
    ensures Entries(R, a, m) <= Entries(R, a, n)
    decreases n
  {
    if m < n { EntriesMonotone(R, a, m, n - 1); }
  }

  /** Backup groups whose region begins below block `b`. */
  ghost function GroupsBelow(b: nat): set<nat> {
    set g | 1 <= g <= 131073 && g * BLOCKS_PER_GROUP < b && BackupGroup(g)
  }

  lemma GroupsBelowGrow(g: nat)
    requires 1 <= g <= 131073 && BackupGroup(g)
    ensures |GroupsBelow(g * BLOCKS_PER_GROUP + 1)| == |GroupsBelow(g * BLOCKS_PER_GROUP)| + 1
  {
    var b := g * BLOCKS_PER_GROUP;
    assert GroupsBelow(b + 1) == GroupsBelow(b) + {g};
  }

  /** Each entry is into a different backup group. */
  lemma {:induction false} EntriesBounded(R: iset<nat>, gd: nat, a: nat, b: nat)
    requires Layout(R, gd) && b <= U32_LIMIT
    ensures Entries(R, a, b) <= |GroupsBelow(b)|
    decreases b
  {
    if b > a + 1 {
      EntriesBounded(R, gd, a, b - 1);
      if Reserved(gd, b - 1) && !Reserved(gd, b - 2) {
        RegionStart(gd, b - 1);
        GroupsBelowGrow((b - 1) / BLOCKS_PER_GROUP);
      } else {
        SubsetCard(GroupsBelow(b - 1), GroupsBelow(b));
      }
    }
  }

  /** A reserved block after a free one is the first block of its group. */
  lemma RegionStart(gd: nat, b: nat)
    requires 0 < b && Reserved(gd, b) && !Reserved(gd, b - 1)
    ensures b == b / BLOCKS_PER_GROUP * BLOCKS_PER_GROUP
  {
  }

  lemma {:induction false} SubsetCard<T>(a: set<T>, b: set<T>)
    requires a <= b
    ensures |a| <= |b|
  {
    if a != {} {
      var x :| x in a;
      SubsetCard(a - {x}, b - {x});
    }
  }

  lemma {:induction false} SetOfSeqCard<T>(s: seq<T>)
    ensures |set x | x in s| <= |s|
  {
    if s != [] {
      SetOfSeqCard(s[1..]);
      assert (set x | x in s) == {s[0]} + (set x | x in s[1..]);
    }
  }

  /** At most 24 backup regions are ever in the way. */
  lemma EntriesAtMost24(R: iset<nat>, gd: nat, a: nat, b: nat)
    requires Layout(R, gd) && b <= U32_LIMIT
    ensures Entries(R, a, b) <= 24
  {
    EntriesBounded(R, gd, a, b);
    forall g | g in GroupsBelow(b) ensures g in BackupGroups() { BackupGroupsListed(g); }
    SubsetCard(GroupsBelow(b), BackupGroups());
    SetOfSeqCard(BACKUP_GROUPS);
  }

  // ---- how many leaves a range takes ----

  /** The free blocks right before `b`, from `a` on. */
  ghost function Tail(R: iset<nat>, a: nat, b: nat): nat
    decreases b
  {
    if b <= a || b - 1 in R then 0 else Tail(R, a, b - 1) + 1
  }

  /** Leaves for the free blocks of [a, b): one starts at every 32768th block of a run. */
  ghost function LeafCount(R: iset<nat>, a: nat, b: nat): nat
    decreases b
  {
    if b <= a then 0
    else LeafCount(R, a, b - 1) + if b - 1 !in R && Tail(R, a, b - 1) % MAX_BLOCKS_PER_EXTENT == 0 then 1 else 0
  }

  lemma {:induction false} LeafRun(R: iset<nat>, a: nat, b: nat, n: nat)
    requires a <= b <= n && Tail(R, a, b) == 0 && forall x :: b <= x < n ==> x !in R
    ensures Tail(R, a, n) == n - b
    ensures LeafCount(R, a, n) == LeafCount(R, a, b) + CeilDiv(n - b, MAX_BLOCKS_PER_EXTENT)
    decreases n
  {
    if b < n { LeafRun(R, a, b, n - 1); }
  }

  /** What flattening makes of the runs. */
  function RunLeaves(runs: seq<Run>): nat {
    if runs == [] then 0
    else RunLeaves(runs[..|runs| - 1]) + CeilDiv(runs[|runs| - 1].len, MAX_BLOCKS_PER_EXTENT)
  }

  lemma RunLeavesSnoc(runs: seq<Run>, r: Run)
    ensures RunLeaves(runs + [r]) == RunLeaves(runs) + CeilDiv(r.len, MAX_BLOCKS_PER_EXTENT)
  {
    assert (runs + [r])[..|runs|] == runs;
  }

  ghost predicate RunsWithin(runs: seq<Run>, lo: nat, hi: nat) {
    forall i :: 0 <= i < |runs| ==> runs[i].len > 0 && lo <= runs[i].start && runs[i].start + runs[i].len <= hi
  }

  /** What physical_runs has established when its cursor is at `b`. */
  ghost predicate RunsUpTo(R: iset<nat>, runs: seq<Run>, start: nat, b: nat) {
    && start <= b
    && RunBlocks(runs) == FreeIn(R, start, b)
    && RunsWithin(runs, start, b)
    && |runs| <= Entries(R, start, b) + (if b == start || b - 1 in R then 0 else 1)
    && RunLeaves(runs) == LeafCount(R, start, b)
  }

  lemma RunsPastReserved(R: iset<nat>, runs: seq<Run>, start: nat, b: nat)
    requires RunsUpTo(R, runs, start, b) && b in R
    ensures RunsUpTo(R, runs, start, b + 1)
  {
    FreeInGap(R, start, b, b + 1);
  }

  lemma RunsExtend(R: iset<nat>, runs: seq<Run>, start: nat, b: nat, stop: nat)
    requires RunsUpTo(R, runs, start, b) && b < stop && (b == start || b - 1 in R)
    requires forall x :: b <= x < stop ==> x !in R
    ensures RunsUpTo(R, runs + [Run(b, stop - b)], start, stop)
  {
    FreeInRun(R, start, b, stop);
    EntriesMonotone(R, start, b, stop);
    RunBlocksSnoc(runs, Run(b, stop - b));
    LeafRun(R, start, b, stop);
    RunLeavesSnoc(runs, Run(b, stop - b));
  }

  /** physical_runs: the runs are non-empty, together they are exactly the free
      blocks of [start, end), and there is at most one more run than the number
      of backup regions the interval enters. */
  method PhysicalRuns(gd: nat, maxDisk: nat, ghost R: iset<nat>, start: nat, end: nat) returns (runs: seq<Run>)
    requires ValidGeometry(gd, maxDisk) && Layout(R, gd)
    requires start <= end && end * BLOCK <= maxDisk && end < U32_LIMIT
    ensures RunBlocks(runs) == FreeIn(R, start, end)
    ensures RunsWithin(runs, start, end)
    ensures |runs| <= 1 + Entries(R, start, end) && RunLeaves(runs) == LeafCount(R, start, end)
  {
    runs := [];
    var b := start;
    while b < end
      invariant b <= end && RunsUpTo(R, runs, start, b)
      invariant b == start || b == end || b - 1 in R || b in R
    {
      var hit := IsReservedBlock(gd, R, b);
      if hit {
        RunsPastReserved(R, runs, start, b);
        b := b + 1;
        continue;
      }
      var next := NextReservedBlockGe(gd, maxDisk, R, b);
      var stop := if next.Some? then Min(next.value, end) else end;
      RunsExtend(R, runs, start, b, stop);
      runs := runs + [Run(b, stop - b)];
      b := stop;
    }
  }

  /** The extent leaves that a sequence of runs flattens to are well formed: each
      covers 1 to 32768 blocks and starts where the previous one ended. */
  ghost predicate WellFormedLeaves(leaves: seq<Leaf>) {
    forall i :: 0 <= i < |leaves| ==>
      1 <= leaves[i].len <= MAX_BLOCKS_PER_EXTENT && leaves[i].logical == |LeafBlocks(leaves[..i])|
  }

  /** What flattening has established after `n` blocks of the runs. */
  ghost predicate LeavesFor(leaves: seq<Leaf>, blocks: seq<nat>) {
    LeafBlocks(leaves) == blocks && WellFormedLeaves(leaves)
  }

  lemma WellFormedSnoc(leaves: seq<Leaf>, leaf: Leaf)
    requires WellFormedLeaves(leaves) && 1 <= leaf.len <= MAX_BLOCKS_PER_EXTENT && leaf.logical == |LeafBlocks(leaves)|
    ensures WellFormedLeaves(leaves + [leaf])
  {
    var all := leaves + [leaf];
    forall i | 0 <= i < |all| ensures all[..i] == leaves[..i] {}
    assert leaves[..|leaves|] == leaves;
  }

  lemma LeavesExtend(leaves: seq<Leaf>, all: seq<Leaf>, blocks: seq<nat>, p: nat, o: nat, leaf: Leaf, n: nat)
    requires LeavesFor(leaves, blocks + Range(p, o)) && 1 <= leaf.len <= MAX_BLOCKS_PER_EXTENT
    requires leaf.logical == |blocks| + o && leaf.phys == p + o && n == o + leaf.len && all == leaves + [leaf]
    ensures LeavesFor(all, blocks + Range(p, n))
  {
    LeafBlocksSnoc(leaves, leaf);
    WellFormedSnoc(leaves, leaf);
    assert Range(p, n) == Range(p, o) + Range(p + o, leaf.len);
    assert blocks + Range(p, n) == blocks + Range(p, o) + Range(p + o, leaf.len);
  }

  /** Cut one run into leaves of at most 32768 blocks. */
  method FlattenRun(leaves0: seq<Leaf>, ghost blocks: seq<nat>, logical0: nat, run: Run) returns (leaves: seq<Leaf>,
                    logical: nat)
    requires LeavesFor(leaves0, blocks) && logical0 == |blocks| && run.len > 0
    ensures LeavesFor(leaves, blocks + Range(run.start, run.len)) && logical == logical0 + run.len
    ensures |leaves| > 0 && MAX_BLOCKS_PER_EXTENT * (|leaves| - |leaves0| - 1) <= run.len
    ensures |leaves| == |leaves0| + CeilDiv(run.len, MAX_BLOCKS_PER_EXTENT)
  {
    leaves, logical := leaves0, logical0;
    var o := 0;
    assert blocks + Range(run.start, 0) == blocks;
    while o < run.len
      invariant 0 <= o <= run.len && logical == logical0 + o
      invariant LeavesFor(leaves, blocks + Range(run.start, o))
      invariant o < run.len ==> MAX_BLOCKS_PER_EXTENT * (|leaves| - |leaves0|) == o
      invariant MAX_BLOCKS_PER_EXTENT * (|leaves| - |leaves0| - 1) <= o
      invariant o <= MAX_BLOCKS_PER_EXTENT * (|leaves| - |leaves0|)
      invariant o > 0 ==> MAX_BLOCKS_PER_EXTENT * (|leaves| - |leaves0| - 1) < o
      invariant o > 0 ==> |leaves| > 0
    {
      var l := Min(run.len - o, MAX_BLOCKS_PER_EXTENT);
      var leaf := Leaf(logical, run.start + o, l);
      ghost var before := leaves;
      leaves := leaves + [leaf];
      LeavesExtend(before, leaves, blocks, run.start, o, leaf, o + l);
      logical := logical + l;
      o := o + l;
    }
  }

  /** Flatten runs into leaves of at most 32768 blocks: no block is lost,
      repeated or reordered, and a leaf beyond one per run costs 32768 blocks. */
  method FlattenRuns(runs: seq<Run>) returns (leaves: seq<Leaf>, logical: nat)
    requires forall i :: 0 <= i < |runs| ==> runs[i].len > 0
    ensures LeafBlocks(leaves) == RunBlocks(runs)
    ensures WellFormedLeaves(leaves)
    ensures MAX_BLOCKS_PER_EXTENT * (|leaves| - |runs|) <= |RunBlocks(runs)|
    ensures logical == |RunBlocks(runs)| && (runs != [] ==> leaves != []) && |leaves| == RunLeaves(runs)
  {
    leaves, logical := [], 0;
    for i := 0 to |runs|
      invariant LeavesFor(leaves, RunBlocks(runs[..i])) && logical == |RunBlocks(runs[..i])|
      invariant MAX_BLOCKS_PER_EXTENT * (|leaves| - i) <= logical
      invariant (i > 0 ==> leaves != []) && |leaves| == RunLeaves(runs[..i])
    {
      RunBlocksSnoc(runs[..i], runs[i]);
      RunLeavesSnoc(runs[..i], runs[i]);
      assert runs[..i + 1] == runs[..i] + [runs[i]];
      leaves, logical := FlattenRun(leaves, RunBlocks(runs[..i]), logical, runs[i]);
    }
    assert runs[..|runs|] == runs;
  }
}
