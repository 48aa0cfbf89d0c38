/** Laying out and streaming an EROFS image: layout_facts, the three passes of serialize
    and inode_bytes (ext4/src/erofs.rs), against a decoder that follows the on-disk
    format of the kernel's EROFS documentation. */
module ErofsImage {
  import opened Arith
  import opened Bytes
  import opened ErofsTree
  import ErofsDir

  const ISLOT: nat := 32
  const SUPER_OFFSET: nat := 1024
  const SB_SIZE: nat := 128
  const FIRST_INODE: nat := SUPER_OFFSET + SB_SIZE
  const FLAT_PLAIN: nat := 0
  const FLAT_INLINE: nat := 2
  const FT_DIR: byte := 2

  // ---- layout facts ----

  datatype Fact = Fact(len: nat, nfull: nat, tail: nat, xlen: nat)

  function FactOf(len: nat, xlen: nat): Fact {
    if ISLOT + xlen + len % BLOCK > BLOCK then Fact(len, CeilDiv(len, BLOCK), 0, xlen)
    else Fact(len, len / BLOCK, len % BLOCK, xlen)
  }

  function Need(f: Fact): nat { ISLOT + f.xlen + f.tail }

  /** An attribute area is empty, or a 12-byte header and four-byte units. */
  ghost predicate AreaSize(n: nat) { n == 0 || (12 <= n <= BLOCK - ISLOT && n % 4 == 0) }

  /** What pass 1 and 2 rely on: the slot fits a block and the blocks hold the rest. */
  ghost predicate FactOk(f: Fact) {
    && Need(f) <= BLOCK && AreaSize(f.xlen) && f.nfull * BLOCK + f.tail >= f.len
    && (f.tail > 0 ==> f.len == f.nfull * BLOCK + f.tail && f.tail < BLOCK)
    && (f.tail == 0 ==> f.nfull == CeilDiv(f.len, BLOCK))
  }

  lemma FactIsOk(len: nat, xlen: nat)
    requires AreaSize(xlen)
    ensures FactOk(FactOf(len, xlen)) && FactOf(len, xlen).len == len && FactOf(len, xlen).xlen == xlen
  {
  }

  // ---- pass 1: inode slots ----

  function Off(nid: seq<nat>, idx: nat): nat
    requires idx < |nid|
  {
    nid[idx] * ISLOT
  }

  ghost predicate Indexed(order: seq<nat>, n: nat) { NoRepeats(order) && forall k :: 0 <= k < |order| ==> order[k] < n }

  ghost predicate FactsOk(facts: seq<Fact>) { forall i :: 0 <= i < |facts| ==> FactOk(facts[i]) }

  /** Slot `k` is past the superblock, inside one block and before `end`. */
  ghost predicate SlotOk(order: seq<nat>, facts: seq<Fact>, nid: seq<nat>, k: nat, end: nat)
    requires Indexed(order, |facts|) && |nid| == |facts| && k < |order|
  {
    var o, n := Off(nid, order[k]), Need(facts[order[k]]);
    FIRST_INODE <= o && o % BLOCK + n <= BLOCK && o + n <= end
  }

  /** The first `k` slots are good and follow one another. */
  ghost predicate Slotted(order: seq<nat>, facts: seq<Fact>, nid: seq<nat>, k: nat, end: nat)
    requires Indexed(order, |facts|) && |nid| == |facts| && k <= |order|
  {
    && (forall i :: 0 <= i < k ==> SlotOk(order, facts, nid, i, end))
    && (forall i, j :: 0 <= i < j < k ==> Off(nid, order[i]) + Need(facts[order[i]]) <= Off(nid, order[j]))
  }

  /** Where the next slot starts: here, or at the next block if it would cross. */
  function SlotAt(at: nat, need: nat): (o: nat)
    requires need <= BLOCK && at % ISLOT == 0
    ensures at <= o && o % ISLOT == 0 && o % BLOCK + need <= BLOCK
    ensures o == at || (o % BLOCK == 0 && o < at + BLOCK)
  {
    var start := at / BLOCK * BLOCK;
    SlotArith(at, start, need);
    if at + need > start + BLOCK then start + BLOCK else at
  }

  lemma SlotArith(at: nat, start: nat, need: nat)
    requires start == at / BLOCK * BLOCK && at % ISLOT == 0
    ensures start <= at < start + BLOCK && start % BLOCK == 0 && (start + BLOCK) % BLOCK == 0
    ensures at % BLOCK == at - start && (start + BLOCK) % ISLOT == 0
  {
    var q := at / BLOCK;
    assert at == q * BLOCK + at % BLOCK;
    Multiples(q);
    Multiples(q + 1);
  }

  lemma Multiples(q: nat)
    ensures (q * BLOCK) % BLOCK == 0 && (q * BLOCK) % ISLOT == 0
  {
    DivUnique(q * BLOCK, BLOCK, q, 0);
    DivUnique(q * BLOCK, ISLOT, q * 128, 0);
  }

  function Align32(n: nat): (r: nat)
    ensures n <= r < n + ISLOT && r % ISLOT == 0
  {
    (n + ISLOT - 1) / ISLOT * ISLOT
  }

  method AssignSlots(order: seq<nat>, facts: seq<Fact>) returns (nid: seq<nat>, end: nat)
    requires Indexed(order, |facts|) && FactsOk(facts)
    ensures |nid| == |facts| && Slotted(order, facts, nid, |order|, end)
    ensures FIRST_INODE <= end <= FIRST_INODE + |order| * 2 * BLOCK
    ensures |order| > 0 ==> nid[order[0]] == 36 || nid[order[0]] == 128
    ensures forall i :: 0 <= i < |nid| ==> nid[i] <= end
  {
    hide FactOk, Need, Slotted, SlotAt, Align32, NoRepeats;
    nid, end := seq(|facts|, _ => 0), FIRST_INODE;
    NoSlots(order, facts, nid);
    for k := 0 to |order|
      invariant |nid| == |facts| && Slotted(order, facts, nid, k, end) && end % ISLOT == 0
      invariant FIRST_INODE <= end <= FIRST_INODE + k * 2 * BLOCK
      invariant k > 0 ==> nid[order[0]] == 36 || nid[order[0]] == 128
      invariant forall i :: 0 <= i < |nid| ==> nid[i] <= end
    {
      assert FactOk(facts[order[k]]);
      NeedFits(facts[order[k]]);
      var o := SlotAt(end, Need(facts[order[k]]));
      var next := Align32(o + Need(facts[order[k]]));
      SlotAdded(order, facts, nid, k, end, o, next);
      SlotFirst(end, o);
      FirstDiffers(order, |facts|, k);
      nid, end := nid[order[k] := o / ISLOT], next;
    }
  }

  lemma FirstDiffers(order: seq<nat>, n: nat, k: nat)
    requires Indexed(order, n) && k < |order|
    ensures k > 0 ==> order[0] != order[k]
  {
  }

  lemma NoSlots(order: seq<nat>, facts: seq<Fact>, nid: seq<nat>)
    requires Indexed(order, |facts|) && |nid| == |facts|
    ensures Slotted(order, facts, nid, 0, FIRST_INODE)
  {
  }

  lemma NeedFits(f: Fact)
    requires FactOk(f)
    ensures ISLOT <= Need(f) <= BLOCK
  {
  }

  lemma SlotFirst(at: nat, o: nat)
    requires at % ISLOT == 0 && at <= o && o % ISLOT == 0 && (o == at || (o % BLOCK == 0 && o < at + BLOCK))
    ensures at == FIRST_INODE ==> o / ISLOT == 36 || o / ISLOT == 128
  {
  }

  lemma SlotAdded(order: seq<nat>, facts: seq<Fact>, nid: seq<nat>, k: nat, end: nat, o: nat, next: nat)
    requires Indexed(order, |facts|) && |nid| == |facts| && k < |order| && Slotted(order, facts, nid, k, end)
    requires FIRST_INODE <= end
    requires end <= o && o % ISLOT == 0 && o % BLOCK + Need(facts[order[k]]) <= BLOCK
    requires o + Need(facts[order[k]]) <= next
    ensures Slotted(order, facts, nid[order[k] := o / ISLOT], k + 1, next)
  {
    hide Need;
    var nid2 := nid[order[k] := o / ISLOT];
    assert o / ISLOT * ISLOT == o;
    forall i | 0 <= i < k ensures nid2[order[i]] == nid[order[i]] && SlotOk(order, facts, nid2, i, next) {
      assert SlotOk(order, facts, nid, i, end);
    }
    forall i, j | 0 <= i < j < k + 1 ensures Off(nid2, order[i]) + Need(facts[order[i]]) <= Off(nid2, order[j]) {
      assert SlotOk(order, facts, nid, i, end);
    }
  }

  // ---- pass 2: data blocks ----

  ghost predicate BlocksOk(order: seq<nat>, facts: seq<Fact>, blk: seq<nat>, k: nat, start: nat, next: nat)
    requires Indexed(order, |facts|) && |blk| == |facts| && k <= |order|
  {
    && start <= next
    && (forall i :: 0 <= i < k && facts[order[i]].nfull > 0 ==>
        start <= blk[order[i]] && blk[order[i]] + facts[order[i]].nfull <= next)
    && (forall i, j :: 0 <= i < j < k && facts[order[i]].nfull > 0 && facts[order[j]].nfull > 0 ==>
          blk[order[i]] + facts[order[i]].nfull <= blk[order[j]])
  }

  /** A file that alignment is for: regular and of the minimum size. */
  predicate Large(n: Node, f: Fact, min: nat) { n.kind == Regular && f.len >= min }

  /** Large files outside the priority set start on the grid. */
  ghost predicate Snapped(nodes: seq<Node>, order: seq<nat>, facts: seq<Fact>, blk: seq<nat>, k: nat, align: nat,
                          min: nat, prio: set<nat>)
    requires Indexed(order, |facts|) && |blk| == |facts| == |nodes| && k <= |order|
  {
    align > 1 ==> forall i :: 0 <= i < k && facts[order[i]].nfull > 0 && order[i] !in prio
                              && Large(nodes[order[i]], facts[order[i]], min) ==>
                    blk[order[i]] % align == 0
  }

  ghost predicate EndsPriority(order: seq<nat>, facts: seq<Fact>, blk: seq<nat>, i: nat, prio: set<nat>, pend: nat)
    requires Indexed(order, |facts|) && |blk| == |facts| && i < |order|
  {
    order[i] in prio && facts[order[i]].nfull > 0 && blk[order[i]] + facts[order[i]].nfull == pend
  }

  /** The priority data so far ends at `pend`: none goes further, and one goes that far
      unless there is none at all. */
  ghost predicate PriorityData(order: seq<nat>, facts: seq<Fact>, blk: seq<nat>, k: nat, prio: set<nat>, start: nat,
                               pend: nat)
    requires Indexed(order, |facts|) && |blk| == |facts| && k <= |order|
  {
    && (forall i :: 0 <= i < k && order[i] in prio && facts[order[i]].nfull > 0 ==>
        blk[order[i]] + facts[order[i]].nfull <= pend)
    && (pend == start || exists i :: 0 <= i < k && EndsPriority(order, facts, blk, i, prio, pend))
  }

  ghost predicate InData(order: seq<nat>, facts: seq<Fact>, blk: seq<nat>, i: nat, b: nat)
    requires Indexed(order, |facts|) && |blk| == |facts| && i < |order|
  {
    blk[order[i]] <= b < blk[order[i]] + facts[order[i]].nfull
  }

  /** Block `b` holds data of one of the first `k` nodes. */
  ghost predicate Holds(order: seq<nat>, facts: seq<Fact>, blk: seq<nat>, k: nat, b: nat)
    requires Indexed(order, |facts|) && |blk| == |facts| && k <= |order|
  {
    exists i :: 0 <= i < k && InData(order, facts, blk, i, b)
  }

  /** Every block of [start, e) does. */
  ghost predicate Filled(order: seq<nat>, facts: seq<Fact>, blk: seq<nat>, k: nat, start: nat, e: nat)
    requires Indexed(order, |facts|) && |blk| == |facts| && k <= |order|
  {
    forall b: nat :: start <= b < e ==> Holds(order, facts, blk, k, b)
  }

  /** The priority nodes are among the first `m`, and no other of these is moved to the grid. */
  ghost predicate Leading(nodes: seq<Node>, order: seq<nat>, facts: seq<Fact>, min: nat, prio: set<nat>, m: nat)
    requires Indexed(order, |facts|) && |nodes| == |facts|
  {
    && m <= |order| && (forall i :: m <= i < |order| ==> order[i] !in prio)
    && forall i :: 0 <= i < m ==> order[i] in prio || !Large(nodes[order[i]], facts[order[i]], min)
  }

  lemma FilledNext(order: seq<nat>, facts: seq<Fact>, blk: seq<nat>, k: nat, start: nat, next: nat)
    requires Indexed(order, |facts|) && |blk| == |facts| && k < |order| && Filled(order, facts, blk, k, start, next)
    ensures Filled(order, facts, blk[order[k] := next], k + 1, start, next + facts[order[k]].nfull)
  {
    var b, n := blk[order[k] := next], k + 1;
    forall x: nat | start <= x < next + facts[order[k]].nfull ensures Holds(order, facts, b, n, x) {
      if x < next {
        assert Holds(order, facts, blk, k, x);
        var i :| 0 <= i < k && InData(order, facts, blk, i, x);
        assert InData(order, facts, b, i, x);
      } else {
        assert InData(order, facts, b, k, x);
      }
    }
  }

  lemma FilledKept(order: seq<nat>, facts: seq<Fact>, blk: seq<nat>, m: nat, start: nat, e: nat, k: nat, at: nat,
                   e2: nat)
    requires Indexed(order, |facts|) && |blk| == |facts| && m <= k < |order| && e2 <= e
    requires Filled(order, facts, blk, m, start, e)
    ensures Filled(order, facts, blk[order[k] := at], m, start, e2) && Filled(order, facts, blk, m, start, e2)
  {
    var b := blk[order[k] := at];
    forall x: nat | start <= x < e2 ensures Holds(order, facts, b, m, x) {
      assert Holds(order, facts, blk, m, x);
      var i :| 0 <= i < m && InData(order, facts, blk, i, x);
      assert InData(order, facts, b, i, x);
    }
  }

  lemma FilledSkip(order: seq<nat>, facts: seq<Fact>, blk: seq<nat>, k: nat, start: nat, e: nat)
    requires Indexed(order, |facts|) && |blk| == |facts| && k < |order| && Filled(order, facts, blk, k, start, e)
    ensures Filled(order, facts, blk, k + 1, start, e)
  {
    var n := k + 1;
    forall x: nat | start <= x < e ensures Holds(order, facts, blk, n, x) {
      assert Holds(order, facts, blk, k, x);
      var i :| 0 <= i < k && InData(order, facts, blk, i, x);
    }
  }

  /** The next multiple of the grid, and no later one. */
  function Snap(at: nat, align: nat): (r: nat)
    requires align > 0
    ensures at <= r < at + align && r % align == 0
  {
    if at % align == 0 then at else RoundUp(at, align); at + (align - at % align)
  }

  method AssignBlocks(nodes: seq<Node>, order: seq<nat>, facts: seq<Fact>, start: nat, align: nat, min: nat,
                      prio: set<nat>, ghost m: nat)
    returns (blk: seq<nat>, next: nat, pend: nat)
    requires Indexed(order, |facts|) && |nodes| == |facts| && m <= |order|
    ensures |blk| == |facts| && BlocksOk(order, facts, blk, |order|, start, next) && start <= pend <= next
    ensures Snapped(nodes, order, facts, blk, |order|, align, min, prio)
    ensures PriorityData(order, facts, blk, |order|, prio, start, pend)
    ensures Leading(nodes, order, facts, min, prio, m) ==> Filled(order, facts, blk, m, start, pend)
  {
    hide BlocksOk, Snapped, PriorityData, Filled, Large;
    ghost var lead := Leading(nodes, order, facts, min, prio, m);
    blk, next, pend := seq(|facts|, _ => 0), start, start;
    NoBlocks(nodes, order, facts, blk, start, align, min, prio);
    FilledNone(order, facts, blk, start);
    for k := 0 to |order|
      invariant |blk| == |facts| && BlocksOk(order, facts, blk, k, start, next) && start <= pend <= next
      invariant Snapped(nodes, order, facts, blk, k, align, min, prio)
      invariant PriorityData(order, facts, blk, k, prio, start, pend)
      invariant lead && k < m ==> Filled(order, facts, blk, k, start, next)
      invariant lead && k >= m ==> Filled(order, facts, blk, m, start, pend)
    {
      var idx := order[k];
      if facts[idx].nfull > 0 {
        var at := if align > 1 && idx !in prio && Large(nodes[idx], facts[idx], min) then Snap(next, align) else next;
        BlockAdded(nodes, order, facts, blk, k, start, next, at, align, min, prio);
        PriorityAdded(order, facts, blk, k, start, next, at, prio, pend);
        if lead && k < m { FilledNext(order, facts, blk, k, start, next); }
        if lead && k >= m { FilledKept(order, facts, blk, m, start, pend, k, at, pend); }
        blk, next := blk[idx := at], at + facts[idx].nfull;
        if idx in prio { pend := next; }
      } else {
        BlockSkipped(nodes, order, facts, blk, k, start, next, align, min, prio, pend);
        if lead && k < m { FilledSkip(order, facts, blk, k, start, next); }
      }
      if lead && k + 1 == m { FilledShort(order, facts, blk, m, start, next, pend); }
    }
  }

  lemma FilledNone(order: seq<nat>, facts: seq<Fact>, blk: seq<nat>, start: nat)
    requires Indexed(order, |facts|) && |blk| == |facts|
    ensures Filled(order, facts, blk, 0, start, start)
  {
  }

  lemma FilledShort(order: seq<nat>, facts: seq<Fact>, blk: seq<nat>, k: nat, start: nat, e: nat, e2: nat)
    requires Indexed(order, |facts|) && |blk| == |facts| && k <= |order| && e2 <= e
    requires Filled(order, facts, blk, k, start, e)
    ensures Filled(order, facts, blk, k, start, e2)
  {
  }

  lemma NoBlocks(nodes: seq<Node>, order: seq<nat>, facts: seq<Fact>, blk: seq<nat>, start: nat, align: nat, min: nat,
                 prio: set<nat>)
    requires Indexed(order, |facts|) && |blk| == |facts| == |nodes|
    ensures BlocksOk(order, facts, blk, 0, start, start) && Snapped(nodes, order, facts, blk, 0, align, min, prio)
    ensures PriorityData(order, facts, blk, 0, prio, start, start)
  {
  }

  lemma BlockSkipped(nodes: seq<Node>, order: seq<nat>, facts: seq<Fact>, blk: seq<nat>, k: nat, start: nat, next: nat,
                     align: nat, min: nat, prio: set<nat>, pend: nat)
    requires Indexed(order, |facts|) && |blk| == |facts| == |nodes| && k < |order| && facts[order[k]].nfull == 0
    requires BlocksOk(order, facts, blk, k, start, next) && Snapped(nodes, order, facts, blk, k, align, min, prio)
    requires PriorityData(order, facts, blk, k, prio, start, pend)
    ensures BlocksOk(order, facts, blk, k + 1, start, next)
    ensures Snapped(nodes, order, facts, blk, k + 1, align, min, prio)
    ensures PriorityData(order, facts, blk, k + 1, prio, start, pend)
  {
  }

  lemma BlockAdded(nodes: seq<Node>, order: seq<nat>, facts: seq<Fact>, blk: seq<nat>, k: nat, start: nat, next: nat,
                   at: nat, align: nat, min: nat, prio: set<nat>)
    requires Indexed(order, |facts|) && |blk| == |facts| == |nodes| && k < |order| && next <= at
    requires BlocksOk(order, facts, blk, k, start, next) && Snapped(nodes, order, facts, blk, k, align, min, prio)
    requires align > 1 && order[k] !in prio && Large(nodes[order[k]], facts[order[k]], min) ==> at % align == 0
    ensures var b, n := blk[order[k] := at], at + facts[order[k]].nfull;
      BlocksOk(order, facts, b, k + 1, start, n) && Snapped(nodes, order, facts, b, k + 1, align, min, prio)
  {
    var b := blk[order[k] := at];
    assert forall i :: 0 <= i < k ==> b[order[i]] == blk[order[i]];
  }

  lemma PriorityAdded(order: seq<nat>, facts: seq<Fact>, blk: seq<nat>, k: nat, start: nat, next: nat, at: nat,
                      prio: set<nat>, pend: nat)
    requires Indexed(order, |facts|) && |blk| == |facts| && k < |order| && pend <= next <= at
    requires PriorityData(order, facts, blk, k, prio, start, pend) && facts[order[k]].nfull > 0
    ensures var b, n := blk[order[k] := at], at + facts[order[k]].nfull;
      PriorityData(order, facts, b, k + 1, prio, start, if order[k] in prio then n else pend)
  {
    var b := blk[order[k] := at];
    assert forall i :: 0 <= i < k ==> b[order[i]] == blk[order[i]];
    if order[k] in prio {
      assert EndsPriority(order, facts, b, k, prio, at + facts[order[k]].nfull);
    } else if pend != start {
      var i :| 0 <= i < k && EndsPriority(order, facts, blk, i, prio, pend);
      assert EndsPriority(order, facts, b, i, prio, pend);
    }
  }

  // ---- pass 3: streaming ----

  /** What is written for one node: its slot at `off`, its blocks at `base`. */
  datatype Part = Part(off: nat, slot: seq<byte>, base: nat, data: seq<byte>)

  ghost predicate PartIn(d: seq<byte>, p: Part) {
    ReadAt(d, p.off, |p.slot|) == p.slot && ReadAt(d, p.base, |p.data|) == p.data
  }

  ghost predicate Apart(a: nat, n: nat, b: nat, m: nat) { a + n <= b || b + m <= a || n == 0 || m == 0 }

  /** No write of one node overlaps a write of the other. */
  ghost predicate PartsApart(p: Part, q: Part) {
    && Apart(p.off, |p.slot|, q.off, |q.slot|) && Apart(p.off, |p.slot|, q.base, |q.data|)
    && Apart(p.base, |p.data|, q.off, |q.slot|) && Apart(p.base, |p.data|, q.base, |q.data|)
  }

  /** Seek and write, when there is something to write. */
  function Put(d: seq<byte>, off: nat, b: seq<byte>): (r: seq<byte>)
    ensures |r| == if b != [] && off + |b| > |d| then off + |b| else |d|
  {
    if b == [] then d else WriteAt(d, off, b)
  }

  lemma ReadPut(d: seq<byte>, off: nat, b: seq<byte>)
    ensures ReadAt(Put(d, off, b), off, |b|) == b
  {
    ReadBack(d, off, b);
  }

  lemma ReadApart(d: seq<byte>, off: nat, b: seq<byte>, p: nat, n: nat)
    requires Apart(p, n, off, |b|)
    ensures ReadAt(Put(d, off, b), p, n) == ReadAt(d, p, n)
  {
    if b != [] && n > 0 { ReadElsewhere(d, off, b, p, n); }
  }

  lemma PutSplit(d: seq<byte>, off: nat, a: seq<byte>, b: seq<byte>)
    ensures Put(Put(d, off, a), off + |a|, b) == Put(d, off, a + b)
  {
    WriteSplit(d, off, a, b);
    hide WriteAt;
    assert a == [] ==> a + b == b;
    assert b == [] ==> a + b == a;
  }

  function WritePart(d: seq<byte>, p: Part): seq<byte> { Put(Put(d, p.off, p.slot), p.base, p.data) }

  lemma PartWritten(d: seq<byte>, p: Part)
    requires Apart(p.off, |p.slot|, p.base, |p.data|)
    ensures PartIn(WritePart(d, p), p)
  {
    hide Put, ReadAt;
    var e := Put(d, p.off, p.slot);
    ReadPut(d, p.off, p.slot);
    ReadApart(e, p.base, p.data, p.off, |p.slot|);
    ReadPut(e, p.base, p.data);
  }

  lemma PartKept(d: seq<byte>, p: Part, q: Part)
    requires PartIn(d, p) && PartsApart(p, q)
    ensures PartIn(WritePart(d, q), p)
  {
    hide Put, ReadAt, Apart;
    var e := Put(d, q.off, q.slot);
    ReadApart(d, q.off, q.slot, p.off, |p.slot|);
    ReadApart(d, q.off, q.slot, p.base, |p.data|);
    ReadApart(e, q.base, q.data, p.off, |p.slot|);
    ReadApart(e, q.base, q.data, p.base, |p.data|);
  }

  /** The chunked copy of a node's full blocks is one write of them all. */
  method CopyBlocks(d: seq<byte>, base: nat, data: seq<byte>) returns (r: seq<byte>)
    ensures r == Put(d, base, data)
  {
    hide WriteAt;
    r := d;
    var w := 0;
    while w < |data|
      invariant w <= |data| && r == Put(d, base, data[..w])
    {
      hide Put;
      var chunk := Min(|data| - w, 0x10_0000);
      PutSplit(d, base, data[..w], data[w..w + chunk]);
      assert data[..w] + data[w..w + chunk] == data[..w + chunk];
      r := Put(r, base + w, data[w..w + chunk]);
      w := w + chunk;
    }
    assert data[..|data|] == data;
  }

  // ---- one node ----

  /** inode_bytes: the 32-byte compact inode. Wide values are cut to their fields. */
  function InodeBytes(n: Node, f: Fact, nid: nat, blk: nat, nlink: nat): (b: seq<byte>)
    requires n.mode < 0x1_0000 && AreaSize(f.xlen)
    ensures |b| == ISLOT
  {
    RawInode(LayoutOf(f), Icount(f.xlen), n.mode, Cut16(nlink), Cut32(f.len), Union(n, f, blk), Cut32(nid + 1),
             Cut16(n.uid), Cut16(n.gid))
  }

  function Cut16(v: nat): (r: nat)
    ensures r < 0x1_0000 && (v < 0x1_0000 ==> r == v)
  {
    v % 0x1_0000
  }

  function Cut32(v: nat): (r: nat)
    ensures r < U32_LIMIT && (v < U32_LIMIT ==> r == v)
  {
    v % U32_LIMIT
  }

  function LayoutOf(f: Fact): nat { if f.tail > 0 || f.len == 0 then FLAT_INLINE else FLAT_PLAIN }

  /** i_u: the device number, or the first data block. */
  function Union(n: Node, f: Fact, blk: nat): (u: nat)
    ensures u < U32_LIMIT
  {
    if n.kind == Device then Cut32(n.rdev) else if n.kind == Pipe then 0
    else if f.nfull > 0 then Cut32(blk) else 0xffff_ffff
  }

  function RawInode(layout: nat, icount: nat, mode: nat, nlink: nat, size: nat, u: nat, ino: nat, uid: nat,
                    gid: nat): (b: seq<byte>)
    requires layout <= 2 && icount < 0x1_0000 && mode < 0x1_0000 && nlink < 0x1_0000 && uid < 0x1_0000 && gid < 0x1_0000
    requires size < U32_LIMIT && u < U32_LIMIT && ino < U32_LIMIT
    ensures |b| == ISLOT
  {
    Le16(layout * 2) + Le16(icount) + Le16(mode) + Le16(nlink) + Le32(size) + Le32(0) + Le32(u) + Le32(ino)
      + Le16(uid) + Le16(gid) + Le32(0)
  }

  lemma RawFields(layout: nat, icount: nat, mode: nat, nlink: nat, size: nat, u: nat, ino: nat, uid: nat, gid: nat)
    requires layout <= 2 && icount < 0x1_0000 && mode < 0x1_0000 && nlink < 0x1_0000 && uid < 0x1_0000 && gid < 0x1_0000
    requires size < U32_LIMIT && u < U32_LIMIT && ino < U32_LIMIT
    ensures var i := RawInode(layout, icount, mode, nlink, size, u, ino, uid, gid);
      U16(i, 0) == layout * 2 && U16(i, 2) == icount && U32(i, 8) == size && U32(i, 16) == u
  {
    hide Le16, Le32;
    var i := RawInode(layout, icount, mode, nlink, size, u, ino, uid, gid);
    var a, b, c, d := Le16(layout * 2), Le16(icount), Le32(size), Le32(u);
    assert i[0..2] == a && i[2..4] == b;
    assert i[8..12] == c;
    assert i[16..20] == d;
    hide RawInode;
    Field16(i, 0, a);
    Field16(i, 2, b);
    Field32(i, 8, c);
    Field32(i, 16, d);
  }

  lemma MetaFields(layout: nat, icount: nat, mode: nat, nlink: nat, size: nat, u: nat, ino: nat, uid: nat, gid: nat)
    requires layout <= 2 && icount < 0x1_0000 && mode < 0x1_0000 && nlink < 0x1_0000 && uid < 0x1_0000 && gid < 0x1_0000
    requires size < U32_LIMIT && u < U32_LIMIT && ino < U32_LIMIT
    ensures var i := RawInode(layout, icount, mode, nlink, size, u, ino, uid, gid);
      U16(i, 4) == mode && U16(i, 6) == nlink && U16(i, 24) == uid && U16(i, 26) == gid
  {
    hide Le16, Le32;
    var i := RawInode(layout, icount, mode, nlink, size, u, ino, uid, gid);
    var front := Le16(layout * 2) + Le16(icount);
    var middle := Le32(size) + Le32(0) + Le32(u) + Le32(ino);
    var back := Le32(0);
    assert i == front + (Le16(mode) + Le16(nlink)) + middle + (Le16(uid) + Le16(gid)) + back;
    hide RawInode;
    FieldPair(front, Le16(mode), Le16(nlink), middle + (Le16(uid) + Le16(gid)) + back, i);
    FieldPair(front + (Le16(mode) + Le16(nlink)) + middle, Le16(uid), Le16(gid), back, i);
  }

  lemma FieldPair(h: seq<byte>, a: seq<byte>, b: seq<byte>, z: seq<byte>, i: seq<byte>)
    requires |a| == |b| == 2 && i == h + (a + b) + z
    ensures |i| >= |h| + 4 && U16(i, |h|) == U16(a, 0) && U16(i, |h| + 2) == U16(b, 0)
  {
    assert i[|h|] == a[0] && i[|h| + 1] == a[1] && i[|h| + 2] == b[0] && i[|h| + 3] == b[1];
  }

  lemma Field16(i: seq<byte>, p: nat, a: seq<byte>)
    requires p + 2 <= |i| && |a| == 2 && i[p..p + 2] == a
    ensures U16(i, p) == U16(a, 0)
  {
  }

  lemma Field32(i: seq<byte>, p: nat, a: seq<byte>)
    requires p + 4 <= |i| && |a| == 4 && i[p..p + 4] == a
    ensures U32(i, p) == U32(a, 0)
  {
  }

  function Icount(xlen: nat): (r: nat)
    requires AreaSize(xlen)
    ensures r < 0x1_0000 && (xlen == 0 <==> r == 0) && (xlen > 0 ==> (r - 1) * 4 + 12 == xlen)
  {
    if xlen == 0 then 0 else (xlen - 12) / 4 + 1
  }

  /** The part of the content that goes after the inode, and the part that goes to the
      data region. */
  function Slot(n: Node, f: Fact, inode: seq<byte>, content: seq<byte>): seq<byte>
    requires |content| == f.len && FactOk(f)
  {
    inode + n.xattrs + if f.tail > 0 then content[f.nfull * BLOCK..] else []
  }

  function Full(f: Fact, content: seq<byte>): (r: seq<byte>)
    requires |content| == f.len && FactOk(f)
    ensures |r| <= f.nfull * BLOCK && (f.nfull == 0 ==> r == [])
  {
    if f.tail > 0 then content[..f.nfull * BLOCK] else content
  }

  // ---- decoding ----

  /** The content of the inode at `nid`, by its data layout. */
  function Decode(img: seq<byte>, nid: nat): seq<byte> {
    var i := ReadAt(img, nid * ISLOT, ISLOT);
    DecodeAs(img, nid * ISLOT, U16(i, 0) / 2, Xsize(U16(i, 2)), U32(i, 8), U32(i, 16))
  }

  function Xsize(icount: nat): nat { if icount == 0 then 0 else (icount - 1) * 4 + 12 }

  function DecodeAs(img: seq<byte>, off: nat, layout: nat, xsize: nat, size: nat, u: nat): seq<byte> {
    if layout == FLAT_INLINE
    then ReadAt(img, u * BLOCK, size / BLOCK * BLOCK) + ReadAt(img, off + ISLOT + xsize, size % BLOCK)
    else ReadAt(img, u * BLOCK, size)
  }

  lemma DecodeHeader(img: seq<byte>, n: Node, f: Fact, nid: nat, blk: nat, nlink: nat)
    requires n.mode < 0x1_0000 && AreaSize(f.xlen) && f.len < U32_LIMIT
    requires ReadAt(img, nid * ISLOT, ISLOT) == InodeBytes(n, f, nid, blk, nlink)
    ensures Decode(img, nid) == DecodeAs(img, nid * ISLOT, LayoutOf(f), f.xlen, f.len, Union(n, f, blk))
  {
    RawFields(LayoutOf(f), Icount(f.xlen), n.mode, Cut16(nlink), Cut32(f.len), Union(n, f, blk), Cut32(nid + 1),
              Cut16(n.uid), Cut16(n.gid));
    hide RawInode, U16, U32, ReadAt, DecodeAs, Cut16, Cut32, Union, Icount;
  }

  lemma ReadPieces(d: seq<byte>, off: nat, a: seq<byte>, b: seq<byte>, c: seq<byte>)
    requires ReadAt(d, off, |a + b + c|) == a + b + c
    ensures ReadAt(d, off, |a|) == a && ReadAt(d, off + |a|, |b|) == b && ReadAt(d, off + |a| + |b|, |c|) == c
  {
    var r := ReadAt(d, off, |a + b + c|);
    forall i | 0 <= i < |a| ensures ReadAt(d, off, |a|)[i] == a[i] { assert r[i] == At(d, off + i); }
    forall i | 0 <= i < |b|
      ensures ReadAt(d, off + |a|, |b|)[i] == b[i]
    {
      assert r[|a| + i] == At(d, off + (|a| + i));
    }
    forall i | 0 <= i < |c|
      ensures ReadAt(d, off + |a| + |b|, |c|)[i] == c[i]
    {
      assert r[|a| + |b| + i] == At(d, off + (|a| + |b| + i));
    }
  }

  /** Special files have no content. */
  ghost predicate KindOk(n: Node) { (n.kind == Device || n.kind == Pipe) ==> n.data == [] }

  /** A node whose writes are in the image decodes to its content. */
  lemma PartDecodes(img: seq<byte>, n: Node, f: Fact, nid: nat, blk: nat, nlink: nat, content: seq<byte>)
    requires n.mode < 0x1_0000 && FactOk(f) && |n.xattrs| == f.xlen && |content| == f.len < U32_LIMIT
    requires (f.nfull > 0 ==> blk < U32_LIMIT)
    requires n.kind == Device || n.kind == Pipe ==> content == []
    requires var i := InodeBytes(n, f, nid, blk, nlink);
      PartIn(img, Part(nid * ISLOT, Slot(n, f, i, content), Cut32(blk) * BLOCK, Full(f, content)))
    ensures Decode(img, nid) == content
  {
    hide InodeBytes, ReadAt, Decode, DecodeAs, AreaSize;
    var i := InodeBytes(n, f, nid, blk, nlink);
    ReadPieces(img, nid * ISLOT, i, n.xattrs, if f.tail > 0 then content[f.nfull * BLOCK..] else []);
    DecodeHeader(img, n, f, nid, blk, nlink);
    PiecesDecode(img, f, nid * ISLOT, Union(n, f, blk), content);
  }

  /** The attribute area of the inode at `nid`, sized by its i_xattr_icount. */
  function DecodeArea(img: seq<byte>, nid: nat): seq<byte> {
    ReadAt(img, nid * ISLOT + ISLOT, Xsize(U16(ReadAt(img, nid * ISLOT, ISLOT), 2)))
  }

  datatype Meta = Meta(mode: nat, nlink: nat, uid: nat, gid: nat)

  function MetaAt(img: seq<byte>, nid: nat): Meta {
    var i := ReadAt(img, nid * ISLOT, ISLOT);
    Meta(U16(i, 4), U16(i, 6), U16(i, 24), U16(i, 26))
  }

  /** Its metadata is in the inode; owners and link count are cut to 16 bits. */
  lemma PartMeta(img: seq<byte>, n: Node, f: Fact, nid: nat, blk: nat, nlink: nat, content: seq<byte>)
    requires n.mode < 0x1_0000 && FactOk(f) && |n.xattrs| == f.xlen && |content| == f.len
    requires var i := InodeBytes(n, f, nid, blk, nlink);
      PartIn(img, Part(nid * ISLOT, Slot(n, f, i, content), Cut32(blk) * BLOCK, Full(f, content)))
    ensures MetaAt(img, nid) == Meta(n.mode, Cut16(nlink), Cut16(n.uid), Cut16(n.gid))
  {
    var i := InodeBytes(n, f, nid, blk, nlink);
    MetaFields(LayoutOf(f), Icount(f.xlen), n.mode, Cut16(nlink), Cut32(f.len), Union(n, f, blk), Cut32(nid + 1),
               Cut16(n.uid), Cut16(n.gid));
    assert U16(i, 4) == n.mode && U16(i, 6) == Cut16(nlink) && U16(i, 24) == Cut16(n.uid) && U16(i, 26) == Cut16(n.gid);
    hide InodeBytes, RawInode, U16, U32, ReadAt, Cut16, Cut32, Union, LayoutOf;
    ReadPieces(img, nid * ISLOT, i, n.xattrs, if f.tail > 0 then content[f.nfull * BLOCK..] else []);
  }

  /** And its attribute area is found behind its inode. */
  lemma PartArea(img: seq<byte>, n: Node, f: Fact, nid: nat, blk: nat, nlink: nat, content: seq<byte>)
    requires n.mode < 0x1_0000 && FactOk(f) && |n.xattrs| == f.xlen && |content| == f.len
    requires var i := InodeBytes(n, f, nid, blk, nlink);
      PartIn(img, Part(nid * ISLOT, Slot(n, f, i, content), Cut32(blk) * BLOCK, Full(f, content)))
    ensures DecodeArea(img, nid) == n.xattrs
  {
    var i := InodeBytes(n, f, nid, blk, nlink);
    RawFields(LayoutOf(f), Icount(f.xlen), n.mode, Cut16(nlink), Cut32(f.len), Union(n, f, blk), Cut32(nid + 1),
              Cut16(n.uid), Cut16(n.gid));
    hide InodeBytes, RawInode, U16, U32, ReadAt, Cut16, Cut32, Union, LayoutOf;
    assert U16(i, 2) == Icount(f.xlen);
    ReadPieces(img, nid * ISLOT, i, n.xattrs, if f.tail > 0 then content[f.nfull * BLOCK..] else []);
  }

  lemma PiecesDecode(img: seq<byte>, f: Fact, off: nat, u: nat, content: seq<byte>)
    requires FactOk(f) && |content| == f.len
    requires f.tail > 0 ==> ReadAt(img, off + ISLOT + f.xlen, f.tail) == content[f.nfull * BLOCK..]
    requires f.nfull > 0 ==> ReadAt(img, u * BLOCK, |Full(f, content)|) == Full(f, content)
    ensures DecodeAs(img, off, LayoutOf(f), f.xlen, f.len, u) == content
  {
    hide ReadAt;
    TailShape(f);
    ReadNone(img);
    if f.tail > 0 {
      var a := f.nfull * BLOCK;
      assert content == content[..a] + content[a..];
      assert ReadAt(img, u * BLOCK, a) == content[..a];
    }
  }

  lemma ReadNone(d: seq<byte>)
    ensures forall p :: ReadAt(d, p, 0) == []
  {
  }

  lemma TailShape(f: Fact)
    requires FactOk(f)
    ensures f.tail > 0 ==> f.len / BLOCK == f.nfull && f.len % BLOCK == f.tail
    ensures f.tail == 0 && f.len > 0 ==> f.nfull > 0
    ensures f.len == 0 ==> f.nfull == 0 && f.tail == 0
  {
  }
}
