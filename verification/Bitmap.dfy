/** The block and inode bitmaps of one group, as close() builds them bit by bit,
    with the counts that go into the group descriptor. */
module Bitmap {
  import opened Bytes
  import opened SparseSuper
  import opened FreeBlocks

  const INODE_FIRST: nat := 11

  function Mask(k: nat): bv8
    requires k < 8
  {
    if k == 0 then 1 else if k == 1 then 2 else if k == 2 then 4 else if k == 3 then 8
    else if k == 4 then 16 else if k == 5 then 32 else if k == 6 then 64 else 128
  }

  predicate Has(x: bv8, k: nat) requires k < 8 { x & Mask(k) != 0 }
  function Put(x: bv8, k: nat): bv8 requires k < 8 { x | Mask(k) }
  function Drop(x: bv8, k: nat): bv8 requires k < 8 { x & !Mask(k) }

  predicate Bit(buf: seq<bv8>, j: nat)
    requires j < 8 * |buf|
  {
    Has(buf[j / 8], j % 8)
  }

  function SetBit(buf: seq<bv8>, j: nat): (r: seq<bv8>)
    requires j < 8 * |buf|
    ensures |r| == |buf|
  {
    buf[j / 8 := Put(buf[j / 8], j % 8)]
  }

  function ClearBit(buf: seq<bv8>, j: nat): (r: seq<bv8>)
    requires j < 8 * |buf|
    ensures |r| == |buf|
  {
    buf[j / 8 := Drop(buf[j / 8], j % 8)]
  }

  lemma MaskBits(x: bv8, k: nat, m: nat)
    requires k < 8 && m < 8
    ensures Has(Put(x, k), m) <==> k == m || Has(x, m)
    ensures Has(Drop(x, k), m) <==> k != m && Has(x, m)
  {
  }

  lemma BitAfter(buf: seq<bv8>, j: nat, m: nat)
    requires j < 8 * |buf| && m < 8 * |buf|
    ensures Bit(SetBit(buf, j), m) == (j == m || Bit(buf, m))
    ensures Bit(ClearBit(buf, j), m) == (j != m && Bit(buf, m))
  {
    hide Has, Put, Drop, Mask;
    if j / 8 == m / 8 {
      assert j == m <==> j % 8 == m % 8;
      MaskBits(buf[j / 8], j % 8, m % 8);
    }
  }

  /** Set bits among the first `n`. */
  function Ones(buf: seq<bv8>, n: nat): (c: nat)
    requires n <= 8 * |buf|
    ensures c <= n
  {
    if n == 0 then 0 else Ones(buf, n - 1) + if Bit(buf, n - 1) then 1 else 0
  }

  /** Clear bits among the first `n`: what a free count means. */
  function Clear(buf: seq<bv8>, n: nat): (c: nat)
    requires n <= 8 * |buf|
    ensures c <= n
  {
    if n == 0 then 0 else Clear(buf, n - 1) + if Bit(buf, n - 1) then 0 else 1
  }

  lemma {:induction false} OnesAndClear(buf: seq<bv8>, n: nat)
    requires n <= 8 * |buf|
    ensures Ones(buf, n) + Clear(buf, n) == n
  {
    if n > 0 { OnesAndClear(buf, n - 1); }
  }

  /** Bits set from `m` on add nothing to the clear ones. */
  lemma {:induction false} ClearBelow(buf: seq<bv8>, m: nat, n: nat)
    requires m <= n <= 8 * |buf| && forall j :: m <= j < n ==> Bit(buf, j)
    ensures Clear(buf, n) == Clear(buf, m)
  {
    if m < n { ClearBelow(buf, m, n - 1); }
  }

  lemma {:induction false} OnesAfter(buf: seq<bv8>, j: nat, n: nat)
    requires j < 8 * |buf| && n <= 8 * |buf|
    ensures Ones(SetBit(buf, j), n) == Ones(buf, n) + if j < n && !Bit(buf, j) then 1 else 0
    ensures Ones(ClearBit(buf, j), n) == Ones(buf, n) - if j < n && Bit(buf, j) then 1 else 0
  {
    hide Bit, SetBit, ClearBit;
    if n > 0 {
      OnesAfter(buf, j, n - 1);
      BitAfter(buf, j, n - 1);
    }
  }

  lemma {:induction false} OnesUniform(buf: seq<bv8>, n: nat, v: bool)
    requires n <= 8 * |buf| && forall j :: 0 <= j < n ==> Bit(buf, j) == v
    ensures Ones(buf, n) == if v then n else 0
  {
    if n > 0 { OnesUniform(buf, n - 1, v); }
  }

  const BITS: nat := 32768 // one block of bitmap
  const BYTES: nat := 4096

  // ---- block bitmap ----

  /** What close() decides at once, before the holes are cleared: used below the
      end of data except unused descriptor blocks, and set past the disk's end. */
  predicate Base(g: nat, groups: nat, valid: nat, disk: nat, usedGd: nat, gd: nat, j: nat) {
    var b := g * BLOCKS_PER_GROUP + j;
    || (b < valid && !(g == 0 && 1 + usedGd <= j < 1 + gd))
    || (g == groups - 1 && b >= disk)
  }

  /** Set bits [lo, hi) and count each of them, also those that were set before. */
  method SetRange(buf0: seq<bv8>, used0: nat, lo: nat, hi: nat) returns (buf: seq<bv8>, used: nat)
    requires |buf0| == BYTES && lo <= hi <= BITS
    ensures |buf| == BYTES && used == used0 + (hi - lo)
    ensures (forall j :: lo <= j < hi ==> !Bit(buf0, j)) ==> Ones(buf, BITS) == Ones(buf0, BITS) + (hi - lo)
    ensures (forall j :: lo <= j < hi ==> Bit(buf0, j)) ==> Ones(buf, BITS) == Ones(buf0, BITS)
    ensures forall j: nat :: j < BITS ==> Bit(buf, j) == (Bit(buf0, j) || lo <= j < hi)
  {
    hide Bit, SetBit, Ones;
    buf, used := buf0, used0;
    var j := lo;
    while j < hi
      invariant lo <= j <= hi && |buf| == BYTES && used == used0 + (j - lo)
      invariant (forall m :: lo <= m < hi ==> !Bit(buf0, m)) ==> Ones(buf, BITS) == Ones(buf0, BITS) + (j - lo)
      invariant (forall m :: lo <= m < hi ==> Bit(buf0, m)) ==> Ones(buf, BITS) == Ones(buf0, BITS)
      invariant forall m: nat :: m < BITS ==> Bit(buf, m) == (Bit(buf0, m) || lo <= m < j)
    {
      OnesAfter(buf, j, BITS);
      forall m: nat | m < BITS
        ensures Bit(SetBit(buf, j), m) == (Bit(buf0, m) || lo <= m < j + 1)
      {
        BitAfter(buf, j, m);
      }
      buf := SetBit(buf, j);
      used := used + 1;
      j := j + 1;
    }
  }

  /** Clear bits [lo, hi), all of them set before, and uncount them. */
  method ClearRange(buf0: seq<bv8>, used0: nat, lo: nat, hi: nat) returns (buf: seq<bv8>, used: nat)
    requires |buf0| == BYTES && lo <= hi <= BITS && used0 == Ones(buf0, BITS)
    requires forall j :: lo <= j < hi ==> Bit(buf0, j)
    ensures |buf| == BYTES && used == Ones(buf, BITS)
    ensures forall j: nat :: j < BITS ==> Bit(buf, j) == (Bit(buf0, j) && !(lo <= j < hi))
  {
    hide Bit, ClearBit, Ones;
    buf, used := buf0, used0;
    var j := lo;
    while j < hi
      invariant lo <= j <= hi && |buf| == BYTES && used == Ones(buf, BITS)
      invariant forall m: nat :: m < BITS ==> Bit(buf, m) == (Bit(buf0, m) && !(lo <= m < j))
    {
      OnesAfter(buf, j, BITS);
      forall m: nat | m < BITS
        ensures Bit(ClearBit(buf, j), m) == (Bit(buf0, m) && !(lo <= m < j + 1))
      {
        BitAfter(buf, j, m);
      }
      buf := ClearBit(buf, j);
      used := used - 1;
      j := j + 1;
    }
  }

  /** What the last group counts twice when the disk ends past it. */
  function Excess(g: nat, groups: nat, disk: nat): nat {
    if g + 1 == groups && disk > groups * BLOCKS_PER_GROUP && disk % BLOCKS_PER_GROUP != 0
    then BLOCKS_PER_GROUP - disk % BLOCKS_PER_GROUP else 0
  }

  /** The part of the block bitmap decided by the image size. It fails where the end of
      the group is not a 32-bit block number. */
  method BaseBitmap(g: nat, groups: nat, valid: nat, disk: nat, usedGd: nat, gd: nat)
    returns (ok: bool, buf: seq<bv8>, used: nat)
    requires g < groups && 1 + gd <= valid <= disk && usedGd <= gd <= 1024
    requires (groups - 1) * BLOCKS_PER_GROUP < disk
    requires (disk > groups * BLOCKS_PER_GROUP ==> valid == disk && groups > 1)
    ensures ok <==> (g + 1) * BLOCKS_PER_GROUP < U32_LIMIT
    ensures |buf| == BYTES
    ensures ok ==> used == Ones(buf, BITS) + Excess(g, groups, disk)
    ensures ok ==> forall j: nat :: j < BITS ==> Bit(buf, j) == Base(g, groups, valid, disk, usedGd, gd, j)
  {
    hide Bit, Ones;
    used, ok := 0, false;
    buf := Uniform(0, false);
    if (g + 1) * BLOCKS_PER_GROUP >= U32_LIMIT { return; }
    var gs := g * BLOCKS_PER_GROUP;
    if (g + 1) * BLOCKS_PER_GROUP <= valid {
      buf := Uniform(0xff, true);
      used := BLOCKS_PER_GROUP;
    } else if gs < valid {
      buf, used := SetRange(buf, 0, 0, valid - gs);
    }
    assert forall j: nat :: j < BITS ==> Bit(buf, j) == (gs + j < valid);
    if g == 0 {
      buf, used := ClearRange(buf, used, 1 + usedGd, 1 + gd);
    }
    if g == groups - 1 && disk % BLOCKS_PER_GROUP != 0 {
      LastGroup(disk, groups);
      buf, used := SetRange(buf, used, disk % BLOCKS_PER_GROUP, BLOCKS_PER_GROUP);
    }
    ok := true;
  }

  lemma LastGroup(disk: nat, groups: nat)
    requires groups > 0 && (groups - 1) * BLOCKS_PER_GROUP < disk && disk % BLOCKS_PER_GROUP != 0
    ensures disk <= groups * BLOCKS_PER_GROUP ==> disk == (groups - 1) * BLOCKS_PER_GROUP + disk % BLOCKS_PER_GROUP
  {
  }

  method Uniform(x: bv8, ghost v: bool) returns (buf: seq<bv8>)
    requires x == if v then 0xff else 0
    ensures |buf| == BYTES && Ones(buf, BITS) == if v then BITS else 0
    ensures forall j: nat :: j < BITS ==> Bit(buf, j) == v
  {
    buf := seq(BYTES, _ => x);
    forall j: nat | j < BITS ensures Bit(buf, j) == v {}
    OnesUniform(buf, BITS, v);
  }

  ghost predicate InHoles(holes: seq<Run>, n: nat, b: nat)
    requires n <= |holes|
  {
    exists i :: 0 <= i < n && holes[i].start <= b < holes[i].start + holes[i].len
  }

  /** Clear one hole's blocks of this group, each counted only if it was set. */
  method ClearHole(buf0: seq<bv8>, used0: nat, gs: nat, hole: Run) returns (buf: seq<bv8>, used: nat)
    requires |buf0| == BYTES && used0 >= Ones(buf0, BITS)
    ensures |buf| == BYTES && used - Ones(buf, BITS) == used0 - Ones(buf0, BITS)
    ensures forall j: nat :: j < BITS ==>
      Bit(buf, j) == (Bit(buf0, j) && !(hole.start <= gs + j < hole.start + hole.len))
  {
    hide Bit, ClearBit, Ones;
    buf, used := buf0, used0;
    var b := Max(hole.start, gs);
    var hi := Min(hole.start + hole.len, gs + BLOCKS_PER_GROUP);
    while b < hi
      invariant b >= gs && b >= hole.start && |buf| == BYTES && used - Ones(buf, BITS) == used0 - Ones(buf0, BITS)
      invariant forall m: nat :: m < BITS ==>
        Bit(buf, m) == (Bit(buf0, m) && !(hole.start <= gs + m < hole.start + hole.len && gs + m < b))
    {
      var j := b - gs;
      if Bit(buf, j) {
        OnesAfter(buf, j, BITS);
        forall m: nat | m < BITS ensures Bit(ClearBit(buf, j), m) == (Bit(buf, m) && m != j) { BitAfter(buf, j, m); }
        buf := ClearBit(buf, j);
        used := used - 1;
      }
      b := b + 1;
    }
  }

  /** The block bitmap of group `g`: a block is used iff it is below the end of
      data and neither an unused descriptor block nor in a hole, or at or past the
      end of the disk. The count is the number of set bits, unless the disk ends past
      the last group. */
  method BlockBitmap(g: nat, groups: nat, valid: nat, disk: nat, usedGd: nat, gd: nat, holes: seq<Run>)
    returns (ok: bool, buf: seq<bv8>, used: nat)
    requires g < groups && 1 + gd <= valid <= disk && usedGd <= gd <= 1024
    requires (groups - 1) * BLOCKS_PER_GROUP < disk
    requires (disk > groups * BLOCKS_PER_GROUP ==> valid == disk && groups > 1)
    ensures ok <==> (g + 1) * BLOCKS_PER_GROUP < U32_LIMIT
    ensures |buf| == BYTES
    ensures ok ==> used == Ones(buf, BITS) + Excess(g, groups, disk)
    ensures ok ==> forall j: nat :: j < BITS ==>
      Bit(buf, j) == (Base(g, groups, valid, disk, usedGd, gd, j) && !InHoles(holes, |holes|, g * BLOCKS_PER_GROUP + j))
  {
    hide Bit, Base;
    ok, buf, used := BaseBitmap(g, groups, valid, disk, usedGd, gd);
    if !ok { return; }
    var gs := g * BLOCKS_PER_GROUP;
    for i := 0 to |holes|
      invariant |buf| == BYTES && used == Ones(buf, BITS) + Excess(g, groups, disk)
      invariant forall j: nat :: j < BITS ==>
        Bit(buf, j) == (Base(g, groups, valid, disk, usedGd, gd, j) && !InHoles(holes, i, gs + j))
    {
      buf, used := ClearHole(buf, used, gs, holes[i]);
      forall b: nat
        ensures InHoles(holes, i + 1, b) ==
          (InHoles(holes, i, b) || holes[i].start <= b < holes[i].start + holes[i].len)
      {
        HoleAdded(holes, i, b);
      }
    }
  }

  lemma HoleAdded(holes: seq<Run>, i: nat, b: nat)
    requires i < |holes|
    ensures InHoles(holes, i + 1, b) <==> InHoles(holes, i, b) || holes[i].start <= b < holes[i].start + holes[i].len
  {
  }

  // ---- inode bitmap ----

  /** The inode bitmap of group `g`: a bit is set iff its inode is reserved or
      allocated, and every bit past the group's inodes is set; the others are free. */
  method InodeBitmap(g: nat, ipg: nat, inodes: seq<bool>) returns (buf: seq<bv8>, used: nat)
    requires 0 < ipg <= BITS
    ensures |buf| == BYTES
    ensures forall j: nat :: j < BITS ==> Bit(buf, j) == (j >= ipg || InodeUsed(inodes, 1 + g * ipg + j))
    ensures used == Ones(buf, ipg) && ipg - used == Clear(buf, BITS)
  {
    hide Bit, SetBit;
    used := 0;
    buf := Uniform(0, false);
    for j := 0 to ipg
      invariant |buf| == BYTES && used == Ones(buf, j)
      invariant forall m: nat :: m < BITS ==> Bit(buf, m) == (m < j && InodeUsed(inodes, 1 + g * ipg + m))
    {
      if InodeUsed(inodes, 1 + g * ipg + j) {
        OnesAfter(buf, j, j);
        forall m: nat | m < BITS ensures Bit(SetBit(buf, j), m) == (j == m || Bit(buf, m)) { BitAfter(buf, j, m); }
        buf := SetBit(buf, j);
        used := used + 1;
      }
    }
    for j := ipg to BITS
      invariant |buf| == BYTES && used == Ones(buf, ipg)
      invariant forall m: nat :: m < BITS ==>
        Bit(buf, m) == (if m < ipg then InodeUsed(inodes, 1 + g * ipg + m) else m < j)
    {
      OnesAfter(buf, j, ipg);
      forall m: nat | m < BITS ensures Bit(SetBit(buf, j), m) == (j == m || Bit(buf, m)) { BitAfter(buf, j, m); }
      buf := SetBit(buf, j);
    }
    OnesAndClear(buf, ipg);
    ClearBelow(buf, ipg, BITS);
  }

  predicate InodeUsed(inodes: seq<bool>, ino: nat) {
    0 < ino && (ino < INODE_FIRST || (ino <= |inodes| && inodes[ino - 1]))
  }
}
