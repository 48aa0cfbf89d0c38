/** Where a file's bytes are on disk while and after they are written: byte `i`
    sits in the (i / 4096)-th free block from the file's first block. */
module Placement {
  import opened Bytes
  import opened SparseSuper
  import opened FreeBlocks
  import opened ExtentTree

  function CeilBlock(pos: nat): nat { (pos + BLOCK - 1) / BLOCK }

  lemma PartialBlock(pos: nat)
    requires pos % BLOCK != 0
    ensures CeilBlock(pos) == pos / BLOCK + 1 && (CeilBlock(pos) - 1) * BLOCK + pos % BLOCK == pos
  {
  }

  /** `n` bytes written from block `start` end at byte `pos`. */
  ghost predicate Spans(R: iset<nat>, pos: nat, start: nat, n: nat) {
    var e := CeilBlock(pos);
    && start * BLOCK <= pos
    && pos % BLOCK == n % BLOCK
    && |FreeIn(R, start, e)| == CeilBlock(n)
    && (pos % BLOCK != 0 ==> e - 1 !in R && start < e)
  }

  /** `content` has been written from block `start` up to byte `pos`. */
  ghost predicate Placed(R: iset<nat>, d: seq<byte>, pos: nat, start: nat, content: seq<byte>) {
    && Spans(R, pos, start, |content|)
    && IsPrefixOf(content, Gather(d, FreeIn(R, start, CeilBlock(pos))))
  }

  /** After the last block is padded: the file is the prefix of the free blocks of [start, end). */
  ghost predicate Laid(R: iset<nat>, d: seq<byte>, start: nat, end: nat, content: seq<byte>) {
    && start <= end
    && |FreeIn(R, start, end)| == CeilBlock(|content|)
    && IsPrefixOf(content, Gather(d, FreeIn(R, start, end)))
  }

  lemma NothingPlaced(R: iset<nat>, d: seq<byte>, start: nat)
    ensures Placed(R, d, start * BLOCK, start, [])
  {
    assert CeilBlock(start * BLOCK) == start;
  }

  /** From index `m` on, the blocks count up from `b`. */
  ghost predicate CountsUp(f: seq<nat>, m: nat, b: nat) {
    forall j :: m <= j < |f| ==> f[j] == b + (j - m)
  }

  /** The blocks of the file after more bytes, by index. */
  lemma BlocksAfter(R: iset<nat>, pos: nat, start: nat, n: nat, pos2: nat, n2: nat)
    requires Spans(R, pos, start, n) && pos < pos2 && n2 == n + (pos2 - pos)
    requires forall b :: pos / BLOCK <= b < CeilBlock(pos2) ==> b !in R
    ensures Spans(R, pos2, start, n2)
    ensures FreeIn(R, start, CeilBlock(pos)) <= FreeIn(R, start, CeilBlock(pos2))
    ensures n2 <= |FreeIn(R, start, CeilBlock(pos2))| * BLOCK
    ensures CountsUp(FreeIn(R, start, CeilBlock(pos2)), n / BLOCK, pos / BLOCK)
  {
    var e, e2 := CeilBlock(pos), CeilBlock(pos2);
    var f := FreeIn(R, start, e);
    FreeInRun(R, start, e, e2);
    if n % BLOCK != 0 {
      FreeInRun(R, start, e - 1, e);
      assert f[|f| - 1] == e - 1;
      assert |f| == n / BLOCK + 1 && e == pos / BLOCK + 1;
    } else {
      assert |f| == n / BLOCK && e == pos / BLOCK;
    }
  }

  /** A byte already written lies below the cursor. */
  lemma OldByteBelow(R: iset<nat>, pos: nat, start: nat, n: nat, i: nat)
    requires Spans(R, pos, start, n) && i < n
    ensures var f := FreeIn(R, start, CeilBlock(pos));
            i / BLOCK < |f| && start * BLOCK <= f[i / BLOCK] * BLOCK + i % BLOCK < pos
  {
    var e := CeilBlock(pos);
    var f := FreeIn(R, start, e);
    FreeInExact(R, start, e);
    var j := i / BLOCK;
    assert j < |f|;
    assert f[j] in f;
    if n % BLOCK == 0 {
      assert e * BLOCK == pos;
    } else {
      FreeInRun(R, start, e - 1, e);
      assert f[|f| - 1] == e - 1;
      PartialBlock(pos);
      if j == |f| - 1 { assert i % BLOCK < n % BLOCK; }
    }
  }

  lemma NextBytePos(n: nat, pos: nat, i: nat)
    requires n <= i && pos % BLOCK == n % BLOCK
    ensures (pos / BLOCK + (i / BLOCK - n / BLOCK)) * BLOCK + i % BLOCK == pos + (i - n)
  {
  }

  /** Bytes written at the cursor land where the file's next blocks are. */
  lemma BytesAfter(d: seq<byte>, pos: nat, content: seq<byte>, more: seq<byte>, f: seq<nat>, f2: seq<nat>,
                   d2: seq<byte>, all: seq<byte>)
    requires d2 == WriteAt(d, pos, more) && all == content + more && f <= f2
    requires IsPrefixOf(content, Gather(d, f)) && |all| <= |f2| * BLOCK
    requires forall i :: 0 <= i < |content| ==> f[i / BLOCK] * BLOCK + i % BLOCK < pos
    requires pos % BLOCK == |content| % BLOCK && CountsUp(f2, |content| / BLOCK, pos / BLOCK)
    ensures IsPrefixOf(all, Gather(d2, f2))
  {
    var g2 := Gather(d2, f2);
    forall i | 0 <= i < |all| ensures all[i] == g2[i] {
      if i < |content| {
        assert content[i] == Gather(d, f)[i];
      } else {
        NextBytePos(|content|, pos, i);
      }
    }
  }

  /** Writing the next contiguous, unreserved piece keeps the file in place. */
  lemma PlaceMore(R: iset<nat>, d: seq<byte>, pos: nat, start: nat, content: seq<byte>, more: seq<byte>,
                  d2: seq<byte>, pos2: nat, all: seq<byte>)
    requires Placed(R, d, pos, start, content) && |more| > 0
    requires d2 == WriteAt(d, pos, more) && pos2 == pos + |more| && all == content + more
    requires forall b :: pos / BLOCK <= b < CeilBlock(pos2) ==> b !in R
    ensures Placed(R, d2, pos2, start, all)
  {
    BlocksAfter(R, pos, start, |content|, pos2, |all|);
    forall i | 0 <= i < |content| ensures FreeIn(R, start, CeilBlock(pos))[i / BLOCK] * BLOCK + i % BLOCK < pos {
      OldByteBelow(R, pos, start, |content|, i);
    }
    BytesAfter(d, pos, content, more, FreeIn(R, start, CeilBlock(pos)), FreeIn(R, start, CeilBlock(pos2)), d2, all);
  }

  /** A file is never cut off in the middle of a reserved block. */
  lemma MidBlockFree(R: iset<nat>, d: seq<byte>, pos: nat, start: nat, content: seq<byte>)
    requires Placed(R, d, pos, start, content) && pos % BLOCK != 0
    ensures pos / BLOCK !in R
  {
    PartialBlock(pos);
  }

  /** Stepping over reserved blocks at a block boundary keeps the file in place. */
  lemma PlacedAcrossGap(R: iset<nat>, d: seq<byte>, pos: nat, start: nat, content: seq<byte>, b: nat)
    requires Placed(R, d, pos, start, content) && pos % BLOCK == 0 && pos <= b * BLOCK
    requires forall x :: pos / BLOCK <= x < b ==> x in R
    ensures Placed(R, d, b * BLOCK, start, content)
  {
    assert CeilBlock(pos) == pos / BLOCK && CeilBlock(b * BLOCK) == b;
    FreeInGap(R, start, pos / BLOCK, b);
  }

  /** Padding the last block with zeros finishes the layout. */
  lemma PadFinishes(R: iset<nat>, d: seq<byte>, pos: nat, start: nat, content: seq<byte>, z: seq<byte>)
    requires Placed(R, d, pos, start, content) && pos + |z| == CeilBlock(pos) * BLOCK
    ensures Laid(R, WriteAt(d, pos, z), start, CeilBlock(pos), content)
  {
    var f := FreeIn(R, start, CeilBlock(pos));
    var d2 := WriteAt(d, pos, z);
    forall i | 0 <= i < |content| ensures content[i] == Gather(d2, f)[i] {
      OldByteBelow(R, pos, start, |content|, i);
      assert content[i] == Gather(d, f)[i];
    }
    assert content == Gather(d2, f)[..|content|];
  }

  /** The layout only depends on the file's own blocks. */
  lemma LaidFrame(R: iset<nat>, d: seq<byte>, d2: seq<byte>, start: nat, end: nat, content: seq<byte>)
    requires Laid(R, d, start, end, content)
    requires forall i: nat :: start * BLOCK <= i < end * BLOCK ==> At(d2, i) == At(d, i)
    ensures Laid(R, d2, start, end, content)
  {
    var f := FreeIn(R, start, end);
    FreeInExact(R, start, end);
    forall i | 0 <= i < |content| ensures content[i] == Gather(d2, f)[i] {
      assert f[i / BLOCK] in f;
      assert content[i] == Gather(d, f)[i];
    }
    assert content == Gather(d2, f)[..|content|];
  }

  // ---- how much still fits ----

  /** The bytes that fit from `pos` on: the rest of a block begun, and the free blocks after it. */
  ghost function Room(R: iset<nat>, pos: nat, maxDisk: nat): nat {
    CeilBlock(pos) * BLOCK - pos + |FreeIn(R, CeilBlock(pos), maxDisk / BLOCK)| * BLOCK
  }

  lemma {:induction false} FreeInShort(R: iset<nat>, a: nat, b: nat)
    ensures |FreeIn(R, a, b)| <= if a <= b then b - a else 0
    decreases b
  {
    if a < b { FreeInShort(R, a, b - 1); }
  }

  /** Reserved blocks make no difference. */
  lemma FreeBehind(R: iset<nat>, a: nat, b: nat, m: nat)
    requires a <= b && forall x :: a <= x < b ==> x in R
    ensures FreeIn(R, a, m) == FreeIn(R, b, m)
  {
    if b <= m {
      FreeInSplit(R, a, b, m);
      FreeInGap(R, a, a, b);
    } else if a <= m {
      FreeInGap(R, a, a, m);
    }
  }

  lemma RoomSkip(R: iset<nat>, p: nat, q: nat, maxDisk: nat)
    requires p <= q && p % BLOCK == q % BLOCK == 0 && forall x :: p / BLOCK <= x < q / BLOCK ==> x in R
    ensures Room(R, p, maxDisk) == Room(R, q, maxDisk)
  {
    FreeBehind(R, p / BLOCK, q / BLOCK, maxDisk / BLOCK);
  }

  /** What is written comes off the room. */
  lemma RoomStep(R: iset<nat>, p: nat, n: nat, maxDisk: nat)
    requires p + n <= maxDisk && maxDisk % BLOCK == 0
    requires forall x :: p / BLOCK <= x < CeilBlock(p + n) ==> x !in R
    ensures Room(R, p, maxDisk) == n + Room(R, p + n, maxDisk)
  {
    var a, e, m := CeilBlock(p), CeilBlock(p + n), maxDisk / BLOCK;
    FreeInSplit(R, a, e, m);
    FreeInRun(R, a, a, e);
    hide FreeIn;
    assert |FreeIn(R, a, m)| == (e - a) + |FreeIn(R, e, m)|;
  }

  lemma RoomBound(R: iset<nat>, p: nat, maxDisk: nat)
    requires maxDisk % BLOCK == 0 && (p % BLOCK != 0 ==> p < maxDisk)
    ensures Room(R, p, maxDisk) <= if p <= maxDisk then maxDisk - p else 0
  {
    FreeInShort(R, CeilBlock(p), maxDisk / BLOCK);
  }
}
