/** The extent tree as bytes: the writer's encoding, the reader's decoding, and
    the streaming reader over resolved extents. */
module ExtentTree {
  import opened Bytes
  import opened SparseSuper
  import opened FreeBlocks

  const EXTENT_MAGIC: nat := 0xf30a
  const NODE: nat := 12
  const INODE_DATA_SIZE: nat := 60
  const EXTENTS_PER_BLOCK: nat := 340 // 4096 / 12 - 1

  datatype Extent = Extent(start: nat, len: nat)

  function ExtentsOf(leaves: seq<Leaf>): (es: seq<Extent>)
    ensures |es| == |leaves|
    ensures forall i :: 0 <= i < |es| ==> es[i] == Extent(leaves[i].phys, leaves[i].len)
  {
    seq(|leaves|, i requires 0 <= i < |leaves| => Extent(leaves[i].phys, leaves[i].len))
  }

  // ---- encoding ----

  function HeaderBytes(entries: nat, max: nat, depth: nat): (b: seq<byte>)
    requires entries < 0x1_0000 && max < 0x1_0000 && depth < 0x1_0000
    ensures |b| == NODE
  {
    Le16(EXTENT_MAGIC) + Le16(entries) + Le16(max) + Le16(depth) + Le32(0)
  }

  function LeafBytes(l: Leaf): (b: seq<byte>)
    requires l.logical < U32_LIMIT && l.len < 0x1_0000 && l.phys < U32_LIMIT
    ensures |b| == NODE
  {
    Le32(l.logical) + Le16(l.len) + Le16(0) + Le32(l.phys)
  }

  function IndexBytes(logical: nat, leafBlock: nat): (b: seq<byte>)
    requires logical < U32_LIMIT && leafBlock < U32_LIMIT
    ensures |b| == NODE
  {
    Le32(logical) + Le32(leafBlock) + [0, 0, 0, 0]
  }

  ghost predicate Encodable(leaves: seq<Leaf>) {
    forall i :: 0 <= i < |leaves| ==>
      leaves[i].logical < U32_LIMIT && leaves[i].len < 0x1_0000 && leaves[i].phys < U32_LIMIT
  }

  // ---- decoding ----

  function DecodeLeaf(b: seq<byte>, off: nat): Extent
    requires off + NODE <= |b|
  {
    Extent(U32(b, off + 8) + U32_LIMIT * U16(b, off + 6), U16(b, off + 4))
  }

  function DecodeLeaves(b: seq<byte>, n: nat): (es: seq<Extent>)
    requires NODE + NODE * n <= |b|
    ensures |es| == n
    ensures forall j :: 0 <= j < n ==> es[j] == DecodeLeaf(b, NODE + NODE * j)
  {
    seq(n, j requires 0 <= j < n => DecodeLeaf(b, NODE + NODE * j))
  }

  function IndexTarget(bd: seq<byte>, i: nat): nat
    requires NODE + NODE * (i + 1) <= |bd|
  {
    U32(bd, NODE + NODE * i + 4) + U32_LIMIT * U16(bd, NODE + NODE * i + 8)
  }

  function BlockAt(d: seq<byte>, b: nat): (r: seq<byte>)
    ensures |r| == BLOCK
  {
    ReadAt(d, b * BLOCK, BLOCK)
  }

  /** The extents in one leaf block, None where resolve_extents reports corruption. */
  function ResolveLeafBlock(blk: seq<byte>): Option<seq<Extent>>
    requires |blk| == BLOCK
  {
    if U16(blk, 0) != EXTENT_MAGIC || U16(blk, 6) != 0 || U16(blk, 2) > EXTENTS_PER_BLOCK then None
    else Some(DecodeLeaves(blk, U16(blk, 2)))
  }

  function ResolveIndex(d: seq<byte>, bd: seq<byte>, n: nat): Option<seq<Extent>>
    requires NODE + NODE * n <= |bd|
  {
    if n == 0 then Some([]) else
    match ResolveIndex(d, bd, n - 1)
    case None => None
    case Some(es) =>
      match ResolveLeafBlock(BlockAt(d, IndexTarget(bd, n - 1)))
      case None => None
      case Some(more) => Some(es + more)
  }

  /** The extents an inode's 60-byte block area denotes on disk `d`. */
  function Resolve(d: seq<byte>, bd: seq<byte>): Option<seq<Extent>>
    requires |bd| == INODE_DATA_SIZE
  {
    if U16(bd, 0) != EXTENT_MAGIC || U16(bd, 2) > 4 then None
    else if U16(bd, 6) == 0 then Some(DecodeLeaves(bd, U16(bd, 2)))
    else ResolveIndex(d, bd, U16(bd, 2))
  }

  /** resolve_extents, with its loops over leaf and index nodes. */
  method ResolveExtents(d: seq<byte>, bd: seq<byte>) returns (r: Option<seq<Extent>>)
    requires |bd| == INODE_DATA_SIZE
    ensures r == Resolve(d, bd)
  {
    if U16(bd, 0) != EXTENT_MAGIC { return None; }
    var entries := U16(bd, 2);
    if entries > 4 { return None; }
    var extents: seq<Extent> := [];
    if U16(bd, 6) == 0 {
      for i := 0 to entries
        invariant |extents| == i && forall j :: 0 <= j < i ==> extents[j] == DecodeLeaf(bd, NODE + NODE * j)
      {
        extents := extents + [DecodeLeaf(bd, NODE + NODE * i)];
      }
      assert extents == DecodeLeaves(bd, entries);
      return Some(extents);
    }
    for i := 0 to entries
      invariant ResolveIndex(d, bd, i) == Some(extents)
    {
      var blk := BlockAt(d, IndexTarget(bd, i));
      var more := ReadLeafBlock(blk);
      if more.None? {
        ResolveIndexStops(d, bd, i, entries);
        return None;
      }
      extents := extents + more.value;
    }
    return Some(extents);
  }

  method ReadLeafBlock(blk: seq<byte>) returns (r: Option<seq<Extent>>)
    requires |blk| == BLOCK
    ensures r == ResolveLeafBlock(blk)
  {
    if U16(blk, 0) != EXTENT_MAGIC { return None; }
    if U16(blk, 6) != 0 { return None; }
    var n := U16(blk, 2);
    if n > EXTENTS_PER_BLOCK { return None; }
    var extents: seq<Extent> := [];
    for j := 0 to n
      invariant |extents| == j && forall m :: 0 <= m < j ==> extents[m] == DecodeLeaf(blk, NODE + NODE * m)
    {
      extents := extents + [DecodeLeaf(blk, NODE + NODE * j)];
    }
    assert extents == DecodeLeaves(blk, n);
    return Some(extents);
  }

  lemma {:induction false} ResolveIndexStops(d: seq<byte>, bd: seq<byte>, i: nat, n: nat)
    requires i < n && NODE + NODE * n <= |bd| && ResolveIndex(d, bd, i + 1).None?
    ensures ResolveIndex(d, bd, n).None?
  {
    if i + 1 < n { ResolveIndexStops(d, bd, i, n - 1); }
  }

  // ---- encode, then decode ----

  lemma LeafRoundTrip(l: Leaf, b: seq<byte>, off: nat)
    requires l.logical < U32_LIMIT && l.len < 0x1_0000 && l.phys < U32_LIMIT
    requires off + NODE <= |b| && b[off..off + NODE] == LeafBytes(l)
    ensures DecodeLeaf(b, off) == Extent(l.phys, l.len)
  {
    var s := b[off..off + NODE];
    assert forall k :: 0 <= k < NODE ==> b[off + k] == s[k];
    assert s[0..4] == Le32(l.logical) && s[4..6] == Le16(l.len) && s[6..8] == Le16(0) && s[8..12] == Le32(l.phys);
    assert U16(b, off + 4) == U16(s[4..6], 0);
    assert U16(b, off + 6) == U16(s[6..8], 0);
    assert U32(b, off + 8) == U32(s[8..12], 0);
  }

  lemma HeaderRoundTrip(entries: nat, max: nat, depth: nat, b: seq<byte>)
    requires entries < 0x1_0000 && max < 0x1_0000 && depth < 0x1_0000
    requires NODE <= |b| && b[..NODE] == HeaderBytes(entries, max, depth)
    ensures U16(b, 0) == EXTENT_MAGIC && U16(b, 2) == entries && U16(b, 6) == depth
  {
    var s := b[..NODE];
    assert s[0..2] == Le16(EXTENT_MAGIC) && s[2..4] == Le16(entries) && s[6..8] == Le16(depth);
    assert U16(b, 0) == U16(s[0..2], 0);
    assert U16(b, 2) == U16(s[2..4], 0);
    assert U16(b, 6) == U16(s[6..8], 0);
  }

  lemma IndexRoundTrip(logical: nat, target: nat, b: seq<byte>, i: nat)
    requires logical < U32_LIMIT && target < U32_LIMIT && NODE + NODE * (i + 1) <= |b|
    requires b[NODE + NODE * i..NODE + NODE * i + NODE] == IndexBytes(logical, target)
    ensures IndexTarget(b, i) == target
  {
    var off := NODE + NODE * i;
    var s := b[off..off + NODE];
    assert forall k :: 0 <= k < NODE ==> b[off + k] == s[k];
    assert s[4..8] == Le32(target) && s[8] == 0 && s[9] == 0;
    assert U32(b, off + 4) == U32(s[4..8], 0);
  }

  /** The nodes of `leaves` sit at their slots in `b`. */
  ghost predicate HoldsLeaves(b: seq<byte>, leaves: seq<Leaf>)
    requires Encodable(leaves)
  {
    NODE + NODE * |leaves| <= |b| &&
    forall j :: 0 <= j < |leaves| ==> b[NODE + NODE * j..NODE + NODE * j + NODE] == LeafBytes(leaves[j])
  }

  lemma HoldsDecodes(b: seq<byte>, leaves: seq<Leaf>)
    requires Encodable(leaves) && HoldsLeaves(b, leaves)
    ensures DecodeLeaves(b, |leaves|) == ExtentsOf(leaves)
  {
    forall j | 0 <= j < |leaves| ensures DecodeLeaf(b, NODE + NODE * j) == Extent(leaves[j].phys, leaves[j].len) {
      LeafRoundTrip(leaves[j], b, NODE + NODE * j);
    }
  }

  /** Put an extent header with `max` slots and the given leaves into a buffer of `size` bytes. */
  method EncodeNode(leaves: seq<Leaf>, max: nat, size: nat) returns (b: seq<byte>)
    requires Encodable(leaves) && |leaves| <= max < 0x1_0000 && NODE + NODE * max <= size
    ensures |b| == size && b[..NODE] == HeaderBytes(|leaves|, max, 0) && HoldsLeaves(b, leaves)
  {
    b := HeaderBytes(|leaves|, max, 0);
    for j := 0 to |leaves|
      invariant |b| == NODE + NODE * j && b[..NODE] == HeaderBytes(|leaves|, max, 0)
      invariant HoldsLeaves(b, leaves[..j])
    {
      NodeAppended(b, leaves, j);
      b := b + LeafBytes(leaves[j]);
    }
    assert leaves[..|leaves|] == leaves;
    ghost var packed := b;
    b := b + Zeros(size - |b|);
    assert forall j :: 0 <= j < |leaves| ==>
      b[NODE + NODE * j..NODE + NODE * j + NODE] == packed[NODE + NODE * j..NODE + NODE * j + NODE];
  }

  lemma NodeAppended(b: seq<byte>, leaves: seq<Leaf>, j: nat)
    requires j < |leaves| && Encodable(leaves) && |b| == NODE + NODE * j && HoldsLeaves(b, leaves[..j])
    ensures HoldsLeaves(b + LeafBytes(leaves[j]), leaves[..j + 1])
  {
    var r := b + LeafBytes(leaves[j]);
    forall m | 0 <= m < j + 1 ensures r[NODE + NODE * m..NODE + NODE * m + NODE] == LeafBytes(leaves[m]) {
      if m < j { assert r[NODE + NODE * m..NODE + NODE * m + NODE] == b[NODE + NODE * m..NODE + NODE * m + NODE]; }
    }
  }

  /** A node that fits the inode resolves to its leaves on any disk. */
  lemma InlineRootResolves(d: seq<byte>, bd: seq<byte>, leaves: seq<Leaf>)
    requires Encodable(leaves) && |leaves| <= 4 && |bd| == INODE_DATA_SIZE
    requires bd[..NODE] == HeaderBytes(|leaves|, 4, 0) && HoldsLeaves(bd, leaves)
    ensures Resolve(d, bd) == Some(ExtentsOf(leaves))
  {
    HeaderRoundTrip(|leaves|, 4, 0, bd);
    HoldsDecodes(bd, leaves);
  }

  lemma LeafBlockResolves(blk: seq<byte>, leaves: seq<Leaf>)
    requires Encodable(leaves) && |leaves| <= EXTENTS_PER_BLOCK && |blk| == BLOCK
    requires blk[..NODE] == HeaderBytes(|leaves|, EXTENTS_PER_BLOCK, 0) && HoldsLeaves(blk, leaves)
    ensures ResolveLeafBlock(blk) == Some(ExtentsOf(leaves))
  {
    HeaderRoundTrip(|leaves|, EXTENTS_PER_BLOCK, 0, blk);
    HoldsDecodes(blk, leaves);
  }

  // ---- content ----

  /** The blocks the streaming reader visits: a zero-length extent still yields
      the one block it points at. */
  function ReaderBlocks(es: seq<Extent>): seq<nat> {
    if es == [] then []
    else ReaderBlocks(es[..|es| - 1]) + Range(es[|es| - 1].start, Max(1, es[|es| - 1].len))
  }

  /** The bytes of the given blocks, concatenated. */
  ghost function Gather(d: seq<byte>, bs: seq<nat>): (r: seq<byte>)
    ensures |r| == |bs| * BLOCK
    ensures forall i :: 0 <= i < |r| ==> r[i] == At(d, bs[i / BLOCK] * BLOCK + i % BLOCK)
  {
    seq<byte>(|bs| * BLOCK, i requires 0 <= i < |bs| * BLOCK => At(d, bs[i / BLOCK] * BLOCK + i % BLOCK))
  }

  /** What reading an extent-mapped inode of the given size yields. */
  ghost function ReadContent(d: seq<byte>, es: seq<Extent>, size: nat): seq<byte> {
    var all := Gather(d, ReaderBlocks(es));
    if size <= |all| then all[..size] else all
  }

  lemma {:induction false} ReaderBlocksOfLeaves(leaves: seq<Leaf>)
    requires WellFormedLeaves(leaves)
    ensures ReaderBlocks(ExtentsOf(leaves)) == LeafBlocks(leaves)
  {
    if leaves != [] {
      var n := |leaves| - 1;
      var front := leaves[..n];
      assert forall i :: 0 <= i < n ==> front[..i] == leaves[..i];
      ReaderBlocksOfLeaves(front);
      assert ExtentsOf(leaves)[..n] == ExtentsOf(front);
    }
  }

  lemma {:induction false} ReaderBlocksPrefix(es: seq<Extent>, k: nat)
    requires k <= |es|
    ensures |ReaderBlocks(es[..k])| <= |ReaderBlocks(es)|
    ensures ReaderBlocks(es)[..|ReaderBlocks(es[..k])|] == ReaderBlocks(es[..k])
  {
    if k == |es| {
      assert es[..k] == es;
    } else {
      ReaderBlocksPrefix(es[..|es| - 1], k);
      assert es[..|es| - 1][..k] == es[..k];
    }
  }

  /** Where block `j` of extent `k` falls in the reader's sequence. */
  lemma ReaderBlockAt(es: seq<Extent>, k: nat, j: nat)
    requires k < |es| && j < Max(1, es[k].len)
    ensures |ReaderBlocks(es[..k + 1])| == |ReaderBlocks(es[..k])| + Max(1, es[k].len) <= |ReaderBlocks(es)|
    ensures |ReaderBlocks(es[..k])| + j < |ReaderBlocks(es)|
    ensures ReaderBlocks(es)[|ReaderBlocks(es[..k])| + j] == es[k].start + j
  {
    ReaderBlocksPrefix(es, k + 1);
    assert es[..k + 1][..k] == es[..k];
    var p := ReaderBlocks(es[..k + 1]);
    assert p == ReaderBlocks(es[..k]) + Range(es[k].start, Max(1, es[k].len));
    assert ReaderBlocks(es)[..|p|] == p;
    assert p[|ReaderBlocks(es[..k])| + j] == es[k].start + j;
  }

  ghost predicate IsPrefixOf(p: seq<byte>, s: seq<byte>) { |p| <= |s| && p == s[..|p|] }

  /** Streaming reader over extent-mapped data. */
  class ExtentReader {
    const disk: seq<byte>
    const extents: seq<Extent>
    const size: nat
    var remaining: nat
    var extentIdx: nat
    var blockInExtent: nat
    var offsetInBlock: nat
    var blockBuf: seq<byte>
    var blockLoaded: bool
    ghost var delivered: seq<byte>

    ghost function BlocksDone(): nat
      reads this
      requires extentIdx <= |extents|
    {
      |ReaderBlocks(extents[..extentIdx])| + blockInExtent
    }

    /** The cursor and everything delivered so far agree; the loaded block may
        be used up. */
    ghost predicate Tracks()
      reads this
    {
      && extentIdx <= |extents|
      && (if extentIdx < |extents| then blockInExtent < Max(1, extents[extentIdx].len) else blockInExtent == 0)
      && |delivered| + remaining == size
      && |delivered| == BlocksDone() * BLOCK + (if blockLoaded then offsetInBlock else 0)
      && (blockLoaded ==> extentIdx < |extents| && offsetInBlock <= BLOCK &&
                          blockBuf == BlockAt(disk, extents[extentIdx].start + blockInExtent))
      && IsPrefixOf(delivered, Gather(disk, ReaderBlocks(extents)))
    }

    ghost predicate Valid()
      reads this
    {
      Tracks() && (blockLoaded ==> offsetInBlock < BLOCK)
    }

    constructor (disk: seq<byte>, extents: seq<Extent>, size: nat)
      ensures Valid() && delivered == []
      ensures this.disk == disk && this.extents == extents && this.size == size
    {
      this.disk, this.extents, this.size := disk, extents, size;
      remaining, extentIdx, blockInExtent, offsetInBlock := size, 0, 0, 0;
      blockBuf, blockLoaded, delivered := Zeros(BLOCK), false, [];
    }

    method Load()
      requires Valid() && extentIdx < |extents|
      modifies `blockBuf, `blockLoaded, `offsetInBlock
      ensures Valid() && blockLoaded
    {
      if !blockLoaded {
        blockBuf := BlockAt(disk, extents[extentIdx].start + blockInExtent);
        blockLoaded := true;
        offsetInBlock := 0;
      }
    }

    /** Move to the next block if this one is consumed. */
    method Advance()
      requires Tracks() && blockLoaded
      modifies `blockLoaded, `blockInExtent, `extentIdx
      ensures Valid()
    {
      if offsetInBlock >= BLOCK {
        ReaderBlockAt(extents, extentIdx, blockInExtent);
        blockInExtent := blockInExtent + 1;
        if blockInExtent >= extents[extentIdx].len {
          extentIdx := extentIdx + 1;
          blockInExtent := 0;
        }
        blockLoaded := false;
      }
    }

    /** Copy from the loaded block as much as the buffer and the file size allow. */
    method Copy(len: nat) returns (out: seq<byte>)
      requires Valid() && blockLoaded
      modifies `delivered, `offsetInBlock, `remaining
      ensures Tracks() && delivered == old(delivered) + out
      ensures |out| == Min(len, Min(BLOCK - old(offsetInBlock), old(remaining)))
    {
      var available := Min(BLOCK - offsetInBlock, remaining);
      var n := Min(len, available);
      out := blockBuf[offsetInBlock..offsetInBlock + n];
      ReaderBlockAt(extents, extentIdx, blockInExtent);
      DeliveredGrows(disk, ReaderBlocks(extents), BlocksDone(), offsetInBlock, n, out, delivered);
      delivered := delivered + out;
      offsetInBlock := offsetInBlock + n;
      remaining := remaining - n;
    }

    lemma AllDelivered()
      requires Valid() && (remaining == 0 || extentIdx == |extents|)
      ensures delivered == ReadContent(disk, extents, size)
    {
      if extentIdx == |extents| { assert extents[..extentIdx] == extents; }
    }

    /** One read call with a buffer of `len` bytes. It delivers the next bytes of
        the content, and nothing only if the buffer is empty or all was delivered. */
    method Read(len: nat) returns (out: seq<byte>)
      requires Valid()
      modifies this
      ensures Valid() && delivered == old(delivered) + out && |out| <= len
      ensures out == [] ==> len == 0 || delivered == ReadContent(disk, extents, size)
    {
      if remaining == 0 || extentIdx >= |extents| {
        AllDelivered();
        return [];
      }
      Load();
      out := Copy(len);
      Advance();
    }

    /** Draining with buffers of any non-zero sizes returns the whole content. */
    method Drain(sizes: nat -> nat) returns (all: seq<byte>)
      requires Valid() && delivered == [] && forall i :: sizes(i) > 0
      modifies this
      ensures all == ReadContent(disk, extents, size)
    {
      all := [];
      var i: nat := 0;
      while true
        invariant Valid() && delivered == all
        decreases remaining
      {
        var out := Read(sizes(i));
        if out == [] { return; }
        all := all + out;
        i := i + 1;
      }
    }
  }

  lemma DeliveredGrows(d: seq<byte>, bs: seq<nat>, k: nat, o: nat, n: nat, out: seq<byte>, done: seq<byte>)
    requires k < |bs| && o + n <= BLOCK && |done| == k * BLOCK + o
    requires out == BlockAt(d, bs[k])[o..o + n]
    requires IsPrefixOf(done, Gather(d, bs))
    ensures IsPrefixOf(done + out, Gather(d, bs))
  {
    var g := Gather(d, bs);
    assert k * BLOCK + BLOCK <= |bs| * BLOCK;
    forall i | |done| <= i < |done| + n ensures g[i] == out[i - |done|] {
      assert i / BLOCK == k && i % BLOCK == i - k * BLOCK;
    }
  }
}
