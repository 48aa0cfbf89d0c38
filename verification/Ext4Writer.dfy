/** The ext4 image writer as an allocator: a forward-only cursor that steps
    around backup regions, records padding as holes, and lays every file out
    behind an extent tree that reads back exactly. */
module Ext4Writer {
  import opened Arith
  import opened Bytes
  import opened SparseSuper
  import opened FreeBlocks
  import opened ExtentTree
  import opened Placement
  import opened Ledger

  const MAX_FILE_SIZE: nat := 0x20_0000_0000 // 128 GiB

  datatype Outcome = Done(bd: seq<byte>, blocks: nat) | WrongAmount | DiskFull | TooLarge

  /** Writing stops with an error on a full disk; Panic is a failed arithmetic check. */
  datatype Written = Written | Full | Panic

  /** Where a contiguous run goes. Overflow is a failed check of the 32-bit sum; Rewound
      is the cursor leaving 16 TiB for a block near the front, where the model stops. */
  datatype Fit = Fits(start: nat) | Overflow | Rewound

  const DEFAULT_MAX_DISK_SIZE: nat := 0x4_0000_0000 // 16 GiB

  /** The MaximumDiskSize option: negative and oversized values mean 16 TiB. */
  function DiskLimit(option: int): (r: nat)
    ensures 0 < r <= MAX_MAX_DISK_SIZE && r % BLOCK == 0
    ensures (0 < option <= MAX_MAX_DISK_SIZE ==> option <= r < option + BLOCK)
  {
    if option < 0 || option > MAX_MAX_DISK_SIZE then MAX_MAX_DISK_SIZE
    else if option == 0 then DEFAULT_MAX_DISK_SIZE
    else (option + BLOCK - 1) / BLOCK * BLOCK
  }

  /** init(): the descriptor table is sized for the largest disk allowed. */
  function GdBlocks(maxDisk: nat): nat
    requires maxDisk > 0
  {
    var maxBlocks := (maxDisk - 1) / BLOCK + 1;
    var maxGroups := (maxBlocks - 1) / BLOCKS_PER_GROUP + 1;
    (maxGroups - 1) / GROUPS_PER_DESCRIPTOR_BLOCK + 1
  }

  class Writer {
    const maxDisk: nat
    const gd: nat
    const align: nat
    const alignMin: nat
    var disk: seq<byte>
    var pos: nat
    var freeHoles: seq<Run>
    var open: bool
    var dataWritten: nat
    var dataMax: nat
    var dataStartBlock: nat
    ghost const R: iset<nat>
    ghost var done: nat          // the ledger covers blocks [1 + gd, done)
    ghost var book: Book
    ghost var content: seq<byte> // bytes of the file in progress

    ghost predicate Geometry()
      reads this
    {
      && ValidGeometry(gd, maxDisk) && maxDisk > 0 && maxDisk % BLOCK == 0 && gd == GdBlocks(maxDisk)
      && Layout(R, gd)
      && pos <= MAX_MAX_DISK_SIZE
      && (align == 0 || align % BLOCK == 0 || BLOCK % align == 0)
    }

    /** Every passed block is accounted for and every finished file reads back. */
    ghost predicate Sound()
      reads this
    {
      && Geometry()
      && Partition(R, 1 + gd, done, freeHoles, book)
      && AllOwn(R, book)
      && FilesOk(R, disk, book, done)
    }

    /** The bytes of the open file written so far are in place. */
    ghost predicate InProgress()
      reads this
    {
      && |content| == dataWritten <= dataMax
      && (content == [] ==> pos == done * BLOCK)
      && (content != [] ==>
            && done <= dataStartBlock && (forall b :: done <= b < dataStartBlock ==> b in R)
            && Placed(R, disk, pos, dataStartBlock, content) && pos <= maxDisk)
    }

    ghost predicate Valid()
      reads this
    {
      Sound() && if open then InProgress() else pos == done * BLOCK
    }

    constructor (option: int, align: nat, alignMin: nat)
      requires align == 0 || align % BLOCK == 0 || BLOCK % align == 0
      ensures Valid() && !open && book == Book(map[], {}, []) && freeHoles == []
      ensures maxDisk == DiskLimit(option) && gd == GdBlocks(maxDisk) && pos == (1 + gd) * BLOCK
    {
      this.maxDisk, this.align, this.alignMin := DiskLimit(option), align, alignMin;
      var g := GdBlocks(DiskLimit(option));
      gd := g;
      R := iset b: nat | Reserved(g, b);
      disk, freeHoles, open := [], [], false;
      dataWritten, dataMax, dataStartBlock := 0, 0, 0;
      pos := (1 + g) * BLOCK;
      done, book, content := 1 + g, Book(map[], {}, []), [];
    }

    // ---- the cursor ----

    /** block(): cut to 32 bits. */
    function Block(): nat
      reads `pos
    {
      pos / BLOCK % U32_LIMIT
    }

    method SkipReservedAtPos()
      requires Geometry()
      modifies `pos
      ensures Geometry() && old(pos) <= pos && pos % BLOCK == old(pos) % BLOCK
      ensures pos == MAX_MAX_DISK_SIZE ==> old(pos) == pos
      ensures pos % BLOCK != 0 ==> pos == old(pos)
      ensures pos % BLOCK == 0 ==> pos / BLOCK !in R
      ensures forall b :: old(pos) / BLOCK <= b < pos / BLOCK ==> b in R
    {
      while pos % BLOCK == 0
        invariant Geometry() && old(pos) <= pos && pos % BLOCK == old(pos) % BLOCK
        invariant pos % BLOCK != 0 || pos == MAX_MAX_DISK_SIZE ==> pos == old(pos)
        invariant forall b :: old(pos) / BLOCK <= b < pos / BLOCK ==> b in R
        decreases U32_LIMIT - pos / BLOCK
      {
        CursorBlock(pos);
        TopNotReserved(R, gd);
        var hit := IsReservedBlock(gd, R, Block());
        if !hit { break; }
        var e := RegionAfter(gd, R, Block());
        pos := e * BLOCK;
      }
    }

    /** write_bytes, with the disk-size check. */
    method WriteBytes(b: seq<byte>) returns (ok: bool)
      requires Geometry()
      modifies `disk, `pos
      ensures Geometry() && ok == (old(pos) + |b| <= maxDisk)
      ensures ok ==> disk == WriteAt(old(disk), old(pos), b) && pos == old(pos) + |b|
      ensures !ok ==> disk == old(disk) && pos == old(pos)
    {
      if pos + |b| > maxDisk { return false; }
      disk := WriteAt(disk, pos, b);
      pos := pos + |b|;
      return true;
    }

    // ---- file data ----

    /** start_inode: directories and long symlinks start here, without padding. */
    method StartInode(size: nat) returns (ok: bool)
      requires Valid()
      modifies this
      ensures Valid() && ok == !old(open) && book == old(book) && disk == old(disk) && freeHoles == old(freeHoles)
      ensures ok ==> open && content == [] && dataMax == size && done == old(done) && pos == old(pos)
    {
      hide Partition, AllOwn, FilesOk, Placed;
      if open { return false; }
      open, dataWritten, dataMax, dataStartBlock, content := true, 0, size, 0, [];
      ok := true;
    }

    /** create() of a regular file: start_inode, then pad to the dedup grid. Where the
        padding ends at 16 TiB its blocks are not recorded. */
    method StartFile(size: nat) returns (ok: bool)
      requires Valid() && !open
      modifies this
      ensures ok && pos < MAX_MAX_DISK_SIZE ==> Valid()
      ensures ok ==> Sound() && open && content == [] && dataMax == size && book == old(book)
      ensures ok && align > 0 && size >= alignMin ==> pos % align == 0
      ensures align == 0 || size < alignMin ==> ok && Valid() && pos == old(pos) && freeHoles == old(freeHoles)
      ensures ok <==>
        align == 0 || size < alignMin || old(pos) % align == 0 || old(pos) + (align - old(pos) % align) <= maxDisk
    {
      hide Partition, AllOwn, FilesOk, Placed, GdBlocks, Layout;
      ok := StartInode(size);
      if align > 0 && size >= alignMin {
        var rem := pos % align;
        if rem != 0 {
          PadWhole(pos, align);
          ok := Pad(align - rem);
        }
      }
    }

    /** Zero-fill `n` bytes of padding and record the gap as free space. */
    method Pad(n: nat) returns (ok: bool)
      requires Valid() && open && content == [] && n % BLOCK == 0 && n > 0
      modifies `disk, `pos, `freeHoles, `done
      ensures Sound() && ok == (old(pos) + n <= maxDisk)
      ensures pos == if ok then old(pos) + n else old(pos)
      ensures ok && pos < MAX_MAX_DISK_SIZE ==> Valid()
    {
      hide Partition, AllOwn, FilesOk, WriteAt, Layout, GdBlocks;
      var padStart := Block();
      CursorBlock(pos);
      ok := WriteBytes(Zeros(n));
      if !ok { return; }
      var padEnd := Block();
      CursorBlock(pos);
      FilesAppend(R, old(disk), done, Zeros(n), disk, book, done);
      if padEnd < padStart { return; } // record_free_hole finds nothing from there to block 0
      RecordFreeHole(padStart, padEnd);
      FilesLater(R, disk, book, done, padEnd);
      done := padEnd;
    }

    /** record_free_hole: exactly the unreserved blocks of [start, end) become holes. */
    method RecordFreeHole(start: nat, end: nat)
      requires Geometry() && start == done <= end < U32_LIMIT && end <= (MaxGroup(maxDisk) + 1) * BLOCKS_PER_GROUP
      requires Partition(R, 1 + gd, done, freeHoles, book)
      modifies `freeHoles
      ensures exists runs :: freeHoles == old(freeHoles) + runs && RunBlocks(runs) == FreeIn(R, start, end)
      ensures Partition(R, 1 + gd, end, freeHoles, book)
    {
      var b := start;
      ghost var runs: seq<Run> := [];
      assert freeHoles == old(freeHoles) + runs;
      while b < end
        invariant start <= b <= end && freeHoles == old(freeHoles) + runs
        invariant RunBlocks(runs) == FreeIn(R, start, b)
      {
        var hit := IsReservedBlock(gd, R, b);
        if hit {
          FreeInGap(R, start, b, b + 1);
          b := b + 1;
          continue;
        }
        var runStart := b;
        var next := NextReservedBlockGe(gd, maxDisk, R, b);
        b := if next.Some? then Min(next.value, end) else end;
        if b > runStart {
          FreeInRun(R, start, runStart, b);
          RunBlocksSnoc(runs, Run(runStart, b - runStart));
          runs := runs + [Run(runStart, b - runStart)];
          freeHoles := freeHoles + [Run(runStart, b - runStart)];
        }
      }
      PartitionHole(R, 1 + gd, done, old(freeHoles), book, end, runs);
    }

    lemma CursorPastLedger()
      requires Valid()
      ensures 0 < done && done * BLOCK <= pos
      ensures (open && content != [] ==> done <= dataStartBlock && dataStartBlock * BLOCK <= pos)
    {
    }

    /** write_file_data: any chunk goes to the next free blocks after what is
        already there, and no reserved block is touched. It succeeds exactly if the chunk
        fits, and panics exactly with the cursor at 16 TiB, where the count to the next
        reserved block is negative. */
    method WriteFileData(b: seq<byte>) returns (r: Written)
      requires Valid() && open && b != [] && dataWritten + |b| <= dataMax
      modifies `disk, `pos, `dataStartBlock, `dataWritten, `content
      ensures r.Written? <==> |b| <= Room(R, old(pos), maxDisk)
      ensures r.Panic? <==> old(pos) == MAX_MAX_DISK_SIZE
      ensures r.Written? ==> Valid() && content == old(content) + b && pos <= maxDisk
      ensures r.Written? ==> Room(R, old(pos), maxDisk) == |b| + Room(R, pos, maxDisk)
      ensures OnlyFreeFrom(R, old(disk), disk, old(pos))
    {
      hide Partition, AllOwn, FilesOk, Placed, OnlyFreeFrom, GdBlocks, Layout, Room;
      CursorPastLedger();
      if dataWritten == 0 {
        SkipReservedAtPos();
        RoomSkip(R, old(pos), pos, maxDisk);
        dataStartBlock := Block();
        CursorBlock(pos);
        if pos < MAX_MAX_DISK_SIZE { NothingPlaced(R, disk, dataStartBlock); }
      }
      var off := 0;
      ghost var first := pos;
      NothingWritten(R, disk, old(pos));
      while off < |b|
        invariant Geometry() && 0 <= off <= |b| && old(pos) <= first <= pos
        invariant content == old(content) + b[..off]
        invariant pos < MAX_MAX_DISK_SIZE || off > 0 ==> Placed(R, disk, pos, dataStartBlock, content)
        invariant off > 0 ==> first < pos <= maxDisk
        invariant OnlyFreeFrom(R, old(disk), disk, old(pos))
        invariant Room(R, old(pos), maxDisk) == off + Room(R, pos, maxDisk)
        invariant if off == 0 then pos == first && (pos == MAX_MAX_DISK_SIZE <==> old(pos) == MAX_MAX_DISK_SIZE)
                  else off < |b| ==> pos < MAX_MAX_DISK_SIZE
        modifies `disk, `pos, `content
      {
        ghost var d0, p0 := disk, pos;
        var n;
        r, n := WritePiece(b[off..]);
        ThenWritten(R, old(disk), d0, disk, old(pos), p0);
        if !r.Written? { return; }
        TakeMore(old(content), b, off, n);
        off := off + n;
      }
      assert b[..off] == b;
      dataWritten := dataWritten + |b|;
      FilesUntouched(R, old(disk), disk, book, done, old(pos));
      r := Written;
    }

    /** One round of the copy loop: skip a reserved region, then write up to the next. */
    method WritePiece(rest: seq<byte>) returns (r: Written, n: nat)
      requires Geometry() && rest != [] && (pos < MAX_MAX_DISK_SIZE ==> Placed(R, disk, pos, dataStartBlock, content))
      requires pos % BLOCK != 0 ==> pos < maxDisk
      modifies `disk, `pos, `content
      ensures Geometry() && old(pos) <= pos && n <= |rest|
      ensures r.Written? ==> n > 0 && old(pos) < pos <= maxDisk && content == old(content) + rest[..n]
      ensures r.Written? ==> Placed(R, disk, pos, dataStartBlock, content)
      ensures r.Written? ==> Room(R, old(pos), maxDisk) == n + Room(R, pos, maxDisk)
      ensures r.Written? && n < |rest| ==> pos < MAX_MAX_DISK_SIZE
      ensures !r.Written? ==> |rest| > Room(R, old(pos), maxDisk)
      ensures r.Panic? <==> old(pos) == MAX_MAX_DISK_SIZE
      ensures OnlyFreeFrom(R, old(disk), disk, old(pos))
    {
      hide Placed, OnlyFreeFrom, WriteAt, GdBlocks, Layout, Room;
      n := 0;
      if pos % BLOCK != 0 { MidBlockFree(R, disk, pos, dataStartBlock, content); }
      NothingWritten(R, disk, pos);
      SkipReservedAtPos();
      if pos != old(pos) {
        PlacedAcrossGap(R, disk, old(pos), dataStartBlock, content, pos / BLOCK);
        RoomSkip(R, old(pos), pos, maxDisk);
      }
      RoomBound(R, pos, maxDisk);
      var take := Reach(|rest|);
      if take < 0 { return Panic, 0; }
      n := take;
      ghost var p0, c0 := pos, content;
      var ok := WriteBytes(rest[..n]);
      if !ok { return Full, n; }
      r := Written;
      content := content + rest[..n];
      PlaceMore(R, old(disk), p0, dataStartBlock, c0, rest[..n], disk, pos, content);
      RoomStep(R, p0, n, maxDisk);
      FreeWrite(R, old(disk), p0, rest[..n], disk, pos);
      ThenWritten(R, old(disk), old(disk), disk, old(pos), p0);
    }

    // ---- extents ----

    /** next_block: zero-fill the rest of the last data block. */
    method FlushLastBlock()
      requires Valid() && open && content != []
      modifies `disk, `pos
      ensures Sound() && pos == CeilBlock(old(pos)) * BLOCK <= maxDisk && dataStartBlock <= pos / BLOCK
      ensures Laid(R, disk, dataStartBlock, pos / BLOCK, content)
    {
      hide Partition, AllOwn, FilesOk, OnlyFreeFrom, Laid, Placed;
      CursorPastLedger();
      var rem := pos % BLOCK;
      var z := Zeros(if rem == 0 then 0 else BLOCK - rem);
      var ok := WriteBytes(z);
      NextBoundary(old(pos), maxDisk);
      PadFinishes(R, old(disk), old(pos), dataStartBlock, content, z);
      FilesFrame(R, old(disk), disk, book, done);
    }

    /** The extent leaves of the open file, whose data ends at block `end`. */
    method MapFile(end: nat) returns (leaves: seq<Leaf>, used: nat)
      requires Geometry() && dataStartBlock <= end && end * BLOCK <= maxDisk && end < U32_LIMIT
      ensures LeafBlocks(leaves) == FreeIn(R, dataStartBlock, end) && WellFormedLeaves(leaves) && Encodable(leaves)
      ensures used == |FreeIn(R, dataStartBlock, end)|
      ensures MAX_BLOCKS_PER_EXTENT * (|leaves| - 25) <= used && |leaves| == LeafCount(R, dataStartBlock, end)
    {
      var runs := PhysicalRuns(gd, maxDisk, R, dataStartBlock, end);
      leaves, used := FlattenRuns(runs);
      EntriesAtMost24(R, gd, dataStartBlock, end);
      LeavesEncodable(R, leaves, dataStartBlock, end);
    }

    /** write_extents: map the file's runs with an extent tree that resolves back
        to its content, and account for every block it took. Only a file over
        128 GiB can need more than a two-level tree. A file whose data ends at 16 TiB,
        and no other, is closed without any extents. */
    method WriteExtents() returns (r: Outcome)
      requires Valid() && open && content != []
      modifies `disk, `pos, `open, `done, `book
      ensures r.Done? && CeilBlock(old(pos)) < U32_LIMIT ==>
        && Valid() && !open && book == ClaimFile(R, old(book), r.bd, content, old(done), done)
        && r.blocks == |FreeIn(R, old(done), done)|
      ensures r.Done? && CeilBlock(old(pos)) < U32_LIMIT ==>
        CeilBlock(|content|) <= r.blocks <= CeilBlock(|content|) + 4
      ensures r.Done? && CeilBlock(old(pos)) < U32_LIMIT ==> pos <= maxDisk && old(done) <= done
      ensures CeilBlock(old(pos)) == U32_LIMIT ==> r == Done([], 0) && Sound() && !open && book == old(book)
      ensures !r.WrongAmount?
      ensures (CeilBlock(old(pos)) < U32_LIMIT ==> Mapped(r, R, dataStartBlock, CeilBlock(old(pos)), maxDisk))
      ensures r.TooLarge? ==> |content| > MAX_FILE_SIZE
    {
      hide Partition, AllOwn, FilesOk, OnlyFreeFrom, ClaimFile, FileOk, Laid, Placed, WellFormedLeaves, Encodable,
           Layout, GdBlocks, FreeIn, LeafCount, LeafBlocks, HeaderBytes, HoldsLeaves, TreeBuilt;
      CursorPastLedger();
      FlushLastBlock();
      ghost var start := dataStartBlock;
      var end := Block();
      CursorBlock(pos);
      if end < dataStartBlock { // physical_runs finds nothing from there to block 0
        open := false;
        return Done([], 0);
      }
      var leaves, used := MapFile(end);
      LaidSize(R, disk, start, end, content);
      var bd: seq<byte>;
      if |leaves| <= 4 {
        bd := EncodeNode(leaves, 4, INODE_DATA_SIZE);
        InlineFileOk(R, disk, bd, leaves, content, done, start, end);
        BlocksOfFile(R, done, start, end, end);
      } else if |leaves| <= 4 * EXTENTS_PER_BLOCK {
        var ok, n;
        ok, bd, n := WriteLeafBlocks(leaves, end);
        if !ok { return DiskFull; }
        used := used + n;
        TreeFileOk(R, disk, bd, leaves, content, done, start, end, pos / BLOCK, n);
        BlocksOfFile(R, done, start, end, pos / BLOCK);
      } else {
        return TooLarge;
      }
      r := Done(bd, used);
      CloseFile(bd);
    }

    /** Two-level tree: write the leaf blocks to the next free blocks and index them. */
    method WriteLeafBlocks(leaves: seq<Leaf>, ghost end: nat) returns (ok: bool, bd: seq<byte>, n: nat)
      requires Sound() && pos == end * BLOCK <= maxDisk && done <= end
      requires 4 < |leaves| <= 4 * EXTENTS_PER_BLOCK && Encodable(leaves) && Laid(R, disk, dataStartBlock, end, content)
      modifies `disk, `pos
      ensures Sound() && pos % BLOCK == 0 && end * BLOCK <= pos
      ensures ok ==> n == CeilDiv(|leaves|, EXTENTS_PER_BLOCK) == |FreeIn(R, end, pos / BLOCK)| <= 4 && pos <= maxDisk
      ensures ok ==> TreeBuilt(R, disk, bd, leaves, n, n, end, pos / BLOCK)
      ensures ok <==> CeilDiv(|leaves|, EXTENTS_PER_BLOCK) <= |FreeIn(R, end, maxDisk / BLOCK)|
      ensures Laid(R, disk, dataStartBlock, end, content)
    {
      hide Partition, AllOwn, FilesOk, OnlyFreeFrom, Laid, TreeBuilt, Encodable, Layout;
      n := CeilDiv(|leaves|, EXTENTS_PER_BLOCK);
      bd := HeaderBytes(n, 4, 1) + Zeros(4 * NODE);
      EmptyTree(R, disk, bd, leaves, n, end);
      for i := 0 to n
        invariant Sound() && pos % BLOCK == 0 && end * BLOCK <= pos <= maxDisk
        invariant |bd| == INODE_DATA_SIZE && |FreeIn(R, end, pos / BLOCK)| == i
        invariant TreeBuilt(R, disk, bd, leaves, n, i, end, pos / BLOCK)
        invariant Laid(R, disk, dataStartBlock, end, content)
      {
        ok, bd := WriteLeafBlock(leaves, end, bd, n, i);
        if !ok { return; }
      }
      ok := true;
      FreeGrows(R, end, pos / BLOCK, maxDisk / BLOCK);
    }

    method WriteLeafBlock(leaves: seq<Leaf>, ghost end: nat, bd0: seq<byte>, n: nat, i: nat) returns (ok: bool,
                          bd: seq<byte>)
      requires Sound() && pos % BLOCK == 0 && done <= end && end * BLOCK <= pos <= maxDisk && i < n <= 4
      requires n == CeilDiv(|leaves|, EXTENTS_PER_BLOCK) && Encodable(leaves)
      requires |bd0| == INODE_DATA_SIZE && |FreeIn(R, end, pos / BLOCK)| == i
      requires TreeBuilt(R, disk, bd0, leaves, n, i, end, pos / BLOCK)
      requires Laid(R, disk, dataStartBlock, end, content)
      modifies `disk, `pos
      ensures Sound() && pos % BLOCK == 0 && end * BLOCK <= pos && Laid(R, disk, dataStartBlock, end, content)
      ensures |bd| == INODE_DATA_SIZE && (if ok then pos <= maxDisk else |FreeIn(R, end, maxDisk / BLOCK)| == i)
      ensures ok ==> |FreeIn(R, end, pos / BLOCK)| == i + 1
      ensures ok ==> TreeBuilt(R, disk, bd, leaves, n, i + 1, end, pos / BLOCK)
    {
      hide Partition, AllOwn, FilesOk, OnlyFreeFrom, Laid, TreeBuilt, Layout, Encodable, WriteAt, LeafBytes,
           HeaderBytes, FreeIn, HoldsLeaves, SetSlot, IndexBytes;
      SkipReservedAtPos();
      var leafBlock := Block();
      CursorBlock(pos);
      var first := i * EXTENTS_PER_BLOCK;
      var count := Min(|leaves| - first, EXTENTS_PER_BLOCK);
      EncodableSlice(leaves, first, count);
      var part := leaves[first..first + count];
      var buf := EncodeNode(part, EXTENTS_PER_BLOCK, BLOCK);
      bd := bd0;
      ok := WriteBytes(buf);
      if !ok { NoneFree(R, end, old(pos) / BLOCK, pos / BLOCK, maxDisk / BLOCK); return; }
      assert old(pos) <= leafBlock * BLOCK;
      bd := SetSlot(bd0, i, IndexBytes(leaves[first].logical, leafBlock));
      assert pos == (leafBlock + 1) * BLOCK;
      OneMoreFree(R, end, old(pos) / BLOCK, leafBlock);
      TreeGrows(R, old(disk), bd0, leaves, n, i, end, old(pos) / BLOCK, leafBlock, part, buf, disk,
                leaves[first].logical, bd);
      FilesAppend(R, old(disk), leafBlock, buf, disk, book, done);
      LaidAppend(R, old(disk), leafBlock, buf, disk, dataStartBlock, end, content);
    }

    /** The finished file joins the ledger. */
    method CloseFile(ghost bd: seq<byte>)
      requires Sound() && pos % BLOCK == 0 && done * BLOCK <= pos
      requires FileOk(R, disk, FileRec(bd, content, done, pos / BLOCK))
      modifies `open, `done, `book
      ensures Valid() && !open && done == pos / BLOCK
      ensures book == ClaimFile(R, old(book), bd, content, old(done), done)
    {
      hide Partition, AllOwn, FileOk;
      ghost var e := pos / BLOCK;
      ghost var k := ClaimFile(R, book, bd, content, done, e);
      PartitionClaim(R, 1 + gd, done, freeHoles, book, e, k, File(|book.files|));
      OwnClaimFile(R, 1 + gd, done, freeHoles, book, bd, content, e);
      open, done, book := false, e, k;
    }

    /** finish_inode: a file is closed only with exactly the promised size, and
        then its record says how to read it back, unless its data ends at 16 TiB. */
    method FinishFile() returns (r: Outcome)
      requires Valid() && open
      modifies `disk, `pos, `open, `done, `book
      ensures r.WrongAmount? <==> |content| != dataMax
      ensures r.Done? && content != [] && CeilBlock(old(pos)) < U32_LIMIT ==>
        && Valid() && !open && book == ClaimFile(R, old(book), r.bd, content, old(done), done)
        && r.blocks == |FreeIn(R, old(done), done)|
      ensures r.Done? && content != [] && CeilBlock(old(pos)) < U32_LIMIT ==>
        CeilBlock(|content|) <= r.blocks <= CeilBlock(|content|) + 4
      ensures r.Done? && content != [] && CeilBlock(old(pos)) < U32_LIMIT ==> pos <= maxDisk && old(done) <= done
      ensures r.Done? && content != [] && CeilBlock(old(pos)) == U32_LIMIT ==> r == Done([], 0) && book == old(book)
      ensures r.Done? && content == [] ==> Valid() && !open && book == old(book) && done == old(done)
      ensures r.TooLarge? ==> dataMax > MAX_FILE_SIZE
      ensures |content| == dataMax > 0 && CeilBlock(old(pos)) < U32_LIMIT ==>
        Mapped(r, R, dataStartBlock, CeilBlock(old(pos)), maxDisk)
    {
      hide Partition, AllOwn, FilesOk, Placed, ClaimFile, GdBlocks;
      if dataWritten != dataMax { return WrongAmount; }
      if dataMax != 0 {
        r := WriteExtents();
      } else {
        open := false;
        r := Done([], 0);
      }
    }

    /** Reading a finished file back through the extent tree in its inode, with
        buffers of any sizes, yields exactly the bytes that were written. */
    method ReadBackFile(ghost i: nat, bd: seq<byte>, size: nat, sizes: nat -> nat) returns (out: seq<byte>)
      requires Valid() && i < |book.files| && bd == book.files[i].bd && size == |book.files[i].content|
      requires forall n :: sizes(n) > 0
      ensures out == book.files[i].content
    {
      hide Partition, AllOwn, Placed;
      assert FileOk(R, disk, book.files[i]);
      var es := ResolveExtents(disk, bd);
      var reader := new ExtentReader(disk, es.value, size);
      out := reader.Drain(sizes);
    }

    // ---- blocks outside files ----

    /** The xattr block of make_inode goes to the cursor as it is: it is claimed,
        and clobbers a backup block exactly when the cursor stands on one. */
    method WriteXattrBlock(buf: seq<byte>) returns (ok: bool)
      requires Valid() && !open && |buf| == BLOCK
      modifies `disk, `pos, `done, `book
      ensures ok == (old(pos) + BLOCK <= maxDisk)
      ensures ok ==> Valid() && book == ClaimHere(R, old(book), old(pos) / BLOCK) && pos == old(pos) + BLOCK
    {
      hide Partition, AllOwn, FilesOk, Placed, WriteAt, ClaimHere;
      ok := WriteBytes(buf);
      if !ok { return; }
      FilesAppend(R, old(disk), done, buf, disk, book, done);
      PartitionHere(R, 1 + gd, done, freeHoles, book);
      FilesHere(R, disk, book, done);
      book := ClaimHere(R, book, done);
      done := done + 1;
    }

    /** Rewriting an existing xattr block disturbs no file. */
    method RewriteXattrBlock(b: nat, buf: seq<byte>)
      requires Valid() && !open && |buf| == BLOCK && b in book.claims && book.claims[b] == Xattr
      modifies `disk
      ensures Valid() && disk == WriteAt(old(disk), b * BLOCK, buf)
    {
      hide Partition, FilesOk, Placed, WriteAt;
      disk := WriteAt(disk, b * BLOCK, buf);
      FilesElsewhere(R, old(disk), b, buf, disk, book, done);
    }

    /** Bring the ledger up to a cursor that only passed reserved blocks. */
    method PassReserved()
      requires Sound() && !open && pos % BLOCK == 0 && done * BLOCK <= pos
      requires forall b :: done <= b < pos / BLOCK ==> b in R
      modifies `done
      ensures Valid() && done == pos / BLOCK
    {
      hide AllOwn, FilesOk, Layout;
      PartitionGap(R, 1 + gd, done, freeHoles, book, pos / BLOCK);
      FilesLater(R, disk, book, done, pos / BLOCK);
      done := pos / BLOCK;
    }

    /** Record the blocks up to the reserved block `r` as free and seek past its region. */
    method HoleThenSeek(r: nat)
      requires Valid() && !open && done < r < U32_LIMIT && r in R && r < (MaxGroup(maxDisk) + 1) * BLOCKS_PER_GROUP
      modifies `pos, `freeHoles, `done
      ensures Valid() && done > r && pos < MAX_MAX_DISK_SIZE && forall b :: r <= b < done ==> b in R
    {
      hide Partition, AllOwn, FilesOk, Placed;
      var regionEnd := RegionAfter(gd, R, r);
      RecordFreeHole(pos / BLOCK, r);
      FilesLater(R, disk, book, done, r);
      done := r;
      pos := regionEnd * BLOCK;
      PassReserved();
    }

    /** reserve_contiguous finds the first fit: the returned start is the least
        block from the cursor on from which `n` blocks hold no reserved one.
        Everything skipped is reserved or recorded as a hole. The 32-bit sum is only
        formed while a reserved block lies ahead. With the cursor at 16 TiB the block
        number is 0, and a run longer than a group takes the cursor back. */
    method ReserveContiguous(n: nat) returns (r: Fit)
      requires Valid() && !open && n > 0
      modifies `pos, `freeHoles, `done
      ensures Valid() && !open && old(done) <= done && (old(done) < done ==> done - 1 in R) && book == old(book)
      ensures r.Fits? ==> r.start == Block()
      ensures r.Fits? && pos < MAX_MAX_DISK_SIZE ==> FirstFit(R, Limit(maxDisk), old(done), n, r.start)
      ensures pos == MAX_MAX_DISK_SIZE ==> pos == old(pos)
      ensures pos == MAX_MAX_DISK_SIZE ==>
        r == if n >= U32_LIMIT then Overflow else if n > BLOCKS_PER_GROUP then Rewound else Fits(0)
      ensures r.Overflow? ==> Block() + n >= U32_LIMIT
      ensures r.Overflow? ==> Straddles(R, Limit(maxDisk), old(done), done, n)
      ensures r.Overflow? && pos < MAX_MAX_DISK_SIZE ==> exists b :: done <= b < Limit(maxDisk) && b in R
      ensures r.Rewound? ==> pos == MAX_MAX_DISK_SIZE
    {
      hide Partition, AllOwn, FilesOk, Placed, Layout, Straddles, FirstFit, GdBlocks;
      NoStarts(R, Limit(maxDisk), done, n);
      while true
        invariant Valid() && old(done) <= done && (old(done) < done ==> done - 1 in R)
        invariant (pos == MAX_MAX_DISK_SIZE ==> pos == old(pos))
        invariant Straddles(R, Limit(maxDisk), old(done), done, n)
        decreases U32_LIMIT - done
      {
        ghost var from := done;
        SkipReservedAtPos();
        PassReserved();
        CursorBlock(pos);
        var start := Block();
        var next := NextReservedBlockGe(gd, maxDisk, R, start);
        FirstBackup(R, gd);
        if next.Some? && start + n >= U32_LIMIT {
          StraddlesGap(R, Limit(maxDisk), old(done), from, done, n);
          return Overflow;
        }
        if next.None? || next.value >= start + n {
          if pos < MAX_MAX_DISK_SIZE { FitFound(R, Limit(maxDisk), old(done), from, start, n, next); }
          return Fits(start);
        }
        if pos == MAX_MAX_DISK_SIZE { return Rewound; }
        HoleThenSeek(next.value);
        NoFitBefore(R, Limit(maxDisk), old(done), from, start, next.value, done, n);
      }
    }

    /** Write whole blocks of metadata on a run kept clear by ReserveContiguous. */
    method WriteRun(o: Owner, data: seq<byte>) returns (ok: bool)
      requires Valid() && !open && !o.File? && |data| % BLOCK == 0
      requires (done + |data| / BLOCK) * BLOCK <= maxDisk ==> forall b :: done <= b < done + |data| / BLOCK ==> b !in R
      modifies `disk, `pos, `done, `book
      ensures ok == (old(pos) + |data| <= maxDisk)
      ensures ok ==> Valid() && done == old(done) + |data| / BLOCK
      ensures !ok ==> pos == old(pos)
      ensures ok ==> book == ClaimFor(R, old(book), old(done), done, o)
      ensures ok ==> disk == WriteAt(old(disk), old(pos), data)
    {
      hide Partition, AllOwn, FilesOk, Placed, WriteAt, ClaimFor;
      ok := WriteBytes(data);
      if !ok { return; }
      ghost var e := done + |data| / BLOCK;
      FilesAppend(R, old(disk), done, data, disk, book, done);
      ClaimRun(R, 1 + gd, done, freeHoles, book, disk, e, o);
      book := ClaimFor(R, book, done, e, o);
      done := e;
    }

    /** How much of `want` bytes can go down before the next reserved block; negative at
        16 TiB, where block() is 0. */
    method Reach(want: nat) returns (take: int)
      requires Geometry() && want > 0 && pos / BLOCK !in R
      ensures take != 0 && take <= want && (take < 0 <==> pos == MAX_MAX_DISK_SIZE)
      ensures 0 < take < want ==> pos + take < MAX_MAX_DISK_SIZE
      ensures take > 0 && pos + take <= maxDisk ==> forall b :: pos / BLOCK <= b < CeilBlock(pos + take) ==> b !in R
    {
      CursorBlock(pos);
      var cur := Block();
      var next := NextReservedBlockGe(gd, maxDisk, R, cur);
      if pos == MAX_MAX_DISK_SIZE { FirstBackup(R, gd); }
      take := want;
      if next.Some? {
        take := Min(want, next.value * BLOCK - pos);
      }
    }
  }

  /** How write_extents ends for data in [start, end): by the number of leaves alone, and for a
      two-level tree by the free blocks behind the data. */
  ghost predicate Mapped(r: Outcome, R: iset<nat>, start: nat, end: nat, maxDisk: nat) {
    var leaves := LeafCount(R, start, end);
    if leaves <= 4 then r.Done?
    else if leaves > 4 * EXTENTS_PER_BLOCK then r.TooLarge?
    else if CeilDiv(leaves, EXTENTS_PER_BLOCK) <= |FreeIn(R, end, maxDisk / BLOCK)| then r.Done?
    else r.DiskFull?
  }

  lemma FreeGrows(R: iset<nat>, a: nat, m: nat, n: nat)
    requires a <= m <= n
    ensures |FreeIn(R, a, m)| <= |FreeIn(R, a, n)|
  {
    FreeInSplit(R, a, m, n);
  }

  lemma NoneFree(R: iset<nat>, a: nat, p: nat, b: nat, m: nat)
    requires a <= p <= m <= b && forall x :: p <= x < b ==> x in R
    ensures |FreeIn(R, a, m)| == |FreeIn(R, a, p)|
  {
    FreeInGap(R, a, p, m);
  }

  /** block(): cut to 32 bits, the cursor's block number is right exactly below 16 TiB. */
  lemma CursorBlock(pos: nat)
    requires pos <= MAX_MAX_DISK_SIZE
    ensures pos / BLOCK % U32_LIMIT == pos / BLOCK <==> pos < MAX_MAX_DISK_SIZE
    ensures pos == MAX_MAX_DISK_SIZE ==> pos / BLOCK % U32_LIMIT == 0
  {
    assert MAX_MAX_DISK_SIZE == U32_LIMIT * BLOCK;
  }

  /** No backup region starts at 16 TiB, and block 0 is not in one. */
  lemma TopNotReserved(R: iset<nat>, gd: nat)
    requires Layout(R, gd)
    ensures 0 !in R && U32_LIMIT !in R
  {
    BackupGroupsListed(131072);
    assert !Reserved(gd, 0) && !Reserved(gd, U32_LIMIT);
  }

  lemma FirstBackup(R: iset<nat>, gd: nat)
    requires Layout(R, gd)
    ensures BLOCKS_PER_GROUP in R && forall b :: 0 <= b < BLOCKS_PER_GROUP ==> b !in R
  {
    assert Reserved(gd, BLOCKS_PER_GROUP);
    forall b | 0 <= b < BLOCKS_PER_GROUP ensures b !in R { assert !Reserved(gd, b); }
  }

  lemma NextBoundary(pos: nat, maxDisk: nat)
    requires pos <= maxDisk && maxDisk % BLOCK == 0
    ensures var z := if pos % BLOCK == 0 then 0 else BLOCK - pos % BLOCK;
            pos + z == CeilBlock(pos) * BLOCK && pos + z <= maxDisk && (pos + z) / BLOCK == CeilBlock(pos)
  {
  }

  lemma LaidSize(R: iset<nat>, d: seq<byte>, start: nat, end: nat, content: seq<byte>)
    requires Laid(R, d, start, end, content)
    ensures |FreeIn(R, start, end)| == CeilBlock(|content|)
  {
  }

  lemma LeavesEncodable(R: iset<nat>, leaves: seq<Leaf>, start: nat, end: nat)
    requires LeafBlocks(leaves) == FreeIn(R, start, end) && WellFormedLeaves(leaves) && start <= end < U32_LIMIT
    ensures Encodable(leaves)
  {
    FreeInExact(R, start, end);
    FreeInShort(R, start, end);
    forall i | 0 <= i < |leaves| ensures leaves[i].logical < U32_LIMIT && leaves[i].phys < U32_LIMIT {
      LeafStartListed(leaves, i);
    }
  }

  lemma OneMoreFree(R: iset<nat>, a: nat, p: nat, b: nat)
    requires a <= p <= b && b !in R && forall x :: p <= x < b ==> x in R
    ensures |FreeIn(R, a, b + 1)| == |FreeIn(R, a, p)| + 1
  {
    FreeInGap(R, a, p, b);
  }

  /** A file's data blocks and its leaf blocks are all the free blocks since `first`. */
  lemma BlocksOfFile(R: iset<nat>, first: nat, start: nat, end: nat, e: nat)
    requires first <= start <= end <= e && forall b :: first <= b < start ==> b in R
    ensures |FreeIn(R, first, e)| == |FreeIn(R, start, end)| + |FreeIn(R, end, e)| && FreeIn(R, end, end) == []
  {
    FreeInSplit(R, first, start, e);
    FreeInSplit(R, start, end, e);
    FreeInGap(R, first, first, start);
  }

  /** What the reader sees of a file whose leaves resolve. */
  lemma ContentOk(R: iset<nat>, d: seq<byte>, bd: seq<byte>, leaves: seq<Leaf>, content: seq<byte>, first: nat,
                  start: nat, end: nat, e: nat)
    requires |bd| == INODE_DATA_SIZE && Resolve(d, bd) == Some(ExtentsOf(leaves)) && first <= start && end <= e
    requires WellFormedLeaves(leaves) && LeafBlocks(leaves) == FreeIn(R, start, end) && Laid(R, d, start, end, content)
    requires U16(bd, 6) != 0 ==>
      forall j :: 0 <= j < U16(bd, 2) ==> first <= IndexTarget(bd, j) < e && IndexTarget(bd, j) !in R
    ensures FileOk(R, d, FileRec(bd, content, first, e))
  {
    ReaderBlocksOfLeaves(leaves);
    FreeInExact(R, start, end);
    var f := FreeIn(R, start, end);
    assert forall j :: 0 <= j < |f| ==> f[j] in f;
  }

  lemma InlineFileOk(R: iset<nat>, d: seq<byte>, bd: seq<byte>, leaves: seq<Leaf>, content: seq<byte>, first: nat,
                     start: nat, end: nat)
    requires Encodable(leaves) && |leaves| <= 4 && |bd| == INODE_DATA_SIZE && first <= start
    requires bd[..NODE] == HeaderBytes(|leaves|, 4, 0) && HoldsLeaves(bd, leaves)
    requires WellFormedLeaves(leaves) && LeafBlocks(leaves) == FreeIn(R, start, end) && Laid(R, d, start, end, content)
    ensures FileOk(R, d, FileRec(bd, content, first, end))
  {
    InlineRootResolves(d, bd, leaves);
    HeaderRoundTrip(|leaves|, 4, 0, bd);
    ContentOk(R, d, bd, leaves, content, first, start, end, end);
  }

  // ---- building the two-level tree ----

  function Reached(leaves: seq<Leaf>, i: nat): (r: nat)
    ensures r <= |leaves|
  {
    if i * EXTENTS_PER_BLOCK < |leaves| then i * EXTENTS_PER_BLOCK else |leaves|
  }

  /** After `i` of `n` leaf blocks, placed in [end, e): the index resolves to the
      leaves stored so far. */
  ghost predicate TreeBuilt(R: iset<nat>, d: seq<byte>, bd: seq<byte>, leaves: seq<Leaf>, n: nat, i: nat, end: nat,
                            e: nat) {
    && |bd| == INODE_DATA_SIZE && i <= n <= 4 && end <= e
    && bd[..NODE] == HeaderBytes(n, 4, 1)
    && (forall j :: 0 <= j < i ==> end <= IndexTarget(bd, j) < e && IndexTarget(bd, j) !in R)
    && ResolveIndex(d, bd, i) == Some(ExtentsOf(leaves[..Reached(leaves, i)]))
  }

  lemma EmptyTree(R: iset<nat>, d: seq<byte>, bd: seq<byte>, leaves: seq<Leaf>, n: nat, end: nat)
    requires n <= 4 && bd == HeaderBytes(n, 4, 1) + Zeros(4 * NODE)
    ensures TreeBuilt(R, d, bd, leaves, n, 0, end, end)
  {
    assert bd[..NODE] == HeaderBytes(n, 4, 1);
  }

  /** Fill index slot `i` of the root. */
  function SetSlot(bd: seq<byte>, i: nat, idx: seq<byte>): (r: seq<byte>)
    requires |bd| == INODE_DATA_SIZE && i < 4 && |idx| == NODE
    ensures |r| == INODE_DATA_SIZE
  {
    bd[..NODE + NODE * i] + idx + bd[NODE + NODE * i + NODE..]
  }

  lemma SlotSet(bd: seq<byte>, i: nat, logical: nat, target: nat, r: seq<byte>)
    requires |bd| == INODE_DATA_SIZE && i < 4 && logical < U32_LIMIT && target < U32_LIMIT
    requires r == SetSlot(bd, i, IndexBytes(logical, target))
    ensures r[..NODE] == bd[..NODE] && IndexTarget(r, i) == target
    ensures forall j :: 0 <= j < i ==> IndexTarget(r, j) == IndexTarget(bd, j)
  {
    var off := NODE + NODE * i;
    assert r[off..off + NODE] == IndexBytes(logical, target);
    IndexRoundTrip(logical, target, r, i);
    forall j | 0 <= j < i ensures IndexTarget(r, j) == IndexTarget(bd, j) {
      assert forall o :: 0 <= o < off ==> r[o] == bd[o];
    }
  }

  lemma EncodableSlice(leaves: seq<Leaf>, a: nat, n: nat)
    requires Encodable(leaves) && a + n <= |leaves|
    ensures Encodable(leaves[a..a + n]) && (n > 0 ==> leaves[a].logical < U32_LIMIT)
  {
  }

  lemma TreeGrows(R: iset<nat>, d: seq<byte>, bd: seq<byte>, leaves: seq<Leaf>, n: nat, i: nat, end: nat, e: nat,
                  b: nat, part: seq<Leaf>, buf: seq<byte>, d2: seq<byte>, logical: nat, bd2: seq<byte>)
    requires TreeBuilt(R, d, bd, leaves, n, i, end, e) && i < n && n == CeilDiv(|leaves|, EXTENTS_PER_BLOCK)
    requires e <= b < U32_LIMIT && b !in R && logical < U32_LIMIT && Encodable(part)
    requires part == leaves[i * EXTENTS_PER_BLOCK..Reached(leaves, i + 1)]
    requires |buf| == BLOCK && buf[..NODE] == HeaderBytes(|part|, EXTENTS_PER_BLOCK, 0) && HoldsLeaves(buf, part)
    requires d2 == WriteAt(d, b * BLOCK, buf) && bd2 == SetSlot(bd, i, IndexBytes(logical, b))
    ensures TreeBuilt(R, d2, bd2, leaves, n, i + 1, end, b + 1)
  {
    hide ResolveIndex, HeaderBytes, IndexBytes, SetSlot, WriteAt, HoldsLeaves, Encodable, ExtentsOf, IndexTarget;
    SlotSet(bd, i, logical, b, bd2);
    IndexExtends(d, bd, i, b, part, buf, d2, bd2);
    SlicesJoin(leaves, i);
  }

  lemma SlicesJoin(leaves: seq<Leaf>, i: nat)
    requires i * EXTENTS_PER_BLOCK < |leaves|
    ensures ExtentsOf(leaves[..Reached(leaves, i)]) + ExtentsOf(leaves[i * EXTENTS_PER_BLOCK..Reached(leaves, i + 1)])
            == ExtentsOf(leaves[..Reached(leaves, i + 1)])
  {
  }

  lemma IndexExtends(d: seq<byte>, bd: seq<byte>, i: nat, b: nat, part: seq<Leaf>, buf: seq<byte>, d2: seq<byte>,
                     bd2: seq<byte>)
    requires |bd| == |bd2| == INODE_DATA_SIZE && i < 4 && IndexTarget(bd2, i) == b
    requires forall j :: 0 <= j < i ==> IndexTarget(bd2, j) == IndexTarget(bd, j) < b
    requires Encodable(part) && |part| <= EXTENTS_PER_BLOCK
    requires |buf| == BLOCK && buf[..NODE] == HeaderBytes(|part|, EXTENTS_PER_BLOCK, 0) && HoldsLeaves(buf, part)
    requires d2 == WriteAt(d, b * BLOCK, buf) && ResolveIndex(d, bd, i).Some?
    ensures ResolveIndex(d2, bd2, i + 1) == Some(ResolveIndex(d, bd, i).value + ExtentsOf(part))
  {
    LeafBlockResolves(buf, part);
    ReadBack(d, b * BLOCK, buf);
    forall j | 0 <= j < i ensures BlockAt(d, IndexTarget(bd, j)) == BlockAt(d2, IndexTarget(bd, j)) {
      ReadElsewhere(d, b * BLOCK, buf, IndexTarget(bd, j) * BLOCK, BLOCK);
    }
    ResolveIndexFrame(d, bd, d2, bd2, i);
  }

  lemma TreeFileOk(R: iset<nat>, d: seq<byte>, bd: seq<byte>, leaves: seq<Leaf>, content: seq<byte>, first: nat,
                   start: nat, end: nat, e: nat, n: nat)
    requires n == CeilDiv(|leaves|, EXTENTS_PER_BLOCK) && TreeBuilt(R, d, bd, leaves, n, n, end, e)
    requires first <= start <= end
    requires WellFormedLeaves(leaves) && LeafBlocks(leaves) == FreeIn(R, start, end) && Laid(R, d, start, end, content)
    ensures FileOk(R, d, FileRec(bd, content, first, e))
  {
    HeaderRoundTrip(n, 4, 1, bd);
    assert leaves[..Reached(leaves, n)] == leaves;
    ContentOk(R, d, bd, leaves, content, first, start, end, e);
  }

  lemma FilesAppend(R: iset<nat>, d: seq<byte>, b: nat, buf: seq<byte>, d2: seq<byte>, k: Book, done: nat)
    requires FilesOk(R, d, k, done) && done <= b && d2 == WriteAt(d, b * BLOCK, buf)
    ensures FilesOk(R, d2, k, done)
  {
    FilesFrame(R, d, d2, k, done);
  }

  lemma FilesLater(R: iset<nat>, d: seq<byte>, k: Book, done: nat, e: nat)
    requires FilesOk(R, d, k, done) && done <= e
    ensures FilesOk(R, d, k, e)
  {
  }

  /** Blocks of the groups the writer looks at for a device of this size. */
  function Limit(maxDisk: nat): nat { (MaxGroup(maxDisk) + 1) * BLOCKS_PER_GROUP }

  ghost predicate Blocked(R: iset<nat>, lim: nat, s: nat, n: nat) {
    exists b :: s <= b < s + n && b < lim && b in R
  }

  /** Every start in [a, e) would straddle a reserved block. */
  ghost predicate Straddles(R: iset<nat>, lim: nat, a: nat, e: nat, n: nat) {
    forall s :: a <= s < e && s < lim ==> Blocked(R, lim, s, n)
  }

  ghost predicate FirstFit(R: iset<nat>, lim: nat, a: nat, n: nat, start: nat) {
    a <= start && !Blocked(R, lim, start, n) && Straddles(R, lim, a, start, n)
  }

  lemma NoStarts(R: iset<nat>, lim: nat, a: nat, n: nat)
    ensures Straddles(R, lim, a, a, n)
  {
  }

  lemma StraddlesGap(R: iset<nat>, lim: nat, a: nat, from: nat, e: nat, n: nat)
    requires a <= from <= e && n > 0 && Straddles(R, lim, a, from, n) && forall b :: from <= b < e ==> b in R
    ensures Straddles(R, lim, a, e, n)
  {
    forall s | a <= s < e && s < lim ensures Blocked(R, lim, s, n) {
      if from <= s { assert s in R; }
    }
  }

  lemma NoFitBefore(R: iset<nat>, lim: nat, a: nat, from: nat, start: nat, r: nat, e: nat, n: nat)
    requires a <= from <= start <= r < e && n > 0 && r < lim
    requires Straddles(R, lim, a, from, n)
    requires forall b :: from <= b < start ==> b in R
    requires r in R && r < start + n && forall b :: r <= b < e ==> b in R
    ensures Straddles(R, lim, a, e, n)
  {
    forall s | a <= s < e && s < lim ensures Blocked(R, lim, s, n) {
      if from <= s < start || r <= s { assert s in R; }
      else if start <= s < r { assert s <= r < s + n && r in R; }
    }
  }

  lemma FitFound(R: iset<nat>, lim: nat, a: nat, from: nat, start: nat, n: nat, next: Option<nat>)
    requires a <= from <= start && n > 0
    requires Straddles(R, lim, a, from, n)
    requires forall b :: from <= b < start ==> b in R
    requires next.None? ==> forall b :: start <= b < lim ==> b !in R
    requires next.Some? ==> next.value >= start + n && forall b :: start <= b < next.value ==> b !in R
    ensures FirstFit(R, lim, a, n, start)
  {
    forall s | a <= s < start && s < lim ensures Blocked(R, lim, s, n) {
      if from <= s { assert s in R; }
    }
  }

  lemma FilesHere(R: iset<nat>, d: seq<byte>, k: Book, done: nat)
    requires FilesOk(R, d, k, done)
    ensures FilesOk(R, d, ClaimHere(R, k, done), done + 1)
  {
  }

  lemma FilesElsewhere(R: iset<nat>, d: seq<byte>, b: nat, buf: seq<byte>, d2: seq<byte>, k: Book, done: nat)
    requires FilesOk(R, d, k, done) && AllOwn(R, k) && b in k.claims && !k.claims[b].File?
    requires |buf| == BLOCK && d2 == WriteAt(d, b * BLOCK, buf)
    ensures FilesOk(R, d2, k, done)
  {
    hide FileOk, WriteAt;
    forall i | 0 <= i < |k.files| ensures FileOk(R, d2, k.files[i]) {
      assert Owns(R, k, i);
      var f := k.files[i];
      forall x | f.first <= x < f.end && x !in R ensures BlockAt(d, x) == BlockAt(d2, x) {
        ReadElsewhere(d, b * BLOCK, buf, x * BLOCK, BLOCK);
      }
      FileFrame(R, d, d2, f);
    }
  }

  lemma ClaimRun(R: iset<nat>, lo: nat, done: nat, holes: seq<Run>, k: Book, d: seq<byte>, e: nat, o: Owner)
    requires Partition(R, lo, done, holes, k) && AllOwn(R, k) && FilesOk(R, d, k, done) && done <= e && !o.File?
    ensures var k2 := ClaimFor(R, k, done, e, o);
      Partition(R, lo, e, holes, k2) && AllOwn(R, k2) && FilesOk(R, d, k2, e)
  {
    PartitionClaim(R, lo, done, holes, k, e, ClaimFor(R, k, done, e, o), o);
    OwnClaimFor(R, lo, done, holes, k, e, o);
  }

  lemma LaidAppend(R: iset<nat>, d: seq<byte>, b: nat, buf: seq<byte>, d2: seq<byte>, start: nat, end: nat,
                   content: seq<byte>)
    requires Laid(R, d, start, end, content) && end <= b && d2 == WriteAt(d, b * BLOCK, buf)
    ensures Laid(R, d2, start, end, content)
  {
    LaidFrame(R, d, d2, start, end, content);
  }

  /** Padding from a block boundary to an aligned one is whole blocks. */
  lemma PadWhole(p: nat, align: nat)
    requires p % BLOCK == 0 && align > 0 && p % align != 0
    requires align % BLOCK == 0 || BLOCK % align == 0
    ensures (align - p % align) % BLOCK == 0 && (p + (align - p % align)) % align == 0
  {
    if align % BLOCK == 0 {
      RemainderMultiple(p, BLOCK, align);
    } else {
      Divides(p, align, BLOCK);
    }
    RoundUp(p, align);
  }

  /** Nothing changed below byte `p` or in a reserved block. */
  ghost predicate OnlyFreeFrom(R: iset<nat>, d: seq<byte>, d2: seq<byte>, p: nat) {
    forall i: nat {:trigger At(d2, i)} :: i < p || i / BLOCK in R ==> At(d2, i) == At(d, i)
  }

  lemma NothingWritten(R: iset<nat>, d: seq<byte>, p: nat)
    ensures OnlyFreeFrom(R, d, d, p)
  {
  }

  lemma ThenWritten(R: iset<nat>, d: seq<byte>, d1: seq<byte>, d2: seq<byte>, p: nat, p1: nat)
    requires OnlyFreeFrom(R, d, d1, p) && OnlyFreeFrom(R, d1, d2, p1) && p <= p1
    ensures OnlyFreeFrom(R, d, d2, p)
  {
    assert forall i: nat {:trigger At(d2, i)} :: At(d1, i) == At(d1, i);
  }

  lemma FilesUntouched(R: iset<nat>, d: seq<byte>, d2: seq<byte>, k: Book, done: nat, p: nat)
    requires FilesOk(R, d, k, done) && OnlyFreeFrom(R, d, d2, p) && done * BLOCK <= p
    ensures FilesOk(R, d2, k, done)
  {
    FilesFrame(R, d, d2, k, done);
  }

  lemma TakeMore(c: seq<byte>, b: seq<byte>, off: nat, n: nat)
    requires off + n <= |b|
    ensures c + b[..off + n] == c + b[..off] + b[off..][..n]
  {
    assert b[..off + n] == b[..off] + b[off..][..n];
  }

  lemma FreeWrite(R: iset<nat>, d: seq<byte>, p: nat, b: seq<byte>, d2: seq<byte>, e: nat)
    requires d2 == WriteAt(d, p, b) && e == p + |b|
    requires forall x :: p / BLOCK <= x < CeilBlock(e) ==> x !in R
    ensures OnlyFreeFrom(R, d, d2, p)
  {
    forall i: nat | p <= i < e ensures i / BLOCK !in R {
      assert p / BLOCK <= i / BLOCK < CeilBlock(e);
    }
  }
}
