/** Closing an image with its directories: write_directory for every directory of the tree,
    then close. What a reader finds on the finished disk is the tree. */
module Ext4Dirs {
  import opened Arith
  import opened Bytes
  import opened SparseSuper
  import opened FreeBlocks
  import opened ExtentTree
  import opened Placement
  import opened Ledger
  import opened Ext4Writer
  import Groups
  import Ext4Close
  import T = DirTree
  import DirBlock
  import IR = InodeRecord

  /** What ends up in a directory's inode: extent data, size and block count. */
  datatype DirRec = DirRec(bd: seq<byte>, size: nat, blocks: nat)

  datatype Outcome = Placed(rec: DirRec) | Failed | Lost

  const DIR_MAX: nat := 0x7fff_ffff_ffff_ffff
  const INODE_JOURNAL: nat := 8
  const HUGE_FILE: nat := 0x4_0000

  ghost function ParentOf(t: T.Table, x: nat): nat
    requires T.Valid(t) && T.IsDir(t, x)
  {
    if x == T.INODE_ROOT then x else T.Parent(t, x)
  }

  /** `content` is directory `x`: "." and "..", then its children, each once and in order. */
  ghost predicate Shows(t: T.Table, typ: nat -> nat, x: nat, parent: nat, content: seq<byte>)
    requires T.Has(t, x)
  {
    DirBlock.Listing(T.N(t, x).children, typ, DirBlock.Parse(content, 0)) && DirBlock.StartsWithDots(content, x, parent)
  }

  /** Some finished file is directory `x`. */
  ghost predicate Recorded(k: Book, t: T.Table, typ: nat -> nat, x: nat, parent: nat, r: DirRec)
    requires T.Has(t, x)
  {
    exists i :: 0 <= i < |k.files| && IsFile(k.files[i], t, typ, x, parent, r)
  }

  ghost predicate IsFile(f: FileRec, t: T.Table, typ: nat -> nat, x: nat, parent: nat, r: DirRec)
    requires T.Has(t, x)
  {
    f.bd == r.bd && |f.content| == r.size <= DIR_MAX && r.blocks < U32_LIMIT && Shows(t, typ, x, parent, f.content)
  }

  lemma RecordedStays(k: Book, k2: Book, t: T.Table, typ: nat -> nat, x: nat, parent: nat, r: DirRec)
    requires T.Has(t, x) && k.files <= k2.files && Recorded(k, t, typ, x, parent, r)
    ensures Recorded(k2, t, typ, x, parent, r)
  {
    hide IsFile;
    var i :| 0 <= i < |k.files| && IsFile(k.files[i], t, typ, x, parent, r);
    assert k2.files[i] == k.files[i];
  }

  lemma ChildrenFit(t: T.Table, d: nat)
    requires T.Valid(t) && T.IsDir(t, d) && |t| < U32_LIMIT
    ensures forall n :: n in T.N(t, d).children ==>
      1 <= |n| <= DirBlock.MAX_NAME && !DirBlock.Dots(n) && 0 < T.N(t, d).children[n] < U32_LIMIT
  {
    forall n | n in T.N(t, d).children ensures T.GoodName(n) && 0 < T.N(t, d).children[n] < U32_LIMIT {
      assert T.Binds(t, d, n, T.N(t, d).children[n]);
    }
  }

  // ---- how much room directories need ----

  /** The free blocks from the cursor to the end of the disk. */
  ghost function Left(w: Writer): nat
    reads w
  {
    FreeFrom(w.R, w.done, w.maxDisk)
  }

  ghost function FreeFrom(R: iset<nat>, from: nat, maxDisk: nat): nat { |FreeIn(R, from, maxDisk / BLOCK)| }

  ghost function BlocksOf(t: T.Table, typ: nat -> nat, x: nat): nat
    requires T.Has(t, x)
  {
    DirBlock.DirSizeOf(T.N(t, x).children, typ) / BLOCK
  }

  /** The blocks of the directories up to inode `n` that are not in `s`, with `extra` for each. */
  ghost function Demand(t: T.Table, typ: nat -> nat, s: set<nat>, n: nat, extra: nat): nat {
    if n == 0 then 0
    else Demand(t, typ, s, n - 1, extra) + if T.IsDir(t, n) && n !in s then BlocksOf(t, typ, n) + extra else 0
  }

  lemma {:induction false} DemandBeyond(t: T.Table, typ: nat -> nat, s: set<nat>, x: nat, n: nat, extra: nat)
    requires n < x
    ensures Demand(t, typ, s + {x}, n, extra) == Demand(t, typ, s, n, extra)
  {
    if n > 0 { DemandBeyond(t, typ, s, x, n - 1, extra); }
  }

  /** A directory's own blocks come off. */
  lemma {:induction false} DemandLess(t: T.Table, typ: nat -> nat, s: set<nat>, x: nat, n: nat, extra: nat)
    requires T.IsDir(t, x) && x !in s && x <= n
    ensures Demand(t, typ, s, n, extra) == Demand(t, typ, s + {x}, n, extra) + BlocksOf(t, typ, x) + extra
  {
    hide BlocksOf;
    if n == x { DemandBeyond(t, typ, s, x, n - 1, extra); } else { DemandLess(t, typ, s, x, n - 1, extra); }
  }

  lemma {:induction false} DemandMet(t: T.Table, typ: nat -> nat, s: set<nat>, n: nat, extra: nat)
    requires forall x: nat :: T.IsDir(t, x) ==> x in s
    ensures Demand(t, typ, s, n, extra) == 0
  {
    if n > 0 { DemandMet(t, typ, s, n - 1, extra); }
  }

  /** Room for every directory with four blocks of extents each, and none over 128 GiB. */
  ghost predicate Enough(t: T.Table, typ: nat -> nat, left: nat) {
    && Demand(t, typ, {}, |t|, 4) <= left
    && forall x: nat :: T.IsDir(t, x) ==> BlocksOf(t, typ, x) * BLOCK <= MAX_FILE_SIZE
  }

  /** The directories took their blocks and at most four more each. */
  ghost predicate Took(t: T.Table, typ: nat -> nat, s: set<nat>, before: nat, after: nat) {
    && after + Demand(t, typ, {}, |t|, 0) <= before + Demand(t, typ, s, |t|, 0)
    && before + Demand(t, typ, s, |t|, 4) <= after + Demand(t, typ, {}, |t|, 4)
  }

  lemma TookNext(t: T.Table, typ: nat -> nat, s: set<nat>, before: nat, after: nat, x: nat, next: nat)
    requires Took(t, typ, s, before, after) && T.IsDir(t, x) && x !in s && x <= |t|
    requires next + BlocksOf(t, typ, x) <= after <= next + BlocksOf(t, typ, x) + 4
    ensures Took(t, typ, s + {x}, before, next)
  {
    hide BlocksOf, Demand;
    DemandLess(t, typ, s, x, |t|, 0);
    DemandLess(t, typ, s, x, |t|, 4);
  }

  lemma EnoughNext(t: T.Table, typ: nat -> nat, s: set<nat>, before: nat, after: nat, x: nat)
    requires Took(t, typ, s, before, after) && Enough(t, typ, before) && T.IsDir(t, x) && x !in s && x <= |t|
    ensures BlocksOf(t, typ, x) + 4 <= after && BlocksOf(t, typ, x) * BLOCK <= MAX_FILE_SIZE
  {
    hide BlocksOf, Demand;
    DemandLess(t, typ, s, x, |t|, 4);
  }

  lemma RoomIs(R: iset<nat>, done: nat, maxDisk: nat)
    ensures Room(R, done * BLOCK, maxDisk) == FreeFrom(R, done, maxDisk) * BLOCK
  {
    assert CeilBlock(done * BLOCK) == done;
  }

  lemma RoomLeft(R: iset<nat>, pos: nat, maxDisk: nat)
    requires pos % BLOCK == 0 && Room(R, pos, maxDisk) >= 4 * BLOCK && maxDisk <= MAX_MAX_DISK_SIZE
    ensures CeilBlock(pos) < U32_LIMIT && FreeFrom(R, CeilBlock(pos), maxDisk) >= 4
  {
    FreeInShort(R, CeilBlock(pos), maxDisk / BLOCK);
  }

  lemma MapsInto(r: Ext4Writer.Outcome, R: iset<nat>, start: nat, end: nat, maxDisk: nat)
    requires Mapped(r, R, start, end, maxDisk) && FreeFrom(R, end, maxDisk) >= 4 && !r.TooLarge?
    ensures r.Done?
  {
    hide LeafCount, FreeIn;
  }

  lemma LeftAfter(R: iset<nat>, a: nat, b: nat, maxDisk: nat)
    requires a <= b && b * BLOCK <= maxDisk
    ensures FreeFrom(R, a, maxDisk) == |FreeIn(R, a, b)| + FreeFrom(R, b, maxDisk)
  {
    FreeInSplit(R, a, b, maxDisk / BLOCK);
  }

  lemma LastFile(R: iset<nat>, d: seq<byte>, k: Book, done: nat, f: FileRec)
    requires FilesOk(R, d, k, done) && |k.files| > 0 && k.files[|k.files| - 1] == f
    ensures |f.bd| == INODE_DATA_SIZE
  {
    assert FileOk(R, d, k.files[|k.files| - 1]);
  }

  // ---- writing a directory ----

  /** A file of unknown size: start_inode without padding, the data, then the size. It goes
      down if there is room for it and four blocks more, and only if there is room for it. */
  method PlaceData(w: Writer, out: seq<byte>, count: nat) returns (r: Outcome)
    requires w.Valid() && !w.open && out != [] && |out| <= DIR_MAX && |out| % BLOCK == 0 && count <= 1
    modifies w
    ensures r.Placed? ==> w.Valid() && !w.open && r.rec.size == |out| && r.rec.blocks < U32_LIMIT
    ensures r.Placed? ==> old(w.done) <= w.done
    ensures r.Placed? ==> r.rec.blocks == count + old(Left(w)) - Left(w)
    ensures r.Placed? ==> Left(w) + |out| / BLOCK <= old(Left(w)) <= Left(w) + |out| / BLOCK + 4
    ensures r.Placed? ==> exists first, end :: w.book.files == old(w.book).files + [FileRec(r.rec.bd, out, first, end)]
    ensures |out| / BLOCK + 4 <= old(Left(w)) && |out| <= MAX_FILE_SIZE ==> r.Placed?
  {
    hide Partition, AllOwn, FilesOk, GdBlocks, Layout, OnlyFreeFrom, Room, FreeFrom, FreeIn;
    RoomIs(w.R, w.done, w.maxDisk);
    var ok := w.StartInode(DIR_MAX);
    var wrote := w.WriteFileData(out);
    if !wrote.Written? { return Failed; }
    w.dataMax := w.dataWritten;
    assert w.content == out && w.pos % BLOCK == 0;
    hide Placement.Placed;
    r := FinishData(w, count);
  }

  /** finish_inode for the directory's data. */
  method FinishData(w: Writer, count: nat) returns (r: Outcome)
    requires w.Valid() && w.open && w.content != [] && |w.content| == w.dataMax && |w.content| % BLOCK == 0
    requires count <= 1
    requires w.pos % BLOCK == 0
    modifies w`disk, w`pos, w`open, w`done, w`book
    ensures r.Placed? ==> w.Valid() && !w.open && r.rec.size == |w.content| && r.rec.blocks < U32_LIMIT
    ensures r.Placed? ==> old(w.done) <= w.done
    ensures r.Placed? ==> r.rec.blocks == count + old(Left(w)) - Left(w)
    ensures r.Placed? ==> Left(w) + |w.content| / BLOCK <= old(Left(w)) <= Left(w) + |w.content| / BLOCK + 4
    ensures r.Placed? ==>
      exists first, end :: w.book.files == old(w.book).files + [FileRec(r.rec.bd, w.content, first, end)]
    ensures Room(w.R, old(w.pos), w.maxDisk) >= 4 * BLOCK && |w.content| <= MAX_FILE_SIZE ==> r.Placed?
  {
    hide Partition, AllOwn, FilesOk, GdBlocks, Layout, OnlyFreeFrom, Mapped, Room, FreeFrom, FreeIn, Placement.Placed;
    if Room(w.R, w.pos, w.maxDisk) >= 4 * BLOCK { RoomLeft(w.R, w.pos, w.maxDisk); }
    var f := w.FinishFile();
    if Room(w.R, old(w.pos), w.maxDisk) >= 4 * BLOCK && !f.TooLarge? {
      MapsInto(f, w.R, w.dataStartBlock, CeilBlock(old(w.pos)), w.maxDisk);
    }
    if !f.Done? { return Failed; }
    if CeilBlock(old(w.pos)) < U32_LIMIT {
      LastFile(w.R, w.disk, w.book, w.done, FileRec(f.bd, w.content, old(w.done), w.done));
    }
    if f.bd == [] { return Lost; }
    LeftAfter(w.R, old(w.done), w.done, w.maxDisk);
    if count + f.blocks >= U32_LIMIT { return Failed; }
    r := Outcome.Placed(DirRec(f.bd, w.dataWritten, count + f.blocks));
  }

  /** write_directory and the finish_inode after it: without padding, with the size only
      known at the end. The pieces of the source's writes are one chunk here. Lost is a
      directory whose data ends at 16 TiB. */
  method WriteDirectory(w: Writer, t: T.Table, typ: nat -> nat, d: nat, parent: nat, count: nat) returns (r: Outcome)
    requires w.Valid() && !w.open && T.Valid(t) && T.IsDir(t, d) && |t| < U32_LIMIT && count <= 1
    requires 0 < parent < U32_LIMIT && forall i :: typ(i) < 8
    modifies w
    ensures r.Placed? ==> w.Valid() && !w.open && old(w.book).files <= w.book.files && old(w.done) <= w.done
    ensures r.Placed? ==> Recorded(w.book, t, typ, d, parent, r.rec) && r.rec.blocks == count + old(Left(w)) - Left(w)
    ensures r.Placed? ==> Left(w) + BlocksOf(t, typ, d) <= old(Left(w)) <= Left(w) + BlocksOf(t, typ, d) + 4
    ensures BlocksOf(t, typ, d) + 4 <= old(Left(w)) && BlocksOf(t, typ, d) * BLOCK <= MAX_FILE_SIZE ==> r.Placed?
  {
    hide Partition, AllOwn, FilesOk, GdBlocks, Layout, T.Valid, DirBlock.Listing, DirBlock.StartsWithDots,
         DirBlock.Parse, DirBlock.Flatten, DirBlock.InBlocks, DirBlock.DirSize, DirBlock.DirSizeOf, FreeFrom;
    ChildrenFit(t, d);
    ghost var rs;
    var ok, out;
    ok, out, rs := DirBlock.WriteDirectory(d, parent, T.N(t, d).children, typ);
    DirBlock.ListedSize(T.N(t, d).children, typ, DirBlock.Parse(out, 0));
    if |out| > DIR_MAX { return Failed; }
    r := PlaceData(w, out, count);
    if r.Placed? {
      ghost var n := |old(w.book).files|;
      assert w.book.files[n].content == out && w.book.files[n].bd == r.rec.bd;
      assert IsFile(w.book.files[n], t, typ, d, parent, r.rec);
    }
  }

  /** Every directory has a record, and only directories do. */
  ghost predicate AllRecorded(k: Book, t: T.Table, typ: nat -> nat, recs: map<nat, DirRec>)
    requires T.Valid(t)
  {
    forall x :: (x in recs <==> T.IsDir(t, x)) && (T.IsDir(t, x) ==> Recorded(k, t, typ, x, ParentOf(t, x), recs[x]))
  }

  /** What make_inode left for every inode: a mode that says what it is, and for directories
      no blocks but that of their attributes. */
  ghost predicate MetaOk(t: T.Table, meta: seq<IR.Record>) {
    && |meta| == |t|
    && forall x: nat :: T.Has(t, x) ==>
         && IR.Fits(meta[x - 1]) && (DirMode(meta[x - 1]) <==> T.N(t, x).isDir)
         && (T.N(t, x).isDir ==> meta[x - 1].blocks <= 1)
  }

  predicate DirMode(r: IR.Record) { r.mode / 0x1000 == IR.S_IFDIR }

  /** Every directory of the tree, each once. */
  method WriteDirectories(w: Writer, t: T.Table, typ: nat -> nat, meta: seq<IR.Record>)
    returns (ok: bool, recs: map<nat, DirRec>)
    requires w.Valid() && !w.open && T.Valid(t) && |t| < U32_LIMIT && MetaOk(t, meta) && forall i :: typ(i) < 8
    modifies w
    ensures ok ==> w.Valid() && !w.open && old(w.book).files <= w.book.files && old(w.done) <= w.done
    ensures ok ==> AllRecorded(w.book, t, typ, recs)
    ensures ok ==> Left(w) + Demand(t, typ, {}, |t|, 0) <= old(Left(w)) <= Left(w) + Demand(t, typ, {}, |t|, 4)
    ensures Enough(t, typ, old(Left(w))) ==> ok
  {
    hide T.Valid, T.Parent, Recorded, Partition, AllOwn, FilesOk, GdBlocks, Layout, T.NoRepeats, T.ParentsOf, Took,
         Enough, BlocksOf, FreeFrom, Demand, MetaOk;
    var order, parents := T.WriteAllDirectories(t);
    ParentsAre(t, order, parents);
    recs := map[];
    NoneTaken(t, typ, Left(w));
    assert recs.Keys == {};
    for i := 0 to |order|
      invariant w.Valid() && !w.open && old(w.book).files <= w.book.files && old(w.done) <= w.done
      invariant forall x :: x in recs <==> x in order[..i]
      invariant forall j :: 0 <= j < i ==> Recorded(w.book, t, typ, order[j], parents[j], recs[order[j]])
      invariant Took(t, typ, recs.Keys, old(Left(w)), Left(w))
    {
      ghost var k, left := w.book, Left(w);
      assert order[i] in order;
      Unrepeated(order, i);
      if Enough(t, typ, old(Left(w))) { EnoughNext(t, typ, recs.Keys, old(Left(w)), left, order[i]); }
      CountOk(t, meta, order[i]);
      var r := WriteDirectory(w, t, typ, order[i], parents[i], meta[order[i] - 1].blocks);
      if !r.Placed? { return false, recs; }
      forall j | 0 <= j < i ensures Recorded(w.book, t, typ, order[j], parents[j], recs[order[j]]) {
        assert order[j] in order[..i];
        RecordedStays(k, w.book, t, typ, order[j], parents[j], recs[order[j]]);
      }
      TookNext(t, typ, recs.Keys, old(Left(w)), left, order[i], Left(w));
      assert order[..i + 1] == order[..i] + [order[i]];
      assert recs[order[i] := r.rec].Keys == recs.Keys + {order[i]};
      recs := recs[order[i] := r.rec];
    }
    assert order[..|order|] == order;
    forall x | T.IsDir(t, x) ensures Recorded(w.book, t, typ, x, ParentOf(t, x), recs[x]) {
      assert x in order;
      var j :| 0 <= j < |order| && order[j] == x;
    }
    AllTaken(t, typ, recs.Keys, old(Left(w)), Left(w));
    ok := true;
  }

  lemma NoneTaken(t: T.Table, typ: nat -> nat, left: nat)
    ensures Took(t, typ, {}, left, left)
  {
  }

  lemma AllTaken(t: T.Table, typ: nat -> nat, s: set<nat>, before: nat, after: nat)
    requires Took(t, typ, s, before, after) && forall x: nat :: T.IsDir(t, x) ==> x in s
    ensures after + Demand(t, typ, {}, |t|, 0) <= before <= after + Demand(t, typ, {}, |t|, 4)
  {
    hide Demand;
    DemandMet(t, typ, s, |t|, 0);
    DemandMet(t, typ, s, |t|, 4);
  }

  lemma CountOk(t: T.Table, meta: seq<IR.Record>, x: nat)
    requires MetaOk(t, meta) && T.IsDir(t, x)
    ensures 0 < x <= |meta| && meta[x - 1].blocks <= 1
  {
  }

  lemma Unrepeated(order: seq<nat>, i: nat)
    requires T.NoRepeats(order) && i < |order|
    ensures forall j :: 0 <= j < i ==> order[j] != order[i]
    ensures order[i] !in order[..i]
  {
  }

  lemma ParentsAre(t: T.Table, order: seq<nat>, parents: seq<nat>)
    requires T.Valid(t) && |t| < U32_LIMIT && T.ParentsOf(t, T.INODE_ROOT, T.INODE_ROOT, order, parents)
    requires T.NoRepeats(order)
    requires forall x :: x in order <==> T.IsDir(t, x)
    ensures |parents| == |order| && forall i :: 0 <= i < |order| ==>
      T.IsDir(t, order[i]) && parents[i] == ParentOf(t, order[i]) && 0 < parents[i] < U32_LIMIT
  {
    forall i | 0 <= i < |order|
      ensures T.IsDir(t, order[i]) && parents[i] == ParentOf(t, order[i]) && 0 < parents[i] < U32_LIMIT
    {
      assert order[i] in order;
      hide T.Valid, T.NoRepeats;
      if i > 0 { T.ParentBelow(t, order[i]); var n := T.ParentHas(t, order[i]); }
    }
  }

  // ---- the inode table ----

  /** The record of inode `x` at close: a directory with its extents, and the links counted. */
  function Final(t: T.Table, meta: seq<IR.Record>, recs: map<nat, DirRec>, x: nat): IR.Record
    requires T.Has(t, x) && |meta| == |t| && (T.N(t, x).isDir ==> x in recs)
  {
    var r := meta[x - 1].(links := T.N(t, x).links);
    if T.N(t, x).isDir then
      r.(size := recs[x].size, blocks := recs[x].blocks, flags := HUGE_FILE + IR.EXTENTS, area := recs[x].bd)
    else r
  }

  /** The directories' records fit an inode. */
  ghost predicate RecsFit(t: T.Table, recs: map<nat, DirRec>) {
    forall x: nat :: T.IsDir(t, x) ==>
      x in recs && |recs[x].bd| == INODE_DATA_SIZE && recs[x].size <= DIR_MAX && recs[x].blocks < U32_LIMIT
  }

  lemma FinalFits(t: T.Table, meta: seq<IR.Record>, recs: map<nat, DirRec>, x: nat)
    requires T.Valid(t) && MetaOk(t, meta) && RecsFit(t, recs) && T.Has(t, x)
    ensures IR.Fits(Final(t, meta, recs, x)) && Final(t, meta, recs, x).links < IR.U16_LIMIT
  {
    assert T.LinkedAt(t, x);
    hide T.Valid, T.LinkedAt;
  }

  lemma ReadsBack(r: IR.Record)
    requires IR.Fits(r) && r.links < IR.U16_LIMIT
    ensures IR.Parse(IR.Encode(r)) == r
  {
    hide IR.Encode, IR.Parse;
    IR.RoundTrip(r);
  }

  /** The slots hold the records, and nothing else. */
  ghost predicate SlotsAre(t: T.Table, meta: seq<IR.Record>, recs: map<nat, DirRec>, slots: IR.Slots)
    requires |meta| == |t| && RecsFit(t, recs)
  {
    && |slots| == |t| && IR.SlotsOk(slots)
    && (forall i :: 0 <= i < |t| ==> (slots[i].Some? <==> t[i].Used?))
    && forall x: nat :: T.Has(t, x) ==>
      IR.Fits(Final(t, meta, recs, x)) && slots[x - 1] == Some(IR.Encode(Final(t, meta, recs, x)))
  }

  method InodeSlots(t: T.Table, meta: seq<IR.Record>, recs: map<nat, DirRec>) returns (slots: IR.Slots)
    requires T.Valid(t) && MetaOk(t, meta) && RecsFit(t, recs)
    ensures SlotsAre(t, meta, recs, slots)
  {
    hide T.Valid, IR.Encode, IR.Parse, MetaOk, IR.Fits;
    slots := [];
    SameLength(t, meta);
    for i := 0 to |t|
      invariant |slots| == i && IR.SlotsOk(slots) && forall j :: 0 <= j < i ==> (slots[j].Some? <==> t[j].Used?)
      invariant forall x: nat :: T.Has(t, x) && x <= i ==>
        IR.Fits(Final(t, meta, recs, x)) && slots[x - 1] == Some(IR.Encode(Final(t, meta, recs, x)))
    {
      if t[i].Used? {
        FinalFits(t, meta, recs, i + 1);
        slots := slots + [Some(IR.Encode(Final(t, meta, recs, i + 1)))];
      } else {
        slots := slots + [None];
      }
    }
  }

  lemma SameLength(t: T.Table, meta: seq<IR.Record>)
    requires MetaOk(t, meta)
    ensures |meta| == |t|
  {
  }

  // ---- what is on the disk ----

  /** read_inode: the record in the table, behind the part of the inode's group. */
  function ReadInode(d: seq<byte>, table: nat, groups: nat, ipg: nat, ino: nat): Option<IR.Record> {
    if ino == 0 || ipg == 0 || (ino - 1) / ipg >= groups then None
    else Some(IR.Parse(ReadAt(d, IR.Offset(table, ipg, ino), IR.SIZE)))
  }

  predicate HasExtents(r: IR.Record) { r.flags / IR.EXTENTS % 2 == 1 }

  /** read_data for an inode without inline data. */
  ghost function DataOf(d: seq<byte>, r: IR.Record): Option<seq<byte>> {
    if r.size == 0 then Some([])
    else if !HasExtents(r) || |r.area| != INODE_DATA_SIZE || Resolve(d, r.area).None? then None
    else Some(ReadContent(d, Resolve(d, r.area).value, r.size))
  }

  /** What close writes into a directory's inode, left out. */
  function Rest(r: IR.Record): IR.Record { r.(size := 0, blocks := 0, flags := 0, area := []) }

  /** The record on disk is that of the inode, and a directory's data is the directory. */
  ghost predicate Reads(d: seq<byte>, table: nat, groups: nat, ipg: nat, t: T.Table, typ: nat -> nat,
                        meta: seq<IR.Record>, x: nat)
    requires T.Valid(t) && |meta| == |t| && T.Has(t, x)
  {
    var r, m := ReadInode(d, table, groups, ipg, x), meta[x - 1].(links := T.N(t, x).links);
    && r.Some?
    && (!T.N(t, x).isDir ==> r.value == m)
    && (T.N(t, x).isDir ==> Rest(r.value) == Rest(m) && DataOf(d, r.value).Some?)
    && (T.N(t, x).isDir ==> Shows(t, typ, x, ParentOf(t, x), DataOf(d, r.value).value))
  }

  ghost predicate ImageReads(d: seq<byte>, table: nat, groups: nat, ipg: nat, t: T.Table, typ: nat -> nat,
                             meta: seq<IR.Record>)
    requires T.Valid(t)
  {
    MetaOk(t, meta) && forall x: nat :: T.Has(t, x) ==> Reads(d, table, groups, ipg, t, typ, meta, x)
  }

  lemma RecordedOnDisk(R: iset<nat>, d: seq<byte>, k: Book, done: nat, t: T.Table, typ: nat -> nat, x: nat,
                       parent: nat, r: DirRec)
    requires FilesOk(R, d, k, done) && T.Has(t, x) && Recorded(k, t, typ, x, parent, r)
    ensures |r.bd| == INODE_DATA_SIZE && r.size <= DIR_MAX && r.blocks < U32_LIMIT && Resolve(d, r.bd).Some?
    ensures r.size > 0 && Shows(t, typ, x, parent, ReadContent(d, Resolve(d, r.bd).value, r.size))
  {
    hide DirBlock.Listing, Resolve, ReadContent, DirBlock.Parse;
    var i :| 0 <= i < |k.files| && IsFile(k.files[i], t, typ, x, parent, r);
    assert FileOk(R, d, k.files[i]);
  }

  lemma AllFit(R: iset<nat>, d: seq<byte>, k: Book, done: nat, t: T.Table, typ: nat -> nat, recs: map<nat, DirRec>)
    requires FilesOk(R, d, k, done) && T.Valid(t) && AllRecorded(k, t, typ, recs)
    ensures RecsFit(t, recs)
  {
    hide Shows, T.Valid, Resolve, ReadContent, T.Parent, Recorded, FilesOk;
    forall x | T.IsDir(t, x)
      ensures x in recs && |recs[x].bd| == INODE_DATA_SIZE && recs[x].size <= DIR_MAX && recs[x].blocks < U32_LIMIT
    {
      RecordedOnDisk(R, d, k, done, t, typ, x, ParentOf(t, x), recs[x]);
    }
  }

  /** The record comes back from its slot. */
  lemma SlotReads(d: seq<byte>, table: nat, groups: nat, ipg: nat, t: T.Table, meta: seq<IR.Record>,
                  recs: map<nat, DirRec>, slots: IR.Slots, start: nat, journal: nat, x: nat)
    requires T.Valid(t) && MetaOk(t, meta) && RecsFit(t, recs) && SlotsAre(t, meta, recs, slots) && T.Has(t, x)
    requires Ext4Close.RecordsOk(d, table, slots, start, journal) && (journal > 0 ==> x != INODE_JOURNAL)
    requires ipg > 0 && ipg % 16 == 0 && |t| <= groups * ipg
    ensures ReadInode(d, table, groups, ipg, x) == Some(Final(t, meta, recs, x))
  {
    hide T.Valid, MetaOk, RecsFit, IR.Encode, IR.Parse, IR.Offset, Final, Ext4Close.JournalRecord;
    SameLength(t, meta);
    RecsHave(t, recs, x);
    FinalFits(t, meta, recs, x);
    ReadsBack(Final(t, meta, recs, x));
    IR.OffsetIs(table, ipg, x);
    GroupIn(x - 1, ipg, groups);
    var i: nat := x - 1;
    assert ReadAt(d, table * BLOCK + i * IR.SIZE, IR.SIZE) == IR.SlotBytes(slots[i]) ==
      IR.Encode(Final(t, meta, recs, x));
  }

  lemma GroupIn(i: nat, ipg: nat, groups: nat)
    requires ipg > 0 && i < groups * ipg
    ensures i / ipg < groups
  {
    if i / ipg >= groups { MulMonotone(groups, i / ipg, ipg); }
  }

  lemma DirReads(R: iset<nat>, d: seq<byte>, k: Book, done: nat, t: T.Table, typ: nat -> nat, meta: seq<IR.Record>,
                 recs: map<nat, DirRec>, table: nat, groups: nat, ipg: nat, x: nat)
    requires FilesOk(R, d, k, done) && T.Valid(t) && MetaOk(t, meta) && AllRecorded(k, t, typ, recs) && T.Has(t, x)
    requires T.N(t, x).isDir ==> x in recs
    requires ReadInode(d, table, groups, ipg, x) == Some(Final(t, meta, recs, x))
    ensures Reads(d, table, groups, ipg, t, typ, meta, x)
  {
    hide Shows, T.Valid, Resolve, ReadContent, T.Parent, Recorded, FilesOk, ReadInode;
    if T.IsDir(t, x) { RecordedOnDisk(R, d, k, done, t, typ, x, ParentOf(t, x), recs[x]); }
  }

  lemma SlotsUsed(t: T.Table, meta: seq<IR.Record>, recs: map<nat, DirRec>, slots: IR.Slots)
    requires |meta| == |t| && RecsFit(t, recs) && SlotsAre(t, meta, recs, slots)
    ensures Ext4Close.InUse(slots) == InUse(t) && IR.SlotsOk(slots) && |slots| == |t|
  {
    hide IR.Encode, Final;
  }

  function InUse(t: T.Table): seq<bool> { seq(|t|, i requires 0 <= i < |t| => t[i].Used?) }

  /** close, with the directories: on the finished disk every inode's record reads as it was
      set up, every directory reads as itself, its parent and its children, and nothing
      written before has changed. The directories end at block `mid`. */
  method CloseImage(w: Writer, t: T.Table, typ: nat -> nat, meta: seq<IR.Record>, journal: nat)
    returns (ok: bool, r: Ext4Close.Closed, ghost mid: nat)
    requires w.Valid() && !w.open && T.Valid(t) && 10 <= |t| < U32_LIMIT && !T.Has(t, INODE_JOURNAL) && MetaOk(t, meta)
    requires journal < U32_LIMIT && forall i :: typ(i) < 8
    modifies w
    ensures Enough(t, typ, old(Left(w))) ==> ok
    ensures ok ==> old(w.done) <= mid
    ensures ok ==> FreeFrom(w.R, mid, w.maxDisk) + Demand(t, typ, {}, |t|, 0) <= old(Left(w))
    ensures ok ==> old(Left(w)) <= FreeFrom(w.R, mid, w.maxDisk) + Demand(t, typ, {}, |t|, 4)
    ensures ok && r.Closed? ==> w.Valid() && old(w.book).files <= w.book.files
    ensures ok && r.Closed? ==> ImageReads(w.disk, r.table, r.groups, r.ipg, t, typ, meta)
    ensures ok && r.Closed? ==>
      Ext4Close.ClosedOk(r, w.R, w.book, w.disk, w.gd, w.maxDisk, w.freeHoles, w.done, journal, InUse(t))
    ensures ok && r.Closed? ==>
      Ext4Close.TablesPlace(w.R, w.maxDisk, mid, journal, |t|, Ext4Close.Tables(r.journal, r.table, r.groups, r.ipg))
    ensures ok && !r.Closed? ==> Ext4Close.Explained(r, w.R, w.gd, w.maxDisk, mid, journal, |t|)
  {
    hide T.Valid, Partition, AllOwn, FilesOk, GdBlocks, Layout, AllRecorded, Ext4Close.ClosedOk, Ext4Close.Explained,
         Ext4Close.RecordsOk, Ext4Close.TablesPlace, Demand, Enough, FreeFrom, MetaOk, ImageReads, SlotsAre, RecsFit,
         IR.SlotsOk;
    r, mid := Ext4Close.NoSpace(0), w.done;
    var recs;
    ok, recs := WriteDirectories(w, t, typ, meta);
    mid := w.done;
    if !ok { return; }
    ghost var k := w.book;
    AllFit(w.R, w.disk, k, w.done, t, typ, recs);
    SameLength(t, meta);
    var slots := InodeSlots(t, meta, recs);
    SlotsUsed(t, meta, recs, slots);
    r := Ext4Close.Close(w, journal, slots);
    if r.Closed? {
      RecordsKept(k, w.book, t, typ, recs);
      Geometry(r, w.R, w.book, w.disk, w.gd, w.maxDisk, w.freeHoles, w.done, journal, t);
      ImageFrom(w.R, w.disk, w.book, w.done, t, typ, meta, recs, slots, r.table, r.groups, r.ipg, r.journal, journal);
    }
  }

  lemma Geometry(r: Ext4Close.Closed, R: iset<nat>, k: Book, d: seq<byte>, gd: nat, maxDisk: nat, holes: seq<Run>,
                 done: nat, journal: nat, t: T.Table)
    requires r.Closed? && Ext4Close.ClosedOk(r, R, k, d, gd, maxDisk, holes, done, journal, InUse(t))
    ensures r.ipg > 0 && r.ipg % 16 == 0 && |t| <= r.groups * r.ipg
  {
    hide Ext4Close.MapsDone, Ext4Close.InodeMapsDone, Ext4Close.BitsAgree, Ext4Close.OwnedRun, Ext4Close.Overruns;
    Ext4Close.BestPositive(r.table, |t|, r.groups, r.ipg);
    Groups.GeometryFits(r.table, |t|, r.groups, r.ipg);
  }

  lemma ImageFrom(R: iset<nat>, d: seq<byte>, k: Book, done: nat, t: T.Table, typ: nat -> nat, meta: seq<IR.Record>,
                  recs: map<nat, DirRec>, slots: IR.Slots, table: nat, groups: nat, ipg: nat, start: nat, journal: nat)
    requires FilesOk(R, d, k, done) && T.Valid(t) && MetaOk(t, meta) && AllRecorded(k, t, typ, recs) && |meta| == |t|
    requires RecsFit(t, recs) && SlotsAre(t, meta, recs, slots) && Ext4Close.RecordsOk(d, table, slots, start, journal)
    requires ipg > 0 && ipg % 16 == 0 && |t| <= groups * ipg && !T.Has(t, INODE_JOURNAL)
    ensures ImageReads(d, table, groups, ipg, t, typ, meta)
  {
    hide *;
    forall x: nat | T.Has(t, x) ensures Reads(d, table, groups, ipg, t, typ, meta, x) {
      RecsHave(t, recs, x);
      SlotReads(d, table, groups, ipg, t, meta, recs, slots, start, journal, x);
      DirReads(R, d, k, done, t, typ, meta, recs, table, groups, ipg, x);
    }
    AllRead(d, table, groups, ipg, t, typ, meta);
  }

  lemma RecsHave(t: T.Table, recs: map<nat, DirRec>, x: nat)
    requires RecsFit(t, recs) && T.Has(t, x)
    ensures T.N(t, x).isDir ==> x in recs
  {
  }

  lemma AllRead(d: seq<byte>, table: nat, groups: nat, ipg: nat, t: T.Table, typ: nat -> nat, meta: seq<IR.Record>)
    requires T.Valid(t) && MetaOk(t, meta) && |meta| == |t|
    requires forall x: nat :: T.Has(t, x) ==> Reads(d, table, groups, ipg, t, typ, meta, x)
    ensures ImageReads(d, table, groups, ipg, t, typ, meta)
  {
    hide Reads, MetaOk;
  }

  lemma RecordsKept(k: Book, k2: Book, t: T.Table, typ: nat -> nat, recs: map<nat, DirRec>)
    requires T.Valid(t) && AllRecorded(k, t, typ, recs) && Ext4Close.Keeps(k, k2)
    ensures AllRecorded(k2, t, typ, recs)
  {
    hide T.Valid, T.Parent, Shows, Recorded;
    forall x | T.IsDir(t, x) ensures Recorded(k2, t, typ, x, ParentOf(t, x), recs[x]) {
      RecordedStays(k, k2, t, typ, x, ParentOf(t, x), recs[x]);
    }
  }

  // ---- paths on the disk ----

  function LookUp(es: seq<DirBlock.DirEnt>, name: seq<byte>): (r: Option<nat>)
    ensures r.Some? <==> exists i :: 0 <= i < |es| && es[i].name == name
    ensures r.Some? ==> exists i :: 0 <= i < |es| && es[i].name == name && es[i].ino == r.value
  {
    if es == [] then None else
    var n := |es| - 1;
    if es[n].name == name then Some(es[n].ino) else
    var r := LookUp(es[..n], name);
    assert forall i :: 0 <= i < n ==> es[..n][i] == es[i];
    r
  }

  /** One step on the disk: the inode from the table, its data through its extents, and the
      entry in what read_dir lists. */
  ghost function DiskNext(d: seq<byte>, table: nat, groups: nat, ipg: nat, x: nat, name: seq<byte>): Option<nat> {
    var r := ReadInode(d, table, groups, ipg, x);
    if r.None? || !DirMode(r.value) || DataOf(d, r.value).None? then None
    else
      var es := DirBlock.Read(DataOf(d, r.value).value);
      if es.None? then None else LookUp(es.value, name)
  }

  /** Where a path leads on the disk, from the root. */
  ghost function DiskFind(d: seq<byte>, table: nat, groups: nat, ipg: nat, path: seq<seq<byte>>): Option<nat> {
    if path == [] then Some(T.INODE_ROOT) else
    var up := DiskFind(d, table, groups, ipg, path[..|path| - 1]);
    if up.None? then None else DiskNext(d, table, groups, ipg, up.value, path[|path| - 1])
  }

  /** Names are text, as the strings they come from. */
  ghost predicate TextNames(t: T.Table) { forall d: nat, n, c: nat :: T.Binds(t, d, n, c) ==> Utf8(n) }

  lemma LookUpListed(children: map<seq<byte>, nat>, typ: nat -> nat, es: seq<DirBlock.DirEnt>, name: seq<byte>)
    requires DirBlock.Listing(children, typ, es)
    ensures LookUp(es, name) == if name in children then Some(children[name]) else None
  {
    hide LookUp, DirBlock.Before;
  }

  /** Every path leads to the same inode in the tree and on the disk. */
  lemma {:induction false} DiskFindIs(d: seq<byte>, table: nat, groups: nat, ipg: nat, t: T.Table, typ: nat -> nat,
                                      meta: seq<IR.Record>, path: seq<seq<byte>>)
    requires T.Valid(t) && TextNames(t) && ImageReads(d, table, groups, ipg, t, typ, meta)
    ensures DiskFind(d, table, groups, ipg, path) == T.Find(t, path)
  {
    hide *;
    if path == [] { RootFound(d, table, groups, ipg, t, path); } else {
      var n := |path| - 1;
      DiskFindIs(d, table, groups, ipg, t, typ, meta, path[..n]);
      FindStep(t, path);
      DiskStep(d, table, groups, ipg, path);
      var up := T.Find(t, path[..n]);
      if up.Some? { StepAgrees(d, table, groups, ipg, t, typ, meta, path, up.value); }
    }
  }

  lemma RootFound(d: seq<byte>, table: nat, groups: nat, ipg: nat, t: T.Table, path: seq<seq<byte>>)
    requires path == []
    ensures DiskFind(d, table, groups, ipg, path) == T.Find(t, path)
  {
  }

  lemma DiskStep(d: seq<byte>, table: nat, groups: nat, ipg: nat, path: seq<seq<byte>>)
    requires path != []
    ensures var up := DiskFind(d, table, groups, ipg, path[..|path| - 1]);
      DiskFind(d, table, groups, ipg, path) ==
        if up.None? then None else DiskNext(d, table, groups, ipg, up.value, path[|path| - 1])
  {
    hide DiskNext;
  }

  lemma StepAgrees(d: seq<byte>, table: nat, groups: nat, ipg: nat, t: T.Table, typ: nat -> nat, meta: seq<IR.Record>,
                   path: seq<seq<byte>>, x: nat)
    requires T.Valid(t) && TextNames(t) && ImageReads(d, table, groups, ipg, t, typ, meta)
    requires path != [] && T.Find(t, path[..|path| - 1]) == Some(x)
    ensures DiskNext(d, table, groups, ipg, x, path[|path| - 1]) == T.Find(t, path)
  {
    hide *;
    FoundHas(t, path[..|path| - 1]);
    FindStep(t, path);
    ModeOnDisk(d, table, groups, ipg, t, typ, meta, x);
    if T.N(t, x).isDir {
      StepOnDisk(d, table, groups, ipg, t, typ, meta, x, path[|path| - 1]);
      NextIs(d, table, groups, ipg, x, path[|path| - 1]);
    } else {
      NoChildren(t, x, path);
      NextIs(d, table, groups, ipg, x, path[|path| - 1]);
    }
  }

  lemma FoundHas(t: T.Table, path: seq<seq<byte>>)
    requires T.Valid(t) && T.Find(t, path).Some?
    ensures T.Has(t, T.Find(t, path).value)
  {
    T.Found(t, path);
  }

  lemma NextIs(d: seq<byte>, table: nat, groups: nat, ipg: nat, x: nat, name: seq<byte>)
    requires ReadInode(d, table, groups, ipg, x).Some?
    ensures var r := ReadInode(d, table, groups, ipg, x).value;
      && (!DirMode(r) ==> DiskNext(d, table, groups, ipg, x, name) == None)
      && (DirMode(r) && DataOf(d, r).Some? && DirBlock.Read(DataOf(d, r).value).Some? ==>
            DiskNext(d, table, groups, ipg, x, name) == LookUp(DirBlock.Read(DataOf(d, r).value).value, name))
  {
    hide ReadInode, DirMode, DataOf, DirBlock.Read, LookUp;
  }

  lemma ModeOnDisk(d: seq<byte>, table: nat, groups: nat, ipg: nat, t: T.Table, typ: nat -> nat, meta: seq<IR.Record>,
                   x: nat)
    requires T.Valid(t) && ImageReads(d, table, groups, ipg, t, typ, meta) && T.Has(t, x)
    ensures ReadInode(d, table, groups, ipg, x).Some?
    ensures DirMode(ReadInode(d, table, groups, ipg, x).value) <==> T.N(t, x).isDir
  {
    hide T.Valid, ReadInode, DataOf, Shows, T.Parent;
    assert Reads(d, table, groups, ipg, t, typ, meta, x);
    var r, m := ReadInode(d, table, groups, ipg, x).value, meta[x - 1];
    assert T.N(t, x).isDir ==> Rest(r).mode == Rest(m).mode;
  }

  lemma StepOnDisk(d: seq<byte>, table: nat, groups: nat, ipg: nat, t: T.Table, typ: nat -> nat, meta: seq<IR.Record>,
                   x: nat, name: seq<byte>)
    requires T.Valid(t) && TextNames(t) && ImageReads(d, table, groups, ipg, t, typ, meta) && T.Has(t, x)
    requires T.N(t, x).isDir
    requires ReadInode(d, table, groups, ipg, x).Some?
    ensures var b := DataOf(d, ReadInode(d, table, groups, ipg, x).value);
      b.Some? && DirBlock.Read(b.value).Some?
      && LookUp(DirBlock.Read(b.value).value, name) ==
         if name in T.N(t, x).children then Some(T.N(t, x).children[name]) else None
  {
    hide T.Valid, DirBlock.Parse, LookUp, ReadInode, DataOf, DirBlock.StartsWithDots, T.Parent, TextNames, MetaOk,
         DirBlock.Listing;
    SameLength(t, meta);
    assert Reads(d, table, groups, ipg, t, typ, meta, x);
    var b := DataOf(d, ReadInode(d, table, groups, ipg, x).value).value;
    ListedText(t, typ, x, DirBlock.Parse(b, 0));
    LookUpListed(T.N(t, x).children, typ, DirBlock.Parse(b, 0), name);
  }

  lemma ListedText(t: T.Table, typ: nat -> nat, x: nat, es: seq<DirBlock.DirEnt>)
    requires T.Has(t, x) && TextNames(t) && DirBlock.Listing(T.N(t, x).children, typ, es)
    ensures DirBlock.AllText(es)
  {
    hide Utf8, DirBlock.Before;
    forall i | 0 <= i < |es|
      ensures Utf8(es[i].name)
    {
      assert T.Binds(t, x, es[i].name, T.N(t, x).children[es[i].name]);
    }
  }

  lemma FindStep(t: T.Table, path: seq<seq<byte>>)
    requires path != []
    ensures var up, c := T.Find(t, path[..|path| - 1]), path[|path| - 1];
      T.Find(t, path) ==
        if up.Some? && T.Has(t, up.value) && c in T.N(t, up.value).children
        then Some(T.N(t, up.value).children[c]) else None
  {
  }

  lemma NoChildren(t: T.Table, d: nat, path: seq<seq<byte>>)
    requires T.Valid(t) && path != [] && T.Find(t, path[..|path| - 1]) == Some(d) && T.Has(t, d) && !T.N(t, d).isDir
    ensures T.Find(t, path).None?
  {
    var c := path[|path| - 1];
    if c in T.N(t, d).children { assert T.Binds(t, d, c, T.N(t, d).children[c]); assert false; }
  }
}
