/** Finalizing an ext4 image: journal, inode table and bitmaps are placed on
    clear runs, and the bitmaps agree with everything that was allocated. */
module Ext4Close {
  import opened Arith
  import opened Bytes
  import opened SparseSuper
  import opened FreeBlocks
  import opened ExtentTree
  import opened Ledger
  import opened Ext4Writer
  import opened Groups
  import Bitmap
  import IR = InodeRecord

  // ---- the inode table is always clear of backup regions ----

  /** Best never asks for more than one table block per group beyond the inodes' own. */
  lemma TableSize(blocks: nat, inodes: nat, g: nat, ipg: nat)
    requires Best(blocks, inodes, g, ipg)
    ensures g * (ipg / INCREMENT) <= inodes / INCREMENT + g
  {
    if ipg > INCREMENT {
      var p := ipg - INCREMENT;
      if g * p >= inodes { FeasibleSmaller(g, blocks, inodes, p, ipg); assert false; }
      assert g * ipg == g * p + g * INCREMENT;
    }
    assert ipg == ipg / INCREMENT * INCREMENT;
    assert g * ipg == g * (ipg / INCREMENT) * INCREMENT;
  }

  lemma GroupsBound(blocks: nat, inodes: nat, g: nat, ipg: nat)
    requires Best(blocks, inodes, g, ipg) && blocks < U32_LIMIT && inodes <= MAX_INODES
    ensures g <= 139822
  {
    assert Feasible(139822, blocks, inodes, MAX_INODES_PER_GROUP);
  }

  /** Backup groups at most eight apart are among the first seven. */
  lemma CloseBackups(q: nat, r: nat)
    requires 1 <= q < r <= q + 8 && r <= 131073 && BackupGroup(q) && BackupGroup(r)
    ensures r <= 27 && r >= q + 2
  {
    BackupGroupsListed(q);
    BackupGroupsListed(r);
  }

  /** If a later start was needed, it is the end of a backup region. */
  lemma FitAfterRegion(R: iset<nat>, gd: nat, lim: nat, a: nat, n: nat, start: nat)
    requires Layout(R, gd) && gd <= 1024 && n > 0 && FirstFit(R, lim, a, n, start) && a < start < lim
    ensures var q := (start - 1) / BLOCKS_PER_GROUP; q >= 1 && BackupGroup(q) && start == q * BLOCKS_PER_GROUP + 1 + gd
  {
    var s := start - 1;
    assert Blocked(R, lim, s, n);
    assert s in R && start !in R;
    assert Reserved(gd, s) && !Reserved(gd, start);
  }

  /** Near the front of the disk the geometry does not change with the offset. */
  lemma SameGeometry(b0: nat, offset: nat, inodes: nat, g0: nat, ipg0: nat, g1: nat, ipg1: nat)
    requires Best(b0, inodes, g0, ipg0) && Best(offset, inodes, g1, ipg1)
    requires b0 <= offset <= 829386 && g1 >= 28
    ensures g1 == g0 && ipg1 <= ipg0
  {
    assert Feasible(g1, b0, inodes, ipg1);
    var h := if g0 < 27 then 27 else g0;
    MulMonotone(27, h, DataPerGroup(ipg0));
    MulMonotone(30718, DataPerGroup(ipg0), 27);
    MulMonotone(g0, h, ipg0);
    assert Feasible(h, offset, inodes, ipg0);
  }

  /** A table that starts after a backup region and reaches the next one is so
      long that the geometry did not change, and then its run was long enough. */
  lemma ReachingTable(gd: nat, q: nat, b0: nat, offset: nat, inodes: nat, g0: nat, ipg0: nat, g1: nat, ipg1: nat,
                      b: nat)
    requires gd <= 1024 && 1 <= q && BackupGroup(q) && offset == q * BLOCKS_PER_GROUP + 1 + gd
    requires inodes <= MAX_INODES && b0 <= offset < U32_LIMIT && b < 131074 * BLOCKS_PER_GROUP
    requires Best(b0, inodes, g0, ipg0) && Best(offset, inodes, g1, ipg1)
    requires Reserved(gd, b) && offset <= b < offset + g1 * (ipg1 / INCREMENT)
    ensures g1 * (ipg1 / INCREMENT) <= (g0 + 1) * (ipg0 / INCREMENT) + 2
  {
    TableSize(offset, inodes, g1, ipg1);
    GroupsBound(offset, inodes, g1, ipg1);
    hide Best, Feasible;
    NearRegion(gd, q, offset, b, g1 * (ipg1 / INCREMENT));
    ManyGroups(g1, ipg1);
    SameGeometry(b0, offset, inodes, g0, ipg0, g1, ipg1);
    TableShrinks(g0, ipg0, ipg1);
  }

  /** The table laid down after recomputing the geometry may be longer than the
      run that was reserved, and still never meets a backup region. */
  lemma InodeTableClear(R: iset<nat>, gd: nat, lim: nat, b0: nat, offset: nat, inodes: nat, g0: nat, ipg0: nat,
                        g1: nat, ipg1: nat)
    requires Layout(R, gd) && gd <= 1024 && lim <= 131074 * BLOCKS_PER_GROUP && inodes <= MAX_INODES
    requires offset < U32_LIMIT
    requires Best(b0, inodes, g0, ipg0) && Best(offset, inodes, g1, ipg1)
    requires FirstFit(R, lim, b0, (g0 + 1) * (ipg0 / INCREMENT) + 2, offset)
    ensures forall b :: offset <= b < offset + g1 * (ipg1 / INCREMENT) && b < lim ==> b !in R
  {
    hide Best, FirstFit, Reserved;
    var n0, t1 := (g0 + 1) * (ipg0 / INCREMENT) + 2, g1 * (ipg1 / INCREMENT);
    FitFrom(R, lim, b0, n0, offset);
    if t1 <= n0 {
      FitIsClear(R, lim, b0, n0, offset, t1);
    } else {
      if offset == b0 { SameBest(b0, inodes, g0, ipg0, g1, ipg1); TableShrinks(g0, ipg0, ipg1); assert false; }
      forall b | offset <= b < offset + t1 && b < lim ensures b !in R {
        if b in R {
          assert Reserved(gd, b);
          FitAfterRegion(R, gd, lim, b0, n0, offset);
          ReachingTable(gd, (offset - 1) / BLOCKS_PER_GROUP, b0, offset, inodes, g0, ipg0, g1, ipg1, b);
          assert false;
        }
      }
    }
  }

  lemma FitFrom(R: iset<nat>, lim: nat, a: nat, n: nat, start: nat)
    requires FirstFit(R, lim, a, n, start)
    ensures a <= start
  {
  }

  lemma FitIsClear(R: iset<nat>, lim: nat, a: nat, n: nat, start: nat, t: nat)
    requires FirstFit(R, lim, a, n, start) && t <= n
    ensures forall b :: start <= b < start + t && b < lim ==> b !in R
  {
  }

  lemma TableShrinks(g: nat, p0: nat, p1: nat)
    requires p1 <= p0
    ensures g * (p1 / INCREMENT) <= (g + 1) * (p0 / INCREMENT) + 2
  {
    MulMonotone(p1 / INCREMENT, p0 / INCREMENT, g);
  }

  lemma SameBest(blocks: nat, inodes: nat, g0: nat, ipg0: nat, g1: nat, ipg1: nat)
    requires Best(blocks, inodes, g0, ipg0) && Best(blocks, inodes, g1, ipg1)
    ensures g0 == g1 && ipg0 == ipg1
  {
  }

  lemma NearRegion(gd: nat, q: nat, offset: nat, b: nat, t1: nat)
    requires gd <= 1024 && 1 <= q && BackupGroup(q) && offset == q * BLOCKS_PER_GROUP + 1 + gd
    requires Reserved(gd, b) && offset <= b < offset + t1 && t1 <= 270907 && b < 131074 * BLOCKS_PER_GROUP
    ensures offset <= 829386 && t1 > 64510
  {
    var r := b / BLOCKS_PER_GROUP;
    assert r > q;
    CloseBackups(q, r);
  }

  lemma ManyGroups(g: nat, ipg: nat)
    requires Permitted(ipg) && g * (ipg / INCREMENT) > 64510
    ensures g >= 28
  {
    if g < 28 { MulMonotone(g, 27, ipg / INCREMENT); }
  }

  // ---- where the bitmaps end ----

  /** Some backup region that a run of `2 * groups` blocks at `s` would meet pushes it past
      the last group. */
  ghost predicate Overruns(gd: nat, s: nat, groups: nat) {
    exists q: nat :: Pushes(gd, s, groups, q) && q * BLOCKS_PER_GROUP + 1 + gd + 2 * groups > groups * BLOCKS_PER_GROUP
  }

  /** The region of backup group `q` meets a run of `2 * groups` blocks at `s`. */
  ghost predicate Pushes(gd: nat, s: nat, groups: nat, q: nat) {
    1 <= q && BackupGroup(q) && s < q * BLOCKS_PER_GROUP + 1 + gd && q * BLOCKS_PER_GROUP < s + 2 * groups
  }

  lemma FewGroups(table: nat, inodes: nat, groups: nat, ipg: nat)
    requires Best(table, inodes, groups, ipg) && inodes <= MAX_INODES && table <= 28 * BLOCKS_PER_GROUP
    ensures groups <= 65
  {
    assert Feasible(65, table, inodes, MAX_INODES_PER_GROUP);
  }

  /** After a backup region near a table this long, the bitmaps meet no second region. */
  lemma OneRegion(gd: nat, table: nat, inodes: nat, groups: nat, ipg: nat, q: nat, b: nat)
    requires Best(table, inodes, groups, ipg) && inodes <= MAX_INODES && table < U32_LIMIT && gd <= 1024
    requires 1 <= q && BackupGroup(q) && table < q * BLOCKS_PER_GROUP + 1 + gd && b < 131074 * BLOCKS_PER_GROUP
    requires q * BLOCKS_PER_GROUP + 1 + gd <= b < q * BLOCKS_PER_GROUP + 1 + gd + 2 * groups
    ensures !Reserved(gd, b)
  {
    GroupsBound(table, inodes, groups, ipg);
    var r := b / BLOCKS_PER_GROUP;
    if r > q && BackupGroup(r) {
      CloseBackups(q, r);
      FewGroups(table, inodes, groups, ipg);
    }
  }

  /** Every start up to the end of a region in the way is blocked. */
  lemma PushedPast(R: iset<nat>, gd: nat, lim: nat, s: nat, groups: nat, start: nat, q: nat)
    requires Layout(R, gd) && gd <= 1024 && FirstFit(R, lim, s, 2 * groups, start) && Pushes(gd, s, groups, q)
    requires (q + 1) * BLOCKS_PER_GROUP <= lim && groups > 0
    ensures start >= q * BLOCKS_PER_GROUP + 1 + gd
  {
    var r := if s < q * BLOCKS_PER_GROUP then q * BLOCKS_PER_GROUP else s;
    assert r / BLOCKS_PER_GROUP == q && Reserved(gd, r);
    BlockedUpTo(R, gd, lim, s, 2 * groups, r, q);
  }

  /** Bitmaps that do not go right behind the inode table go behind the one region in the way. */
  lemma BitmapsMoved(R: iset<nat>, gd: nat, lim: nat, table: nat, inodes: nat, groups: nat, ipg: nat, s: nat,
                     start: nat) returns (q: nat)
    requires Layout(R, gd) && gd <= 1024 && lim <= 131074 * BLOCKS_PER_GROUP && inodes <= MAX_INODES
    requires table < U32_LIMIT && Best(table, inodes, groups, ipg) && table <= s < start
    requires s + 2 * groups <= groups * BLOCKS_PER_GROUP <= lim && FirstFit(R, lim, s, 2 * groups, start)
    ensures Pushes(gd, s, groups, q) && start == q * BLOCKS_PER_GROUP + 1 + gd
  {
    var n := 2 * groups;
    assert Blocked(R, lim, s, n);
    var r :| s <= r < s + n && r < lim && r in R;
    assert Reserved(gd, r);
    q := r / BLOCKS_PER_GROUP;
    var c := q * BLOCKS_PER_GROUP + 1 + gd;
    MulMonotone(q + 1, groups, BLOCKS_PER_GROUP);
    hide Best, Reserved, BackupGroup;
    forall b: nat | c <= b < c + n && b < lim ensures b !in R {
      OneRegion(gd, table, inodes, groups, ipg, q, b);
      assert !Reserved(gd, b);
    }
    assert !Blocked(R, lim, c, n);
    BlockedUpTo(R, gd, lim, s, n, r, q);
  }

  lemma BlockedUpTo(R: iset<nat>, gd: nat, lim: nat, s: nat, n: nat, r: nat, q: nat)
    requires Layout(R, gd) && Reserved(gd, r) && q == r / BLOCKS_PER_GROUP && s <= r < s + n && r < lim
    requires gd <= 1024
    ensures forall x :: s <= x < q * BLOCKS_PER_GROUP + 1 + gd && x < lim ==> Blocked(R, lim, x, n)
  {
    forall x | s <= x < q * BLOCKS_PER_GROUP + 1 + gd && x < lim ensures Blocked(R, lim, x, n) {
      if x <= r {
        assert r in R;
      } else {
        assert x / BLOCKS_PER_GROUP == q && Reserved(gd, x);
      }
    }
  }

  /** The bitmaps end past the last group exactly if a backup region pushes them there. */
  lemma BitmapsExactly(R: iset<nat>, gd: nat, lim: nat, table: nat, inodes: nat, groups: nat, ipg: nat, s: nat,
                       start: nat)
    requires Layout(R, gd) && gd <= 1024 && lim <= 131074 * BLOCKS_PER_GROUP && inodes <= MAX_INODES
    requires table < U32_LIMIT && Best(table, inodes, groups, ipg) && s == table + groups * (ipg / INCREMENT)
    requires groups * BLOCKS_PER_GROUP <= lim && FirstFit(R, lim, s, 2 * groups, start)
    ensures start + 2 * groups > groups * BLOCKS_PER_GROUP <==> Overruns(gd, s, groups)
  {
    GeometryFits(table, inodes, groups, ipg);
    hide Best, BackupGroup, FirstFit;
    FitFrom(R, lim, s, 2 * groups, start);
    if start + 2 * groups > groups * BLOCKS_PER_GROUP {
      var q := BitmapsMoved(R, gd, lim, table, inodes, groups, ipg, s, start);
    }
    if Overruns(gd, s, groups) {
      var q: nat :| Pushes(gd, s, groups, q) && q * BLOCKS_PER_GROUP + 1 + gd + 2 * groups > groups * BLOCKS_PER_GROUP;
      MulMonotone(q + 1, groups, BLOCKS_PER_GROUP);
      assert groups > 0;
      PushedPast(R, gd, lim, s, groups, start, q);
    }
  }

  /** Up to 15871 groups no backup region can do that. */
  lemma BitmapsFit(gd: nat, s: nat, groups: nat)
    requires gd <= 1024 && groups <= 15871 && s + 2 * groups <= groups * BLOCKS_PER_GROUP
    ensures !Overruns(gd, s, groups)
  {
    forall q: nat | Pushes(gd, s, groups, q)
      ensures q * BLOCKS_PER_GROUP + 1 + gd + 2 * groups <= groups * BLOCKS_PER_GROUP
    {
      assert q < groups;
    }
  }

  lemma LeastGroups(blocks: nat, h: nat, p: nat, groups: nat)
    requires Permitted(p) && h * DataPerGroup(p) >= blocks && groups >= 1 && (groups - 1) * 32765 < blocks
    ensures groups <= h
  {
    MulMonotone(DataPerGroup(p), 32765, h);
  }

  lemma BestWithFewInodes(blocks: nat, groups: nat)
    requires groups >= 1 && (groups - 1) * 32765 < blocks <= groups * 32765
    ensures Best(blocks, 11, groups, INCREMENT)
  {
    forall p: nat, h: nat | Permitted(p) && Feasible(h, blocks, 11, p)
      ensures groups <= h
    {
      LeastGroups(blocks, h, p, groups);
    }
  }

  /** A geometry close() can be in, on a 16 TiB disk with room to spare, where one does:
      19684 groups, just past the backup group 19683. */
  lemma BitmapsCanOverrun(table: nat, s: nat, groups: nat)
    requires groups == 19684 && table == 19683 * BLOCKS_PER_GROUP - 6600 - groups && s == table + groups
    ensures Best(table, 11, groups, INCREMENT) && s == table + groups * (INCREMENT / INCREMENT)
    ensures Overruns(1024, s, groups) && UsedGd(groups) <= 1024
    ensures (19683 * BLOCKS_PER_GROUP + 1025 + 2 * groups) * BLOCK <= MAX_MAX_DISK_SIZE
  {
    BestWithFewInodes(table, groups);
    BackupGroupsListed(19683);
    assert Pushes(1024, s, groups, 19683);
  }

  /** A geometry close() can be in with 131072 groups, all of whose blocks fit on a 16 TiB
      disk: the end of the last group is not a 32-bit block number. */
  lemma LastGroupTooHigh(table: nat, groups: nat)
    requires groups == 131072 && table == 4_294_541_316
    ensures Best(table, 11, groups, INCREMENT) && UsedGd(groups) <= 1024
    ensures (table + groups * (INCREMENT / INCREMENT) + 2 * groups) * BLOCK <= MAX_MAX_DISK_SIZE - BLOCK
    ensures !Overruns(1024, table + groups, groups) && (groups - 1 + 1) * BLOCKS_PER_GROUP >= U32_LIMIT
  {
    BestWithFewInodes(table, groups);
    var s := table + groups;
    forall q: nat ensures !Pushes(1024, s, groups, q) {
      if 1 <= q <= 131073 { BackupGroupsListed(q); }
    }
  }

  // ---- close ----

  /** Why close() panics: more inodes than the group count can handle; the 32-bit end of
      the journal run; a group whose end is not a 32-bit block number; the journal's size
      in sectors; the free count of the last group, when the bitmaps end past it. */
  datatype Cause =
    | Inodes
    | JournalEnd(end: nat)
    | GroupNumber(groups: nat)
    | JournalSectors(end: nat)
    | LastCount(end: nat)

  /** Where everything went, with each group's bitmaps and free counts and the totals of the
      superblock. Overlong is an image with blocks past its last group; NoSpace(end) one that
      needs `end` blocks; WentBack the cursor leaving 16 TiB for the front of the disk. */
  datatype Closed =
    | Closed(table: nat, groups: nat, ipg: nat, bitmaps: nat, valid: nat, diskSize: nat, journal: nat,
             maps: seq<seq<bv8>>, free: seq<nat>, inodeMaps: seq<seq<bv8>>, freeInodes: seq<nat>,
             totalFree: nat, totalFreeInodes: nat)
    | Overlong(end: nat)
    | NoSpace(end: nat)
    | Panicked(cause: Cause)
    | WentBack

  // ---- where things go, and why close can end otherwise ----

  /** The journal goes to the first fit from the cursor on; without one there is no run. */
  ghost predicate JournalPlace(R: iset<nat>, maxDisk: nat, done: nat, journal: nat, start: nat) {
    if journal == 0 then start == done else FirstFit(R, Limit(maxDisk), done, journal, start)
  }

  /** The table goes to the first fit for one group more than its cursor needs, with the
      geometry for where that is. */
  ghost predicate TablePlace(R: iset<nat>, maxDisk: nat, d1: nat, inodes: nat, table: nat, groups: nat, ipg: nat) {
    && Best(table, inodes, groups, ipg)
    && exists c0: Chosen :: Best(d1, inodes, c0.groups, c0.ipg) && FirstFit(R, Limit(maxDisk), d1, TableRun(c0), table)
  }

  function TableRun(c: Chosen): nat { (c.groups + 1) * (c.ipg / INCREMENT) + 2 }

  /** The end of the table, and of a disk with its bitmaps at `base`. */
  function TableEnd(table: nat, groups: nat, ipg: nat): nat { table + groups * (ipg / INCREMENT) }
  function DiskEnd(base: nat, groups: nat): nat
    requires groups > 0
  {
    Max(base + 2 * groups, (groups - 1) * BLOCKS_PER_GROUP + 1)
  }

  ghost predicate JournalStops(r: Closed, R: iset<nat>, maxDisk: nat, done: nat, journal: nat) {
    match r
    case NoSpace(end) =>
      && journal > 0 && end * BLOCK > maxDisk && end >= journal
      && FirstFit(R, Limit(maxDisk), done, journal, end - journal)
    case Panicked(JournalEnd(end)) =>
      && end >= U32_LIMIT && end >= journal && done <= end - journal
      && Straddles(R, Limit(maxDisk), done, end - journal, journal)
      && exists b :: end - journal <= b < Limit(maxDisk) && b in R
    case Panicked(JournalSectors(end)) =>
      && journal * 8 >= U32_LIMIT && end * BLOCK <= maxDisk && end >= journal
      && FirstFit(R, Limit(maxDisk), done, journal, end - journal)
    case WentBack => done == U32_LIMIT && journal > BLOCKS_PER_GROUP
    case _ => false
  }

  ghost predicate TableStops(r: Closed, R: iset<nat>, maxDisk: nat, d1: nat, inodes: nat) {
    match r
    case Panicked(Inodes) => inodes > MAX_INODES
    case WentBack =>
      d1 == U32_LIMIT && exists c0: Chosen :: Best(0, inodes, c0.groups, c0.ipg) && TableRun(c0) > BLOCKS_PER_GROUP
    case NoSpace(end) =>
      && end * BLOCK > maxDisk
      && (d1 == U32_LIMIT
          || exists t: Tables :: TablePlace(R, maxDisk, d1, inodes, t.table, t.groups, t.ipg)
                                 && end == TableEnd(t.table, t.groups, t.ipg))
    case _ => false
  }

  ghost predicate BitmapsStop(r: Closed, R: iset<nat>, gd: nat, maxDisk: nat, table: nat, groups: nat, ipg: nat)
    requires groups > 0
  {
    var s, n := TableEnd(table, groups, ipg), 2 * groups;
    match r
    case NoSpace(end) =>
      end * BLOCK > maxDisk && exists base :: FirstFit(R, Limit(maxDisk), s, n, base) && end == DiskEnd(base, groups)
    case Panicked(GroupNumber(g)) => g == groups && groups * BLOCKS_PER_GROUP >= U32_LIMIT
    case Panicked(LastCount(end)) =>
      && end >= n && FirstFit(R, Limit(maxDisk), s, n, end - n) && Overruns(gd, s, groups)
      && end > groups * BLOCKS_PER_GROUP && end % BLOCKS_PER_GROUP != 0
    case Overlong(end) =>
      && end >= n && FirstFit(R, Limit(maxDisk), s, n, end - n) && Overruns(gd, s, groups)
      && end > groups * BLOCKS_PER_GROUP && end % BLOCKS_PER_GROUP == 0
    case _ => false
  }

  datatype Tables = Tables(journal: nat, table: nat, groups: nat, ipg: nat)

  /** Journal and table fit the disk and go there. */
  ghost predicate TablesPlace(R: iset<nat>, maxDisk: nat, done: nat, journal: nat, inodes: nat, t: Tables) {
    && JournalPlace(R, maxDisk, done, journal, t.journal) && (journal > 0 ==> (t.journal + journal) * BLOCK <= maxDisk)
    && TablePlace(R, maxDisk, t.journal + journal, inodes, t.table, t.groups, t.ipg)
    && TableEnd(t.table, t.groups, t.ipg) * BLOCK <= maxDisk && t.groups > 0
  }

  /** Every other outcome follows from where the cursor stood: the journal, the table or the
      bitmaps stop it, each behind what was placed before. */
  ghost predicate Explained(r: Closed, R: iset<nat>, gd: nat, maxDisk: nat, done: nat, journal: nat, inodes: nat) {
    || JournalStops(r, R, maxDisk, done, journal)
    || (exists start: nat :: JournalPlace(R, maxDisk, done, journal, start)
          && (journal > 0 ==> (start + journal) * BLOCK <= maxDisk)
          && TableStops(r, R, maxDisk, start + journal, inodes))
    || exists t: Tables :: TablesPlace(R, maxDisk, done, journal, inodes, t)
                           && BitmapsStop(r, R, gd, maxDisk, t.table, t.groups, t.ipg)
  }

  lemma TableExplains(r: Closed, R: iset<nat>, gd: nat, maxDisk: nat, done: nat, journal: nat, inodes: nat, start: nat)
    requires JournalPlace(R, maxDisk, done, journal, start) && (journal > 0 ==> (start + journal) * BLOCK <= maxDisk)
    requires TableStops(r, R, maxDisk, start + journal, inodes)
    ensures Explained(r, R, gd, maxDisk, done, journal, inodes) && !r.Closed?
  {
    hide JournalPlace, JournalStops;
  }

  lemma BitmapsExplain(r: Closed, R: iset<nat>, gd: nat, maxDisk: nat, done: nat, journal: nat, inodes: nat, t: Tables)
    requires TablesPlace(R, maxDisk, done, journal, inodes, t)
    requires BitmapsStop(r, R, gd, maxDisk, t.table, t.groups, t.ipg)
    ensures Explained(r, R, gd, maxDisk, done, journal, inodes) && !r.Closed?
  {
    hide JournalPlace, TableStops, JournalStops, TablePlace, FirstFit, Overruns;
  }

  lemma JournalExplains(r: Closed, R: iset<nat>, gd: nat, maxDisk: nat, done: nat, journal: nat, inodes: nat)
    requires JournalStops(r, R, maxDisk, done, journal)
    ensures Explained(r, R, gd, maxDisk, done, journal, inodes) && !r.Closed?
  {
  }

  /** There is one first fit on the disk. */
  lemma OneFit(R: iset<nat>, maxDisk: nat, a: nat, n: nat, s1: nat, s2: nat)
    requires FirstFit(R, Limit(maxDisk), a, n, s1) && FirstFit(R, Limit(maxDisk), a, n, s2) && s1 * BLOCK <= maxDisk
    ensures s1 <= s2 && (s2 * BLOCK <= maxDisk ==> s1 == s2)
  {
    assert s1 < s2 ==> !Blocked(R, Limit(maxDisk), s1, n);
  }

  /** So journal, table and geometry are determined by where the cursor stands. */
  lemma OnePlace(R: iset<nat>, maxDisk: nat, done: nat, journal: nat, inodes: nat, t: Tables, u: Tables)
    requires TablesPlace(R, maxDisk, done, journal, inodes, t) && TablesPlace(R, maxDisk, done, journal, inodes, u)
    ensures t == u
  {
    hide Best, FirstFit;
    if journal > 0 { OneFit(R, maxDisk, done, journal, t.journal, u.journal); }
    OneTable(R, maxDisk, t.journal + journal, inodes, t, u);
  }

  lemma OneTable(R: iset<nat>, maxDisk: nat, d1: nat, inodes: nat, t: Tables, u: Tables)
    requires TablePlace(R, maxDisk, d1, inodes, t.table, t.groups, t.ipg)
    requires TablePlace(R, maxDisk, d1, inodes, u.table, u.groups, u.ipg)
    requires t.table * BLOCK <= maxDisk && u.table * BLOCK <= maxDisk
    ensures t.table == u.table && t.groups == u.groups && t.ipg == u.ipg
  {
    hide Best, FirstFit;
    var c: Chosen :| Best(d1, inodes, c.groups, c.ipg) && FirstFit(R, Limit(maxDisk), d1, TableRun(c), t.table);
    var d: Chosen :| Best(d1, inodes, d.groups, d.ipg) && FirstFit(R, Limit(maxDisk), d1, TableRun(d), u.table);
    SameBest(d1, inodes, c.groups, c.ipg, d.groups, d.ipg);
    OneFit(R, maxDisk, d1, TableRun(c), t.table, u.table);
    SameBest(t.table, inodes, t.groups, t.ipg, u.groups, u.ipg);
  }

  lemma FitAtTop(R: iset<nat>, gd: nat, maxDisk: nat, n: nat)
    requires Layout(R, gd) && maxDisk <= MAX_MAX_DISK_SIZE
    ensures FirstFit(R, Limit(maxDisk), U32_LIMIT, n, U32_LIMIT)
  {
    forall b | U32_LIMIT <= b < Limit(maxDisk) ensures b !in R { NoReservedNearTop(R, gd, b); }
  }

  /** write_journal: one contiguous run clear of backup regions. */
  method PlaceJournal(w: Writer, blocks: nat) returns (stop: Option<Closed>, start: nat)
    requires w.Valid() && !w.open && blocks < U32_LIMIT
    modifies w
    ensures stop.None? ==> w.Valid() && !w.open && old(w.done) <= start && w.done == start + blocks
    ensures stop.None? ==> JournalPlace(w.R, w.maxDisk, old(w.done), blocks, start)
    ensures stop.None? ==> (blocks > 0 ==> w.done * BLOCK <= w.maxDisk)
    ensures stop.None? ==> blocks * 8 < U32_LIMIT
    ensures stop.None? ==>
      w.book == ClaimFor(w.R, old(w.book), start, w.done, Journal) && forall b :: start <= b < w.done ==> b !in w.R
    ensures stop.Some? ==> JournalStops(stop.value, w.R, w.maxDisk, old(w.done), blocks)
  {
    hide Partition, AllOwn, FilesOk, Layout, FirstFit, GdBlocks, ClaimFor, WriteAt, Straddles;
    if blocks == 0 { NoClaim(w.R, w.book, w.done, Journal); return None, w.pos / BLOCK; }
    var fit := w.ReserveContiguous(blocks);
    start := w.pos / BLOCK;
    CursorBlock(w.pos);
    if fit.Overflow? { return Some(Panicked(JournalEnd(w.Block() + blocks))), start; }
    if fit.Rewound? { return Some(WentBack), start; }
    if w.pos < MAX_MAX_DISK_SIZE { FitIsClear(w.R, Limit(w.maxDisk), old(w.done), blocks, start, blocks); }
    else { FitAtTop(w.R, w.gd, w.maxDisk, blocks); }
    var ok := w.WriteRun(Journal, Zeros(blocks * BLOCK));
    if !ok { return Some(NoSpace(start + blocks)), start; }
    if blocks * 8 >= U32_LIMIT { return Some(Panicked(JournalSectors(start + blocks))), start; }
    return None, start;
  }

  /** The extent data of the journal's inode: one extent at the run's start, whose length is
      cut to 16 bits, so it covers the journal exactly below 65536 blocks. */
  method JournalInode(start: nat, blocks: nat) returns (bd: seq<byte>)
    requires start < U32_LIMIT
    ensures |bd| == INODE_DATA_SIZE && forall d :: Resolve(d, bd) == Some([Extent(start, blocks % 0x1_0000)])
    ensures (forall d :: Resolve(d, bd) == Some([Extent(start, blocks)])) <==> blocks < 0x1_0000
  {
    hide Resolve;
    var leaves := [Leaf(0, start, blocks % 0x1_0000)];
    bd := EncodeNode(leaves, 4, INODE_DATA_SIZE);
    forall d ensures Resolve(d, bd) == Some([Extent(start, blocks % 0x1_0000)]) {
      InlineRootResolves(d, bd, leaves);
      assert ExtentsOf(leaves) == [Extent(start, blocks % 0x1_0000)];
    }
    assert Resolve([], bd) == Some([Extent(start, blocks % 0x1_0000)]);
  }

  /** A record that reads as the journal's inode. */
  ghost predicate JournalRecord(b: seq<byte>, start: nat, blocks: nat) {
    && |b| == IR.SIZE
    && var r := IR.Parse(b);
       && r.mode == IR.S_IFREG * 0x1000 + 0x180 && r.size == blocks * BLOCK && r.blocks == blocks * 8 && r.links == 1
       && r.flags == IR.EXTENTS && forall d :: Resolve(d, r.area) == Some([Extent(start, blocks % 0x1_0000)])
  }

  method JournalSlot(start: nat, blocks: nat) returns (b: seq<byte>)
    requires start < U32_LIMIT && blocks * 8 < U32_LIMIT
    ensures JournalRecord(b, start, blocks)
  {
    hide Resolve, IR.Encode, IR.Parse;
    var bd := JournalInode(start, blocks);
    var r := IR.Record(IR.S_IFREG * 0x1000 + 0x180, 0, 0, blocks * BLOCK, 0, 0, 0, 0, 1, blocks * 8, IR.EXTENTS, 0, bd,
                       Zeros(IR.EXTRA));
    b := IR.Encode(r);
    IR.RoundTrip(r);
  }

  /** The slots with the journal's inode among them. */
  ghost predicate WithJournal(slots: IR.Slots, start: nat, blocks: nat, all: IR.Slots) {
    && |all| == |slots| > 7 && IR.SlotsOk(all)
    && (forall i :: 0 <= i < |slots| && (i != 7 || blocks == 0) ==> all[i] == slots[i])
    && (blocks > 0 ==> all[7].Some? && JournalRecord(all[7].value, start, blocks))
  }

  method AddJournal(slots: IR.Slots, start: nat, blocks: nat) returns (all: IR.Slots)
    requires IR.SlotsOk(slots) && |slots| > 7 && (blocks > 0 ==> start < U32_LIMIT && blocks * 8 < U32_LIMIT)
    ensures WithJournal(slots, start, blocks, all)
  {
    all := slots;
    if blocks > 0 {
      var b := JournalSlot(start, blocks);
      hide JournalRecord;
      JournalLength(b, start, blocks);
      all := slots[7 := Some(b)];
    }
  }

  lemma JournalLength(b: seq<byte>, start: nat, blocks: nat)
    requires JournalRecord(b, start, blocks)
    ensures |b| == IR.SIZE
  {
  }

  /** Every inode's record is in its slot of the table on disk. */
  ghost predicate RecordsOk(d: seq<byte>, table: nat, slots: IR.Slots, start: nat, blocks: nat) {
    && (forall i: nat :: i < |slots| && (i != 7 || blocks == 0) ==>
        ReadAt(d, table * BLOCK + i * IR.SIZE, IR.SIZE) == IR.SlotBytes(slots[i]))
    && (blocks > 0 ==> JournalRecord(ReadAt(d, table * BLOCK + 7 * IR.SIZE, IR.SIZE), start, blocks))
  }

  /** The table's bytes lie before the bitmaps, which are all that is written after it. */
  lemma RecordsKept(d: seq<byte>, d2: seq<byte>, table: nat, slots: IR.Slots, start: nat, blocks: nat, all: IR.Slots,
                    groups: nat, ipg: nat, end: nat)
    requires WithJournal(slots, start, blocks, all) && IR.TableDone(d, table, all)
    requires TableEnd(table, groups, ipg) <= end && SameBelow(d, d2, end * BLOCK)
    requires |slots| * IR.SIZE <= groups * ipg * 256 && ipg % INCREMENT == 0
    ensures RecordsOk(d2, table, slots, start, blocks)
  {
    hide JournalRecord, IR.SlotBytes;
    TableBytes(groups, ipg);
    assert table * BLOCK + |slots| * IR.SIZE <= end * BLOCK;
    IR.TableStays(d, d2, table, all, end * BLOCK);
    if blocks > 0 {
      SomeBytes(all[7]);
      assert ReadAt(d2, table * BLOCK + 7 * IR.SIZE, IR.SIZE) == all[7].value;
    }
  }

  lemma SomeBytes(s: Option<seq<byte>>)
    ensures s.Some? ==> IR.SlotBytes(s) == s.value
  {
  }

  ghost predicate SameBelow(d: seq<byte>, d2: seq<byte>, end: nat) {
    forall i: nat {:trigger At(d2, i)} :: i < end ==> At(d2, i) == At(d, i)
  }

  lemma SameSelf(d: seq<byte>, end: nat)
    ensures SameBelow(d, d, end)
  {
  }

  lemma SameThrough(d: seq<byte>, d1: seq<byte>, p: nat, b: seq<byte>, d2: seq<byte>, end: nat)
    requires SameBelow(d, d1, end) && d2 == WriteAt(d1, p, b) && end <= p
    ensures SameBelow(d, d2, end)
  {
  }

  lemma NoClaim(R: iset<nat>, k: Book, a: nat, o: Owner)
    ensures ClaimFor(R, k, a, a, o) == k
  {
    assert Claimed(R, a, a, o) == map[];
  }

  /** Every block of [a, e) belongs to `o`. */
  ghost predicate OwnedRun(k: Book, a: nat, e: nat, o: Owner) {
    forall b :: a <= b < e ==> b in k.claims && k.claims[b] == o
  }

  lemma RunOwned(R: iset<nat>, k: Book, a: nat, e: nat, o: Owner)
    requires forall b :: a <= b < e ==> b !in R
    ensures OwnedRun(ClaimFor(R, k, a, e, o), a, e, o)
  {
  }

  lemma RunStillOwned(R: iset<nat>, k: Book, a: nat, e: nat, o: Owner, a2: nat, e2: nat, o2: Owner)
    requires OwnedRun(k, a, e, o) && e <= a2
    ensures OwnedRun(ClaimFor(R, k, a2, e2, o2), a, e, o)
  {
  }

  /** Earlier claims and files are untouched. */
  ghost predicate Keeps(k: Book, k2: Book) {
    && k2.files == k.files && k2.clobbered == k.clobbered
    && forall b :: b in k.claims ==> b in k2.claims && k2.claims[b] == k.claims[b]
  }

  lemma ClaimKeeps(R: iset<nat>, lo: nat, done: nat, holes: seq<Run>, k0: Book, k: Book, a: nat, e: nat, o: Owner)
    requires Partition(R, lo, done, holes, k) && done <= a && Keeps(k0, k)
    ensures Keeps(k0, ClaimFor(R, k, a, e, o))
  {
  }

  lemma ClaimJoin(R: iset<nat>, k: Book, a: nat, b: nat, c: nat, o: Owner)
    requires a <= b <= c
    ensures ClaimFor(R, ClaimFor(R, k, a, b, o), b, c, o) == ClaimFor(R, k, a, c, o)
  {
    assert Claimed(R, a, b, o) + Claimed(R, b, c, o) == Claimed(R, a, c, o);
    assert k.claims + Claimed(R, a, b, o) + Claimed(R, b, c, o) == k.claims + Claimed(R, a, c, o);
  }

  lemma NoReservedNearTop(R: iset<nat>, gd: nat, b: nat)
    requires Layout(R, gd) && 4_000_000_000 <= b < 131074 * BLOCKS_PER_GROUP
    ensures b !in R
  {
    var g := b / BLOCKS_PER_GROUP;
    BackupGroupsListed(g);
    assert !Reserved(gd, b);
  }

  /** The 32-bit sum of reserve_contiguous only overflows for runs longer than any table. */
  lemma SumFits(R: iset<nat>, gd: nat, lim: nat, done: nat, n: nat)
    requires Layout(R, gd) && lim <= 131074 * BLOCKS_PER_GROUP && done + n >= U32_LIMIT && n <= 1_000_000
    ensures forall b :: done <= b < lim ==> b !in R
  {
    forall b | done <= b < lim ensures b !in R { NoReservedNearTop(R, gd, b); }
  }

  lemma TableRunLength(blocks: nat, inodes: nat, g: nat, ipg: nat)
    requires Best(blocks, inodes, g, ipg) && blocks < U32_LIMIT && inodes <= MAX_INODES
    ensures 0 < (g + 1) * (ipg / INCREMENT) + 2 <= 1_000_000
    ensures 0 < g * (ipg / INCREMENT) && g * ipg * 256 < U32_LIMIT
  {
    TableSize(blocks, inodes, g, ipg);
    GroupsBound(blocks, inodes, g, ipg);
    assert (g + 1) * (ipg / INCREMENT) == g * (ipg / INCREMENT) + ipg / INCREMENT;
    TableBytes(g, ipg);
    MulMonotone(1, g, ipg / INCREMENT);
  }

  /** The inode table: sized for the position it ends up at, on a clear run. */
  method PlaceInodeTable(w: Writer, slots: IR.Slots) returns (stop: Option<Closed>, table: nat, groups: nat, ipg: nat)
    requires w.Valid() && !w.open && |slots| < U32_LIMIT && IR.SlotsOk(slots)
    modifies w
    ensures stop.None? ==> w.Valid() && !w.open && TablePlace(w.R, w.maxDisk, old(w.done), |slots|, table, groups, ipg)
    ensures stop.None? ==> |slots| <= MAX_INODES && w.done == TableEnd(table, groups, ipg)
    ensures stop.None? ==> old(w.done) <= table < U32_LIMIT
    ensures stop.None? ==> w.done * BLOCK <= w.maxDisk && groups > 0
    ensures stop.None? ==>
      w.book == ClaimFor(w.R, old(w.book), table, w.done, InodeTable) && forall b :: table <= b < w.done ==> b !in w.R
    ensures stop.None? ==> IR.TableDone(w.disk, table, slots)
    ensures stop.Some? ==> TableStops(stop.value, w.R, w.maxDisk, old(w.done), |slots|)
  {
    hide Partition, AllOwn, FilesOk, Best, FirstFit, ClaimFor, Layout, GdBlocks, TablePlace, IR.FullTable,
         IR.TableDone, WriteAt, IR.SlotsOk;
    stop, table, groups, ipg := ReserveTable(w, |slots|);
    if stop.Some? { return; }
    TableBytes(groups, ipg);
    ghost var d := w.disk;
    var size := groups * ipg * 256;
    var ok := w.WriteRun(InodeTable, IR.FullTable(slots, size));
    if ok { IR.TableWritten(d, table, slots, size, w.disk); }
    if !ok {
      stop := Some(NoSpace(w.pos / BLOCK + groups * (ipg / INCREMENT)));
      ghost var t := Tables(0, table, groups, ipg);
      assert w.pos < MAX_MAX_DISK_SIZE ==> TablePlace(w.R, w.maxDisk, old(w.done), |slots|, t.table, t.groups, t.ipg);
    }
  }

  /** The clear run for the table and the geometry for its start. */
  method ReserveTable(w: Writer, inodes: nat) returns (stop: Option<Closed>, table: nat, groups: nat, ipg: nat)
    requires w.Valid() && !w.open && inodes < U32_LIMIT
    modifies w`pos, w`freeHoles, w`done
    ensures w.Valid() && !w.open && w.book == old(w.book) && old(w.done) <= w.done
    ensures stop.None? ==> inodes <= MAX_INODES && groups > 0 && groups * ipg * 256 >= inodes * 256
    ensures stop.None? ==> table == w.Block() && groups * (ipg / INCREMENT) > 0 && Permitted(ipg)
    ensures stop.None? && w.pos == MAX_MAX_DISK_SIZE ==> old(w.done) == U32_LIMIT
    ensures stop.None? && w.pos < MAX_MAX_DISK_SIZE ==>
      TablePlace(w.R, w.maxDisk, old(w.done), inodes, table, groups, ipg)
    ensures stop.None? && w.pos < MAX_MAX_DISK_SIZE ==>
      forall b :: table <= b < table + groups * (ipg / INCREMENT) && b < Limit(w.maxDisk) ==> b !in w.R
    ensures stop.Some? ==> TableStops(stop.value, w.R, w.maxDisk, old(w.done), inodes)
  {
    hide Partition, AllOwn, FilesOk, Best, FirstFit, Layout, GdBlocks;
    table, groups, ipg := 0, 0, 0;
    CursorBlock(w.pos);
    var c0 := BestGroupCount(w.Block(), inodes);
    if c0.None? { return Some(Panicked(Inodes)), table, groups, ipg; }
    TableRunLength(w.Block(), inodes, c0.value.groups, c0.value.ipg);
    var fit := w.ReserveContiguous(TableRun(c0.value));
    CursorBlock(w.pos);
    if fit.Overflow? { SumFits(w.R, w.gd, Limit(w.maxDisk), w.done, TableRun(c0.value)); assert false; }
    if fit.Rewound? { return Some(WentBack), table, groups, ipg; }
    table := fit.start;
    var c1 := BestGroupCount(table, inodes);
    stop, groups, ipg := None, c1.value.groups, c1.value.ipg;
    if w.pos < MAX_MAX_DISK_SIZE {
      InodeTableClear(w.R, w.gd, Limit(w.maxDisk), old(w.done), table, inodes, c0.value.groups, c0.value.ipg, groups,
                      ipg);
    }
    BestPositive(table, inodes, groups, ipg);
    GeometryFits(table, inodes, groups, ipg);
    TableRunLength(table, inodes, groups, ipg);
  }

  lemma TableBytes(groups: nat, ipg: nat)
    requires ipg % INCREMENT == 0
    ensures groups * ipg * 256 == groups * (ipg / INCREMENT) * BLOCK
    ensures (groups * ipg * 256) % BLOCK == 0 && groups * ipg * 256 / BLOCK == groups * (ipg / INCREMENT)
  {
    assert ipg == ipg / INCREMENT * INCREMENT;
    var t := groups * (ipg / INCREMENT);
    assert groups * ipg == t * INCREMENT;
    DivUnique(t * BLOCK, BLOCK, t, 0);
  }

  function ToBytes(m: seq<bv8>): (r: seq<byte>)
    ensures |r| == |m| && forall i :: 0 <= i < |m| ==> r[i] == m[i] as int
  {
    seq<byte>(|m|, i requires 0 <= i < |m| => m[i] as int)
  }

  /** Group `g`'s bitmap as close() computes it, with the clear bits as its free count. */
  ghost predicate GroupMap(g: nat, groups: nat, valid: nat, disk: nat, gd: nat, holes: seq<Run>, m: seq<bv8>, free: nat)
    requires groups > 0
  {
    && |m| == Bitmap.BYTES && free == Bitmap.Clear(m, Bitmap.BITS)
    && forall j: nat :: j < Bitmap.BITS ==>
         Bitmap.Bit(m, j) == (Bitmap.Base(g, groups, valid, disk, UsedGd(groups), gd, j)
                                 && !Bitmap.InHoles(holes, |holes|, g * BLOCKS_PER_GROUP + j))
  }

  /** Group `g`'s inode bitmap, with the clear bits as its free count. */
  ghost predicate InodeMap(g: nat, ipg: nat, inodes: seq<bool>, m: seq<bv8>, free: nat)
    requires ipg <= Bitmap.BITS
  {
    && |m| == Bitmap.BYTES && free == Bitmap.Clear(m, Bitmap.BITS)
    && forall j: nat :: j < Bitmap.BITS ==> Bitmap.Bit(m, j) == (j >= ipg || Bitmap.InodeUsed(inodes, 1 + g * ipg + j))
  }

  /** The first `n` groups' inode bitmaps are correct and on disk, each after its block bitmap. */
  ghost predicate InodeMapsDone(d: seq<byte>, base: nat, n: nat, ipg: nat, inodes: seq<bool>, maps: seq<seq<bv8>>,
                                used: seq<nat>)
    requires ipg <= Bitmap.BITS
  {
    && |maps| == |used| == n
    && forall g :: 0 <= g < n ==>
      InodeMap(g, ipg, inodes, maps[g], used[g]) && ReadAt(d, (base + 2 * g + 1) * BLOCK, BLOCK) == ToBytes(maps[g])
  }

  lemma InodeMapsExtend(d: seq<byte>, base: nat, n: nat, ipg: nat, inodes: seq<bool>, maps: seq<seq<bv8>>,
                        used: seq<nat>,
                        first: seq<byte>, m: seq<bv8>, u: nat, d2: seq<byte>)
    requires ipg <= Bitmap.BITS && InodeMapsDone(d, base, n, ipg, inodes, maps, used)
    requires InodeMap(n, ipg, inodes, m, u) && |first| == BLOCK
    requires d2 == WriteAt(d, (base + 2 * n) * BLOCK, first + ToBytes(m))
    ensures InodeMapsDone(d2, base, n + 1, ipg, inodes, maps + [m], used + [u])
  {
    hide InodeMap, WriteAt, ReadAt, ToBytes;
    InodeMapLength(n, ipg, inodes, m, u);
    var p, all := (base + 2 * n) * BLOCK, first + ToBytes(m);
    forall g | 0 <= g < n ensures ReadAt(d2, (base + 2 * g + 1) * BLOCK, BLOCK) == ToBytes(maps[g]) {
      ReadElsewhere(d, p, all, (base + 2 * g + 1) * BLOCK, BLOCK);
    }
    SecondPart(d, p, first, ToBytes(m), d2);
    assert p + BLOCK == (base + 2 * n + 1) * BLOCK;
  }

  lemma InodeMapLength(g: nat, ipg: nat, inodes: seq<bool>, m: seq<bv8>, u: nat)
    requires ipg <= Bitmap.BITS && InodeMap(g, ipg, inodes, m, u)
    ensures |m| == BLOCK
  {
  }

  lemma SecondPart(d: seq<byte>, p: nat, a: seq<byte>, b: seq<byte>, d2: seq<byte>)
    requires d2 == WriteAt(d, p, a + b)
    ensures ReadAt(d2, p + |a|, |b|) == b
  {
    forall i | 0 <= i < |b| ensures ReadAt(d2, p + |a|, |b|)[i] == b[i] {
      assert At(d2, p + (|a| + i)) == (a + b)[|a| + i];
    }
  }

  function UsedGd(groups: nat): nat
    requires groups > 0
  {
    (groups - 1) / GROUPS_PER_DESCRIPTOR_BLOCK + 1
  }

  /** The first `n` groups' bitmaps are correct and on disk. */
  ghost predicate MapsDone(d: seq<byte>, base: nat, n: nat, groups: nat, valid: nat, disk: nat, gd: nat,
                           holes: seq<Run>, maps: seq<seq<bv8>>, used: seq<nat>)
    requires groups > 0
  {
    && |maps| == |used| == n
    && forall g :: 0 <= g < n ==> GroupMap(g, groups, valid, disk, gd, holes, maps[g], used[g])
                                  && ReadAt(d, (base + 2 * g) * BLOCK, BLOCK) == ToBytes(maps[g])
  }

  lemma MapsExtend(d: seq<byte>, base: nat, n: nat, groups: nat, valid: nat, disk: nat, gd: nat, holes: seq<Run>,
                   maps: seq<seq<bv8>>, used: seq<nat>,
                   m: seq<bv8>, u: nat, rest: seq<byte>, d2: seq<byte>)
    requires groups > 0 && MapsDone(d, base, n, groups, valid, disk, gd, holes, maps, used)
    requires GroupMap(n, groups, valid, disk, gd, holes, m, u)
    requires d2 == WriteAt(d, (base + 2 * n) * BLOCK, ToBytes(m) + rest)
    ensures MapsDone(d2, base, n + 1, groups, valid, disk, gd, holes, maps + [m], used + [u])
  {
    MapLength(n, groups, valid, disk, gd, holes, m, u);
    hide GroupMap, WriteAt;
    forall g | 0 <= g < n ensures ReadAt(d2, (base + 2 * g) * BLOCK, BLOCK) == ToBytes(maps[g]) {
      ReadElsewhere(d, (base + 2 * n) * BLOCK, ToBytes(m) + rest, (base + 2 * g) * BLOCK, BLOCK);
    }
    FirstPart(d, (base + 2 * n) * BLOCK, ToBytes(m), rest, d2);
  }

  lemma MapLength(g: nat, groups: nat, valid: nat, disk: nat, gd: nat, holes: seq<Run>, m: seq<bv8>, u: nat)
    requires groups > 0 && GroupMap(g, groups, valid, disk, gd, holes, m, u)
    ensures |m| == BLOCK
  {
  }

  lemma FirstPart(d: seq<byte>, p: nat, a: seq<byte>, rest: seq<byte>, d2: seq<byte>)
    requires d2 == WriteAt(d, p, a + rest)
    ensures ReadAt(d2, p, |a|) == a
  {
    forall i | 0 <= i < |a| ensures ReadAt(d2, p, |a|)[i] == a[i] {
      assert At(d2, p + i) == (a + rest)[i];
    }
  }

  /** Where the disk ends past the last group, that group is full. */
  ghost predicate LastFull(groups: nat, valid: nat, holes: seq<Run>)
    requires groups > 0
  {
    valid > groups * BLOCKS_PER_GROUP ==>
      forall b: nat :: (groups - 1) * BLOCKS_PER_GROUP <= b < groups * BLOCKS_PER_GROUP ==>
        !Bitmap.InHoles(holes, |holes|, b)
  }

  /** Where the plan of the bitmaps puts everything. */
  ghost predicate Planned(gd: nat, maxDisk: nat, base: nat, groups: nat, valid: nat, disk: nat, holes: seq<Run>) {
    && groups > 0 && UsedGd(groups) <= gd <= 1024 && 1 + gd <= base && valid == base + 2 * groups
    && disk == DiskEnd(base, groups)
    && (groups - 1) * BLOCKS_PER_GROUP < disk && disk < U32_LIMIT
    && (disk > groups * BLOCKS_PER_GROUP ==> valid == disk && groups > 1)
    && (valid * BLOCK <= maxDisk ==> LastFull(groups, valid, holes))
  }

  /** The bitmaps of every group, two blocks each, on one clear run. */
  method PlaceBitmaps(w: Writer, table: nat, groups: nat, ipg: nat, inodes: seq<bool>, journal: nat) returns (r: Closed)
    requires w.Valid() && !w.open && Best(table, |inodes|, groups, ipg) && |inodes| <= MAX_INODES && table < U32_LIMIT
    requires w.done == table + groups * (ipg / INCREMENT) && 1 + w.gd <= table
    modifies w
    ensures r.Closed? ==> w.Valid() && !w.open && w.done == r.valid && r.groups == groups && r.ipg == ipg
    ensures r.Closed? ==> old(w.done) <= r.bitmaps
    ensures r.Closed? ==> r.valid <= r.diskSize <= groups * BLOCKS_PER_GROUP < U32_LIMIT
    ensures r.Closed? ==> r.diskSize * BLOCK <= w.maxDisk
    ensures r.Closed? ==> r.table == table && r.journal == journal && r.valid == r.bitmaps + 2 * groups
    ensures r.Closed? ==>
      MapsDone(w.disk, r.bitmaps, groups, groups, r.valid, r.diskSize, w.gd, w.freeHoles, r.maps, r.free)
    ensures r.Closed? ==> ipg <= Bitmap.BITS
    ensures r.Closed? ==> InodeMapsDone(w.disk, r.bitmaps, groups, ipg, inodes, r.inodeMaps, r.freeInodes)
    ensures r.Closed? ==> r.totalFree == Total(r.free) && r.totalFreeInodes == Total(r.freeInodes)
    ensures r.Closed? ==> SameBelow(old(w.disk), w.disk, r.bitmaps * BLOCK)
    ensures r.Closed? ==>
      && w.book == ClaimFor(w.R, old(w.book), r.bitmaps, r.valid, Bitmaps)
      && forall b :: r.bitmaps <= b < r.valid ==> b !in w.R
    ensures r.Closed? ==> !Overruns(w.gd, old(w.done), groups)
    ensures r.Closed? ==> FirstFit(w.R, Limit(w.maxDisk), old(w.done), 2 * groups, r.bitmaps)
    ensures groups > 0 && (!r.Closed? ==> BitmapsStop(r, w.R, w.gd, w.maxDisk, table, groups, ipg))
  {
    hide Partition, AllOwn, FilesOk, FirstFit, MapsDone, InodeMapsDone, Best, Layout, ClaimFor, Overruns, GdBlocks,
         Planned, SameBelow;
    BestPositive(table, |inodes|, groups, ipg);
    var stop, base, valid, disk := PlanBitmaps(w, table, groups, ipg, |inodes|);
    if stop.Some? { return stop.value; }
    PlanFits(w.gd, w.maxDisk, base, groups, valid, disk, w.freeHoles);
    FitIsClear(w.R, Limit(w.maxDisk), old(w.done), 2 * groups, base, 2 * groups);
    var maps, free, imaps, ifree, total, itotal;
    stop, maps, free, imaps, ifree, total, itotal := PlaceGroups(w, base, groups, ipg, valid, disk, inodes);
    if disk * BLOCK > w.maxDisk { NoRoomAt(w.R, w.gd, w.maxDisk, table, groups, ipg, base); }
    else { BitmapsExactly(w.R, w.gd, Limit(w.maxDisk), table, |inodes|, groups, ipg, old(w.done), base); }
    if stop.Some? { return stop.value; }
    if disk * BLOCK > w.maxDisk { return NoSpace(disk); }
    if disk > groups * BLOCKS_PER_GROUP { return Overlong(disk); }
    r := Closed(table, groups, ipg, base, valid, disk, journal, maps, free, imaps, ifree, total, itotal);
  }

  lemma PlanFits(gd: nat, maxDisk: nat, base: nat, groups: nat, valid: nat, disk: nat, holes: seq<Run>)
    requires Planned(gd, maxDisk, base, groups, valid, disk, holes)
    ensures groups > 0 && valid == base + 2 * groups <= disk == DiskEnd(base, groups)
    ensures (groups - 1) * BLOCKS_PER_GROUP < disk
    ensures disk > groups * BLOCKS_PER_GROUP ==> valid == disk
  {
  }

  /** Where the bitmaps go and how large the disk becomes. */
  method PlanBitmaps(w: Writer, table: nat, groups: nat, ipg: nat, ghost inodes: nat) returns (stop: Option<Closed>,
                     base: nat, valid: nat, disk: nat)
    requires w.Valid() && !w.open && Best(table, inodes, groups, ipg) && groups > 0 && inodes <= MAX_INODES
    requires w.done == table + groups * (ipg / INCREMENT) && 1 + w.gd <= table < U32_LIMIT
    modifies w`pos, w`freeHoles, w`done
    ensures stop.None? ==> w.Valid() && !w.open && w.done == base && old(w.done) <= base && w.book == old(w.book)
    ensures stop.None? ==> Planned(w.gd, w.maxDisk, base, groups, valid, disk, w.freeHoles)
    ensures stop.None? ==> FirstFit(w.R, Limit(w.maxDisk), old(w.done), 2 * groups, base)
    ensures stop.Some? ==> BitmapsStop(stop.value, w.R, w.gd, w.maxDisk, table, groups, ipg)
  {
    hide Partition, AllOwn, FilesOk, FirstFit, Best, Feasible, Layout, GdBlocks, Planned, UsedGd;
    GeometryFits(table, inodes, groups, ipg);
    GroupsBound(table, inodes, groups, ipg);
    base, valid, disk := 0, 0, 0;
    var fit := w.ReserveContiguous(2 * groups);
    CursorBlock(w.pos);
    if fit.Overflow? { SumFits(w.R, w.gd, Limit(w.maxDisk), w.done, 2 * groups); assert false; }
    if fit.Rewound? { return Some(Panicked(GroupNumber(groups))), base, valid, disk; }
    base := fit.start;
    valid := base + 2 * groups;
    if valid >= U32_LIMIT {
      if base > old(w.done) { NoReservedNearTop(w.R, w.gd, base - 1); assert false; }
      return Some(Panicked(GroupNumber(groups))), base, valid, disk;
    }
    var minSize := (groups - 1) * BLOCKS_PER_GROUP + 1;
    if minSize >= U32_LIMIT { return Some(Panicked(GroupNumber(groups))), base, valid, disk; }
    disk := DiskEnd(base, groups);
    if UsedGd(groups) > w.gd {
      TooManyDescriptors(w.maxDisk, groups);
      MulMonotone(minSize, disk, BLOCK);
      NoRoomAt(w.R, w.gd, w.maxDisk, table, groups, ipg, base);
      return Some(NoSpace(disk)), base, valid, disk;
    }
    stop := None;
    PlanOk(w.R, w.gd, w.maxDisk, table, inodes, groups, ipg, old(w.done), base, w.freeHoles, w.book);
  }

  lemma PlanOk(R: iset<nat>, gd: nat, maxDisk: nat, table: nat, inodes: nat, groups: nat, ipg: nat, s: nat, base: nat,
               holes: seq<Run>, k: Book)
    requires Layout(R, gd) && gd <= 1024 && 0 < maxDisk <= MAX_MAX_DISK_SIZE && inodes <= MAX_INODES && groups > 0
    requires 1 + gd <= table < U32_LIMIT && Best(table, inodes, groups, ipg) && s == table + groups * (ipg / INCREMENT)
    requires FirstFit(R, Limit(maxDisk), s, 2 * groups, base) && Partition(R, 1 + gd, base, holes, k)
    requires UsedGd(groups) <= gd && base + 2 * groups < U32_LIMIT && (groups - 1) * BLOCKS_PER_GROUP + 1 < U32_LIMIT
    ensures var valid := base + 2 * groups;
            Planned(gd, maxDisk, base, groups, valid, Max(valid, (groups - 1) * BLOCKS_PER_GROUP + 1), holes)
  {
    hide Best, FirstFit, Layout, Partition, LastFull, UsedGd;
    FitFrom(R, Limit(maxDisk), s, 2 * groups, base);
    GeometryFits(table, inodes, groups, ipg);
    if groups == 1 { OneGroupFits(R, gd, Limit(maxDisk), s, base); }
    if groups * BLOCKS_PER_GROUP <= Limit(maxDisk) {
      LastGroupFull(R, gd, Limit(maxDisk), table, inodes, groups, ipg, s, base, holes, k);
    } else {
      NotLast(groups, base + 2 * groups, holes, maxDisk);
    }
  }

  lemma NotLast(groups: nat, valid: nat, holes: seq<Run>, maxDisk: nat)
    requires groups > 0 && groups * BLOCKS_PER_GROUP > Limit(maxDisk)
    ensures valid * BLOCK <= maxDisk ==> LastFull(groups, valid, holes)
  {
  }

  lemma NoRoomAt(R: iset<nat>, gd: nat, maxDisk: nat, table: nat, groups: nat, ipg: nat, base: nat)
    requires groups > 0 && FirstFit(R, Limit(maxDisk), TableEnd(table, groups, ipg), 2 * groups, base)
    requires DiskEnd(base, groups) * BLOCK > maxDisk
    ensures BitmapsStop(NoSpace(DiskEnd(base, groups)), R, gd, maxDisk, table, groups, ipg)
  {
    hide FirstFit;
  }

  /** More descriptor blocks than init() made room for: the groups exceed the disk. */
  lemma TooManyDescriptors(maxDisk: nat, groups: nat)
    requires maxDisk > 0 && groups > 0 && UsedGd(groups) > GdBlocks(maxDisk)
    ensures ((groups - 1) * BLOCKS_PER_GROUP + 1) * BLOCK > maxDisk
  {
  }

  /** The bitmaps only move behind a region, and nothing free is left in the last group
      when they end past it. */
  lemma LastGroupFull(R: iset<nat>, gd: nat, lim: nat, table: nat, inodes: nat, groups: nat, ipg: nat, s: nat,
                      base: nat, holes: seq<Run>, k: Book)
    requires Layout(R, gd) && gd <= 1024 && lim <= 131074 * BLOCKS_PER_GROUP && inodes <= MAX_INODES
    requires table < U32_LIMIT && Best(table, inodes, groups, ipg) && s == table + groups * (ipg / INCREMENT)
    requires groups * BLOCKS_PER_GROUP <= lim && FirstFit(R, lim, s, 2 * groups, base)
    requires Partition(R, 1 + gd, base, holes, k) && groups > 0
    ensures LastFull(groups, base + 2 * groups, holes)
  {
    GeometryFits(table, inodes, groups, ipg);
    if base + 2 * groups > groups * BLOCKS_PER_GROUP {
      var q := BitmapsMoved(R, gd, lim, table, inodes, groups, ipg, s, base);
      hide Best, FirstFit, BackupGroup, Bitmap.InHoles;
      MulMonotone(q, groups - 1, BLOCKS_PER_GROUP);
      forall b: nat | (groups - 1) * BLOCKS_PER_GROUP <= b < groups * BLOCKS_PER_GROUP
        ensures !Bitmap.InHoles(holes, |holes|, b)
      {
        HolesListed(holes, b);
        if b < base { assert b / BLOCKS_PER_GROUP == q && Reserved(gd, b); }
      }
    }
  }

  lemma OneGroupFits(R: iset<nat>, gd: nat, lim: nat, s: nat, base: nat)
    requires Layout(R, gd) && FirstFit(R, lim, s, 2, base) && s + 2 <= BLOCKS_PER_GROUP <= lim
    ensures base == s
  {
    forall b | s <= b < s + 2 ensures b !in R { assert !Reserved(gd, b); }
    assert !Blocked(R, lim, s, 2);
  }

  method PlaceGroups(w: Writer, base: nat, groups: nat, ipg: nat, valid: nat, disk: nat,
                     inodes: seq<bool>)
    returns (stop: Option<Closed>, maps: seq<seq<bv8>>, free: seq<nat>, imaps: seq<seq<bv8>>, ifree: seq<nat>,
             total: nat, itotal: nat)
    requires w.Valid() && !w.open && w.done == base && Permitted(ipg) && ipg <= Bitmap.BITS
    requires Planned(w.gd, w.maxDisk, base, groups, valid, disk, w.freeHoles)
    requires forall b :: base <= b < base + 2 * groups && b < Limit(w.maxDisk) ==> b !in w.R
    modifies w
    ensures stop.None? ==> w.Valid() && !w.open && w.done == base + 2 * groups
    ensures stop.None? ==> w.book == ClaimFor(w.R, old(w.book), base, base + 2 * groups, Bitmaps)
    ensures stop.None? ==> w.freeHoles == old(w.freeHoles) && groups * BLOCKS_PER_GROUP < U32_LIMIT
    ensures stop.None? ==> WholeGroups(groups - 1, groups, disk)
    ensures stop.None? ==> MapsDone(w.disk, base, groups, groups, valid, disk, w.gd, w.freeHoles, maps, free)
    ensures stop.None? ==> InodeMapsDone(w.disk, base, groups, ipg, inodes, imaps, ifree)
    ensures stop.None? ==> total == Total(free) && itotal == Total(ifree)
    ensures stop.None? ==> SameBelow(old(w.disk), w.disk, base * BLOCK)
    ensures stop.Some? ==> Stopped(stop.value, w.maxDisk, groups, valid, disk)
  {
    hide Partition, AllOwn, FilesOk, MapsDone, InodeMapsDone, GroupMap, InodeMap, Bitmap.Bit, Bitmap.Base, Layout,
         WriteAt, UsedGd, ClaimFor, GdBlocks, Planned, Stopped, ToBytes, SameBelow;
    SameSelf(w.disk, base * BLOCK);
    PlanFits(w.gd, w.maxDisk, base, groups, valid, disk, w.freeHoles);
    ghost var holes := w.freeHoles;
    maps, free, imaps, ifree, stop, total, itotal := [], [], [], [], None, 0, 0;
    var used, iused := 0, 0;
    NoMaps(w.disk, base, groups, valid, disk, w.gd, w.freeHoles);
    NoInodeMaps(w.disk, base, ipg, inodes);
    NoClaim(w.R, w.book, base, Bitmaps);
    for g := 0 to groups
      invariant stop.None? && w.Valid() && !w.open && w.done == base + 2 * g && w.freeHoles == holes
      invariant g * BLOCKS_PER_GROUP < U32_LIMIT && (g > 0 ==> WholeGroups(g - 1, groups, disk))
      invariant w.book == ClaimFor(w.R, old(w.book), base, base + 2 * g, Bitmaps)
      invariant MapsDone(w.disk, base, g, groups, valid, disk, w.gd, w.freeHoles, maps, free)
      invariant InodeMapsDone(w.disk, base, g, ipg, inodes, imaps, ifree)
      invariant SameBelow(old(w.disk), w.disk, base * BLOCK)
      invariant used + Total(free) == BLOCKS_PER_GROUP * g && iused + Total(ifree) == ipg * g
    {
      ghost var d0 := w.disk;
      var m, f, im, fi;
      stop, m, f, im, fi := PlaceGroup(w, base, g, groups, ipg, valid, disk, inodes);
      if stop.Some? { return; }
      MapLength(g, groups, valid, disk, w.gd, w.freeHoles, m, f);
      MapsExtend(d0, base, g, groups, valid, disk, w.gd, w.freeHoles, maps, free, m, f, ToBytes(im), w.disk);
      InodeMapsExtend(d0, base, g, ipg, inodes, imaps, ifree, ToBytes(m), im, fi, w.disk);
      SameThrough(old(w.disk), d0, (base + 2 * g) * BLOCK, ToBytes(m) + ToBytes(im), w.disk, base * BLOCK);
      ClaimJoin(w.R, old(w.book), base, base + 2 * g, base + 2 * g + 2, Bitmaps);
      TotalSnoc(free, f);
      TotalSnoc(ifree, fi);
      maps, free, imaps, ifree := maps + [m], free + [f], imaps + [im], ifree + [fi];
      used, iused := used + (BLOCKS_PER_GROUP - f), iused + (ipg - fi);
    }
    total, itotal := BLOCKS_PER_GROUP * groups - used, ipg * groups - iused;
  }

  /** Why the loop over the groups ends early. */
  ghost predicate Stopped(r: Closed, maxDisk: nat, groups: nat, valid: nat, disk: nat) {
    || (r == NoSpace(disk) && disk * BLOCK > maxDisk)
    || (r == Panicked(GroupNumber(groups)) && groups * BLOCKS_PER_GROUP >= U32_LIMIT)
    || (r == Panicked(LastCount(valid)) && valid > groups * BLOCKS_PER_GROUP && valid % BLOCKS_PER_GROUP != 0
        && valid * BLOCK <= maxDisk)
  }

  method PlaceGroup(w: Writer, base: nat, g: nat, groups: nat, ipg: nat, valid: nat, disk: nat,
                    inodes: seq<bool>)
    returns (stop: Option<Closed>, m: seq<bv8>, free: nat, im: seq<bv8>, ifree: nat)
    requires w.Valid() && !w.open && w.done == base + 2 * g && g < groups && Permitted(ipg) && ipg <= Bitmap.BITS
    requires Planned(w.gd, w.maxDisk, base, groups, valid, disk, w.freeHoles)
    requires forall b :: w.done <= b < w.done + 2 && b < Limit(w.maxDisk) ==> b !in w.R
    modifies w
    ensures stop.None? ==> w.Valid() && !w.open && w.done == old(w.done) + 2 && w.freeHoles == old(w.freeHoles)
    ensures stop.None? ==> (g + 1) * BLOCKS_PER_GROUP < U32_LIMIT && free <= BLOCKS_PER_GROUP && ifree <= ipg
    ensures stop.None? ==> WholeGroups(g, groups, disk)
    ensures stop.None? ==> GroupMap(g, groups, valid, disk, w.gd, w.freeHoles, m, free)
    ensures stop.None? ==> InodeMap(g, ipg, inodes, im, ifree)
    ensures stop.None? ==> w.disk == WriteAt(old(w.disk), old(w.done) * BLOCK, ToBytes(m) + ToBytes(im))
    ensures stop.None? ==> w.book == ClaimFor(w.R, old(w.book), old(w.done), old(w.done) + 2, Bitmaps)
    ensures stop.Some? ==> Stopped(stop.value, w.maxDisk, groups, valid, disk)
  {
    hide Partition, AllOwn, FilesOk, Bitmap.Bit, Bitmap.Base, Bitmap.InodeUsed, WriteAt, ClaimFor, GdBlocks, Layout,
         Bitmap.Ones, Bitmap.Clear, LastFull, UsedGd;
    var ok, used, iused;
    im, free, ifree := [], 0, 0;
    ok, m, used := Bitmap.BlockBitmap(g, groups, valid, disk, UsedGd(groups), w.gd, w.freeHoles);
    if !ok { MulMonotone(g + 1, groups, BLOCKS_PER_GROUP); stop := Some(Panicked(GroupNumber(groups))); return; }
    im, iused := Bitmap.InodeBitmap(g, ipg, inodes);
    ok := w.WriteRun(Bitmaps, ToBytes(m) + ToBytes(im));
    if !ok { stop := Some(NoSpace(disk)); return; }
    CountOk(g, groups, valid, disk, UsedGd(groups), w.gd, w.freeHoles, m, used);
    if used > BLOCKS_PER_GROUP { stop := Some(Panicked(LastCount(valid))); return; }
    free, ifree := BLOCKS_PER_GROUP - used, ipg - iused;
    stop := None;
  }

  /** A disk that ends past the last group ends on a group boundary. */
  predicate WholeGroups(g: nat, groups: nat, disk: nat) {
    g + 1 == groups && disk > groups * BLOCKS_PER_GROUP ==> disk % BLOCKS_PER_GROUP == 0
  }

  /** The free count of a group is the number of its clear bits, or it underflows in the
      last group because the disk ends past it. */
  lemma CountOk(g: nat, groups: nat, valid: nat, disk: nat, usedGd: nat, gd: nat, holes: seq<Run>, m: seq<bv8>,
                used: nat)
    requires g < groups && valid <= disk && (disk > groups * BLOCKS_PER_GROUP ==> valid == disk && groups > 1)
    requires g + 1 == groups ==> LastFull(groups, valid, holes)
    requires |m| == Bitmap.BYTES && used == Bitmap.Ones(m, Bitmap.BITS) + Bitmap.Excess(g, groups, disk)
    requires forall j: nat :: j < Bitmap.BITS ==>
      Bitmap.Bit(m, j) == (Bitmap.Base(g, groups, valid, disk, usedGd, gd, j)
                           && !Bitmap.InHoles(holes, |holes|, g * BLOCKS_PER_GROUP + j))
    ensures used <= BLOCKS_PER_GROUP ==> BLOCKS_PER_GROUP - used == Bitmap.Clear(m, Bitmap.BITS)
    ensures used <= BLOCKS_PER_GROUP ==> WholeGroups(g, groups, disk)
    ensures used > BLOCKS_PER_GROUP ==> g + 1 == groups && valid > groups * BLOCKS_PER_GROUP
    ensures used > BLOCKS_PER_GROUP ==> valid % BLOCKS_PER_GROUP != 0
  {
    Bitmap.OnesAndClear(m, Bitmap.BITS);
    if Bitmap.Excess(g, groups, disk) > 0 {
      hide Bitmap.Bit, Bitmap.InHoles;
      forall j: nat | j < Bitmap.BITS ensures Bitmap.Bit(m, j) {}
      Bitmap.OnesUniform(m, Bitmap.BITS, true);
    }
  }

  lemma TotalSnoc(s: seq<nat>, x: nat)
    ensures Total(s + [x]) == Total(s) + x
  {
    assert (s + [x])[..|s|] == s;
  }

  lemma NoInodeMaps(d: seq<byte>, base: nat, ipg: nat, inodes: seq<bool>)
    requires ipg <= Bitmap.BITS
    ensures InodeMapsDone(d, base, 0, ipg, inodes, [], [])
  {
  }

  lemma NoMaps(d: seq<byte>, base: nat, groups: nat, valid: nat, disk: nat, gd: nat, holes: seq<Run>)
    requires groups > 0
    ensures MapsDone(d, base, 0, groups, valid, disk, gd, holes, [], [])
  {
  }

  lemma BestPositive(blocks: nat, inodes: nat, groups: nat, ipg: nat)
    requires Best(blocks, inodes, groups, ipg)
    ensures groups >= 1 && Permitted(ipg) && ipg <= Bitmap.BITS
  {
  }

  // ---- the bitmaps agree with the ledger ----

  lemma {:induction false} HolesListed(holes: seq<Run>, b: nat)
    ensures Bitmap.InHoles(holes, |holes|, b) <==> b in RunBlocks(holes)
  {
    if holes != [] {
      var n := |holes| - 1;
      HolesListed(holes[..n], b);
      Bitmap.HoleAdded(holes, n, b);
      assert Bitmap.InHoles(holes, n, b) <==> Bitmap.InHoles(holes[..n], n, b);
      var last := Range(holes[n].start, holes[n].len);
      if holes[n].start <= b < holes[n].start + holes[n].len { assert last[b - holes[n].start] == b; }
    }
  }

  /** At close a data-area block's bit is set iff the block is claimed or reserved. */
  ghost predicate BitsAgree(R: iset<nat>, k: Book, gd: nat, valid: nat, maps: seq<seq<bv8>>) {
    forall b: nat :: 1 + gd <= b < valid ==>
      b / BLOCKS_PER_GROUP < |maps| && b % BLOCKS_PER_GROUP < 8 * |maps[b / BLOCKS_PER_GROUP]| &&
      (Bitmap.Bit(maps[b / BLOCKS_PER_GROUP], b % BLOCKS_PER_GROUP) <==> b in k.claims || b in R)
  }

  lemma BitmapsAgree(R: iset<nat>, k: Book, d: seq<byte>, base: nat, groups: nat, valid: nat, disk: nat, gd: nat,
                     holes: seq<Run>, maps: seq<seq<bv8>>, used: seq<nat>)
    requires groups > 0 && MapsDone(d, base, groups, groups, valid, disk, gd, holes, maps, used)
    requires Partition(R, 1 + gd, valid, holes, k) && valid <= disk <= groups * BLOCKS_PER_GROUP
    ensures BitsAgree(R, k, gd, valid, maps)
  {
    forall b: nat | 1 + gd <= b < valid
      ensures b / BLOCKS_PER_GROUP < |maps| && b % BLOCKS_PER_GROUP < 8 * |maps[b / BLOCKS_PER_GROUP]|
      ensures Bitmap.Bit(maps[b / BLOCKS_PER_GROUP], b % BLOCKS_PER_GROUP) <==> b in k.claims || b in R
    {
      var g, j := b / BLOCKS_PER_GROUP, b % BLOCKS_PER_GROUP;
      assert b == g * BLOCKS_PER_GROUP + j;
      assert GroupMap(g, groups, valid, disk, gd, holes, maps[g], used[g]);
      HolesListed(holes, b);
    }
  }

  /** A closed image: geometry, who owns the runs of close, bitmaps that are on disk and say
      exactly which inodes are used and which blocks are claimed or reserved, and free
      counts that are the clear bits of each bitmap, with the superblock's totals. */
  ghost predicate ClosedOk(r: Closed, R: iset<nat>, k: Book, d: seq<byte>, gd: nat, maxDisk: nat, holes: seq<Run>,
                           done: nat, journal: nat, inodes: seq<bool>)
    requires r.Closed?
  {
    && r.groups > 0 && r.ipg <= Bitmap.BITS && done == r.valid && Best(r.table, |inodes|, r.groups, r.ipg)
    && r.valid <= r.diskSize <= r.groups * BLOCKS_PER_GROUP < U32_LIMIT && r.diskSize * BLOCK <= maxDisk
    && !Overruns(gd, r.table + r.groups * (r.ipg / INCREMENT), r.groups)
    && MapsDone(d, r.bitmaps, r.groups, r.groups, r.valid, r.diskSize, gd, holes, r.maps, r.free)
    && InodeMapsDone(d, r.bitmaps, r.groups, r.ipg, inodes, r.inodeMaps, r.freeInodes)
    && r.totalFree == Total(r.free) && r.totalFreeInodes == Total(r.freeInodes)
    && BitsAgree(R, k, gd, r.valid, r.maps)
    && OwnedRun(k, r.journal, r.journal + journal, Journal) && OwnedRun(k, r.bitmaps, r.valid, Bitmaps)
    && OwnedRun(k, r.table, r.table + r.groups * (r.ipg / INCREMENT), InodeTable)
  }

  /** close: after any run of the writer, journal, inode table and bitmaps go on
      clear runs; every block from the descriptor table to the end of data has its
      one role; every group's bitmap on disk says exactly which are in use, and its free
      count is right. Whatever else happens has its stated cause. */
  method Close(w: Writer, journal: nat, slots: IR.Slots) returns (r: Closed)
    requires w.Valid() && !w.open && journal < U32_LIMIT && 10 <= |slots| < U32_LIMIT && IR.SlotsOk(slots)
    modifies w
    ensures r.Closed? ==> w.Valid() && Keeps(old(w.book), w.book)
    ensures r.Closed? ==> ClosedOk(r, w.R, w.book, w.disk, w.gd, w.maxDisk, w.freeHoles, w.done, journal, InUse(slots))
    ensures r.Closed? ==> |slots| <= MAX_INODES && r.groups <= 131071
    ensures r.Closed? ==> RecordsOk(w.disk, r.table, slots, r.journal, journal)
    ensures r.Closed? ==>
      TablesPlace(w.R, w.maxDisk, old(w.done), journal, |slots|, Tables(r.journal, r.table, r.groups, r.ipg))
    ensures r.Closed? ==> FirstFit(w.R, Limit(w.maxDisk), TableEnd(r.table, r.groups, r.ipg), 2 * r.groups, r.bitmaps)
    ensures !r.Closed? ==> Explained(r, w.R, w.gd, w.maxDisk, old(w.done), journal, |slots|)
  {
    hide AllOwn, FilesOk, Best, Partition, MapsDone, InodeMapsDone, BitsAgree, ClaimFor, OwnedRun, Keeps, Layout,
         ClosedOk, ValidGeometry, Overruns, GdBlocks, Explained, TablesPlace, BitmapsStop, FirstFit, Limit, Total,
         RecordsOk, WithJournal, IR.TableDone, IR.SlotsOk, SameBelow;
    var stop, start, table, groups, ipg, all := PlaceTables(w, journal, slots);
    if stop.Some? { return stop.value; }
    ghost var k2, d2, h2, d1, disk := w.book, w.done, w.freeHoles, start + journal, w.disk;
    BestPositive(table, |slots|, groups, ipg);
    r := PlaceBitmaps(w, table, groups, ipg, InUse(slots), start);
    if r.Closed? {
      ClaimKeeps(w.R, 1 + w.gd, d2, h2, old(w.book), k2, r.bitmaps, r.valid, Bitmaps);
      ClosedFrom(r, w.R, k2, w.book, w.disk, w.gd, w.maxDisk, w.freeHoles, w.done, d1, d2, journal, InUse(slots));
      GeometryFits(table, |slots|, groups, ipg);
      RecordsKept(disk, w.disk, table, slots, start, journal, all, groups, ipg, r.bitmaps);
    } else {
      BitmapsExplain(r, w.R, w.gd, w.maxDisk, old(w.done), journal, |slots|, Tables(start, table, groups, ipg));
    }
  }

  function InUse(slots: IR.Slots): (r: seq<bool>)
    ensures |r| == |slots|
  {
    seq(|slots|, i requires 0 <= i < |slots| => slots[i].Some?)
  }

  lemma ClosedFrom(r: Closed, R: iset<nat>, k2: Book, k: Book, d: seq<byte>, gd: nat, maxDisk: nat, holes: seq<Run>,
                   done: nat,
                   d1: nat, d2: nat, journal: nat, inodes: seq<bool>)
    requires r.Closed? && Best(r.table, |inodes|, r.groups, r.ipg) && done == r.valid == r.bitmaps + 2 * r.groups
    requires r.valid <= r.diskSize <= r.groups * BLOCKS_PER_GROUP < U32_LIMIT && r.diskSize * BLOCK <= maxDisk
    requires r.groups > 0 && MapsDone(d, r.bitmaps, r.groups, r.groups, r.valid, r.diskSize, gd, holes, r.maps, r.free)
    requires r.ipg <= Bitmap.BITS && InodeMapsDone(d, r.bitmaps, r.groups, r.ipg, inodes, r.inodeMaps, r.freeInodes)
    requires r.totalFree == Total(r.free) && r.totalFreeInodes == Total(r.freeInodes)
    requires Partition(R, 1 + gd, done, holes, k) && k == ClaimFor(R, k2, r.bitmaps, r.valid, Bitmaps)
    requires d1 == r.journal + journal <= r.bitmaps && d2 == r.table + r.groups * (r.ipg / INCREMENT) <= r.bitmaps
    requires !Overruns(gd, d2, r.groups)
    requires OwnedRun(k2, r.journal, d1, Journal) && OwnedRun(k2, r.table, d2, InodeTable)
    requires forall b :: r.bitmaps <= b < r.valid ==> b !in R
    ensures ClosedOk(r, R, k, d, gd, maxDisk, holes, done, journal, inodes)
  {
    hide Best, Partition, MapsDone, InodeMapsDone, BitsAgree, ClaimFor, OwnedRun, Overruns, Total;
    RunOwned(R, k2, r.bitmaps, r.valid, Bitmaps);
    RunStillOwned(R, k2, r.journal, d1, Journal, r.bitmaps, r.valid, Bitmaps);
    RunStillOwned(R, k2, r.table, d2, InodeTable, r.bitmaps, r.valid, Bitmaps);
    BitmapsAgree(R, k, d, r.bitmaps, r.groups, r.valid, r.diskSize, gd, holes, r.maps, r.free);
  }

  /** Journal and inode table, each on its own clear run. */
  method PlaceTables(w: Writer, journal: nat, slots: IR.Slots)
    returns (stop: Option<Closed>, start: nat, table: nat, groups: nat, ipg: nat, ghost all: IR.Slots)
    requires w.Valid() && !w.open && journal < U32_LIMIT && 7 < |slots| < U32_LIMIT && IR.SlotsOk(slots)
    modifies w
    ensures stop.None? ==> w.Valid() && !w.open && Keeps(old(w.book), w.book) && Best(table, |slots|, groups, ipg)
    ensures stop.None? ==> |slots| <= MAX_INODES && table < U32_LIMIT
    ensures stop.None? ==> w.done == table + groups * (ipg / INCREMENT) && 1 + w.gd <= table && start + journal <= table
    ensures stop.None? ==> OwnedRun(w.book, start, start + journal, Journal)
    ensures stop.None? ==> OwnedRun(w.book, table, w.done, InodeTable)
    ensures stop.None? ==> TablesPlace(w.R, w.maxDisk, old(w.done), journal, |slots|, Tables(start, table, groups, ipg))
    ensures stop.None? ==> WithJournal(slots, start, journal, all) && IR.TableDone(w.disk, table, all)
    ensures stop.Some? ==> Explained(stop.value, w.R, w.gd, w.maxDisk, old(w.done), journal, |slots|)
    ensures stop.Some? ==> !stop.value.Closed?
  {
    hide AllOwn, FilesOk, Best, Partition, ClaimFor, OwnedRun, Keeps, GdBlocks, Explained, JournalStops, TableStops,
         TablePlace, JournalPlace, WithJournal, IR.TableDone, IR.SlotsOk;
    DataStart(w);
    KeepsSelf(w.book);
    ghost var k0, d0, h0 := w.book, w.done, w.freeHoles;
    stop, start := PlaceJournal(w, journal);
    table, groups, ipg, all := 0, 0, 0, [];
    if stop.Some? { JournalExplains(stop.value, w.R, w.gd, w.maxDisk, old(w.done), journal, |slots|); return; }
    RunOwned(w.R, k0, start, w.done, Journal);
    ClaimKeeps(w.R, 1 + w.gd, d0, h0, k0, k0, start, w.done, Journal);
    ghost var k1, d1, h1 := w.book, w.done, w.freeHoles;
    var ready := AddJournal(slots, start, journal);
    all := ready;
    SlotsReady(slots, start, journal, ready);
    stop, table, groups, ipg := PlaceInodeTable(w, ready);
    if stop.Some? { TableExplains(stop.value, w.R, w.gd, w.maxDisk, old(w.done), journal, |slots|, start); return; }
    PlaceHasBest(w.R, w.maxDisk, d1, |slots|, table, groups, ipg);
    RunOwned(w.R, k1, table, w.done, InodeTable);
    RunStillOwned(w.R, k1, start, d1, Journal, table, w.done, InodeTable);
    ClaimKeeps(w.R, 1 + w.gd, d1, h1, k0, k1, table, w.done, InodeTable);
  }

  lemma SlotsReady(slots: IR.Slots, start: nat, blocks: nat, all: IR.Slots)
    requires WithJournal(slots, start, blocks, all)
    ensures |all| == |slots| && IR.SlotsOk(all)
  {
  }

  lemma PlaceHasBest(R: iset<nat>, maxDisk: nat, d1: nat, inodes: nat, table: nat, groups: nat, ipg: nat)
    requires TablePlace(R, maxDisk, d1, inodes, table, groups, ipg)
    ensures Best(table, inodes, groups, ipg)
  {
  }

  lemma KeepsSelf(k: Book)
    ensures Keeps(k, k)
  {
  }

  lemma DataStart(w: Writer)
    requires w.Valid()
    ensures 1 + w.gd <= w.done
  {
  }

  function Total(s: seq<nat>): nat { if s == [] then 0 else Total(s[..|s| - 1]) + s[|s| - 1] }

  /** The xattr block is placed without looking at the backup regions: a run of nothing
      but xattr blocks reaches block 32768 and overwrites the first backup superblock. */
  method XattrOverBackup(option: int, buf: seq<byte>) returns (w: Writer)
    requires (BLOCKS_PER_GROUP + 1) * BLOCK <= DiskLimit(option)
    requires |buf| == BLOCK
    ensures w.Valid() && BLOCKS_PER_GROUP in w.R && BLOCKS_PER_GROUP in w.book.clobbered
  {
    w := new Writer(option, 0, 0);
    hide Partition, AllOwn, FilesOk;
    FirstBackup(w.R, w.gd);
    var ok := true;
    for b := 1 + w.gd to BLOCKS_PER_GROUP
      invariant w.Valid() && !w.open && w.pos == b * BLOCK && fresh(w)
    {
      ok := w.WriteXattrBlock(buf);
    }
    ok := w.WriteXattrBlock(buf);
  }
}
