/** The block ledger: which owner holds each block an image writer has passed,
    and what every finished file must still read back as. */
module Ledger {
  import opened Bytes
  import opened SparseSuper
  import opened FreeBlocks
  import opened ExtentTree
  import opened Placement

  datatype Owner = File(id: nat) | Xattr | Journal | InodeTable | Bitmaps

  /** A finished extent-mapped file: its inode block area, its content, and the
      interval of blocks whose free blocks it owns (data, then extent leaves). */
  datatype FileRec = FileRec(bd: seq<byte>, content: seq<byte>, first: nat, end: nat)

  /** Claims made so far, claims that fell on a reserved block, finished files. */
  datatype Book = Book(claims: map<nat, Owner>, clobbered: set<nat>, files: seq<FileRec>)

  /** Every block of [lo, done) is claimed by exactly one owner, a reserved backup
      block, or recorded as a free hole. The three only overlap where a claim was
      made on a reserved block, which `clobbered` lists. */
  ghost predicate Partition(R: iset<nat>, lo: nat, done: nat, holes: seq<Run>, k: Book) {
    && lo <= done
    && (forall b :: lo <= b < done ==> b in k.claims || b in R || b in RunBlocks(holes))
    && (forall b :: b in k.claims ==> lo <= b < done && b !in RunBlocks(holes))
    && (forall b :: b in RunBlocks(holes) ==> lo <= b < done && b !in R)
    && (forall b :: b in k.clobbered <==> b in k.claims && b in R)
  }

  /** File `i` owns exactly the free blocks of its interval. */
  ghost predicate FilesOwn(R: iset<nat>, k: Book) {
    forall b, i: nat :: b in k.claims && k.claims[b] == File(i) ==>
      i < |k.files| && k.files[i].first <= b < k.files[i].end && b !in R
  }

  ghost predicate Owns(R: iset<nat>, k: Book, i: nat)
    requires i < |k.files|
  {
    forall b :: k.files[i].first <= b < k.files[i].end && b !in R ==> b in k.claims && k.claims[b] == File(i)
  }

  ghost predicate AllOwn(R: iset<nat>, k: Book) {
    FilesOwn(R, k) && forall i :: 0 <= i < |k.files| ==> Owns(R, k, i)
  }

  ghost predicate Within(R: iset<nat>, f: FileRec, b: nat) { f.first <= b < f.end && b !in R }

  /** The file resolves through its extent tree to its own blocks, and its
      content reads back. */
  ghost predicate FileOk(R: iset<nat>, d: seq<byte>, f: FileRec) {
    && |f.bd| == INODE_DATA_SIZE
    && Resolve(d, f.bd).Some?
    && (U16(f.bd, 6) != 0 ==> forall j :: 0 <= j < U16(f.bd, 2) ==> Within(R, f, IndexTarget(f.bd, j)))
    && (forall j :: 0 <= j < |ReaderBlocks(Resolve(d, f.bd).value)| ==>
        Within(R, f, ReaderBlocks(Resolve(d, f.bd).value)[j]))
    && ReadContent(d, Resolve(d, f.bd).value, |f.content|) == f.content
  }

  ghost predicate FilesOk(R: iset<nat>, d: seq<byte>, k: Book, done: nat) {
    forall i :: 0 <= i < |k.files| ==> FileOk(R, d, k.files[i]) && k.files[i].end <= done
  }

  // ---- content depends only on a file's own blocks ----

  ghost predicate SameBlocks(R: iset<nat>, d: seq<byte>, d2: seq<byte>, first: nat, end: nat) {
    forall b {:trigger BlockAt(d, b)} {:trigger BlockAt(d2, b)} ::
      first <= b < end && b !in R ==> BlockAt(d, b) == BlockAt(d2, b)
  }

  lemma {:induction false} ResolveIndexFrame(d: seq<byte>, bd: seq<byte>, d2: seq<byte>, bd2: seq<byte>, n: nat)
    requires NODE + NODE * n <= |bd| && NODE + NODE * n <= |bd2|
    requires forall j :: 0 <= j < n ==> IndexTarget(bd, j) == IndexTarget(bd2, j)
    requires forall j :: 0 <= j < n ==> BlockAt(d, IndexTarget(bd, j)) == BlockAt(d2, IndexTarget(bd, j))
    ensures ResolveIndex(d, bd, n) == ResolveIndex(d2, bd2, n)
  {
    if n > 0 { ResolveIndexFrame(d, bd, d2, bd2, n - 1); }
  }

  lemma GatherFrame(d: seq<byte>, d2: seq<byte>, bs: seq<nat>)
    requires forall j :: 0 <= j < |bs| ==> BlockAt(d, bs[j]) == BlockAt(d2, bs[j])
    ensures Gather(d, bs) == Gather(d2, bs)
  {
    forall i | 0 <= i < |bs| * BLOCK ensures Gather(d, bs)[i] == Gather(d2, bs)[i] {
      var b := bs[i / BLOCK];
      assert BlockAt(d, b)[i % BLOCK] == BlockAt(d2, b)[i % BLOCK];
    }
  }

  lemma FileFrame(R: iset<nat>, d: seq<byte>, d2: seq<byte>, f: FileRec)
    requires FileOk(R, d, f) && SameBlocks(R, d, d2, f.first, f.end)
    ensures FileOk(R, d2, f)
  {
    if U16(f.bd, 6) != 0 { ResolveIndexFrame(d, f.bd, d2, f.bd, U16(f.bd, 2)); }
    GatherFrame(d, d2, ReaderBlocks(Resolve(d, f.bd).value));
  }

  /** Writing only at or past block `done` leaves every finished file readable. */
  lemma FilesFrame(R: iset<nat>, d: seq<byte>, d2: seq<byte>, k: Book, done: nat)
    requires FilesOk(R, d, k, done)
    requires forall i: nat {:trigger At(d2, i)} :: i < done * BLOCK ==> At(d2, i) == At(d, i)
    ensures FilesOk(R, d2, k, done)
  {
    forall i | 0 <= i < |k.files| ensures FileOk(R, d2, k.files[i]) {
      var f := k.files[i];
      forall b | f.first <= b < f.end ensures BlockAt(d, b) == BlockAt(d2, b) {
        forall o | 0 <= o < BLOCK ensures BlockAt(d, b)[o] == BlockAt(d2, b)[o] {
          assert At(d2, b * BLOCK + o) == At(d, b * BLOCK + o);
        }
      }
      FileFrame(R, d, d2, f);
    }
  }

  // ---- growing the ledger ----

  ghost function Claimed(R: iset<nat>, lo: nat, hi: nat, o: Owner): map<nat, Owner> {
    map b | lo <= b < hi && b !in R :: o
  }

  /** Give every free block of [done, e) to one owner that is not a file. */
  ghost function ClaimFor(R: iset<nat>, k: Book, done: nat, e: nat, o: Owner): Book {
    k.(claims := k.claims + Claimed(R, done, e, o))
  }

  /** Give them to a new file. */
  ghost function ClaimFile(R: iset<nat>, k: Book, bd: seq<byte>, content: seq<byte>, done: nat, e: nat): Book {
    k.(claims := k.claims + Claimed(R, done, e, File(|k.files|)),
       files := k.files + [FileRec(bd, content, done, e)])
  }

  lemma PartitionClaim(R: iset<nat>, lo: nat, done: nat, holes: seq<Run>, k: Book, e: nat, k2: Book, o: Owner)
    requires Partition(R, lo, done, holes, k) && done <= e
    requires k2.claims == k.claims + Claimed(R, done, e, o) && k2.clobbered == k.clobbered
    ensures Partition(R, lo, e, holes, k2)
  {
  }

  lemma OwnClaimFor(R: iset<nat>, lo: nat, done: nat, holes: seq<Run>, k: Book, e: nat, o: Owner)
    requires Partition(R, lo, done, holes, k) && AllOwn(R, k) && done <= e && !o.File?
    ensures AllOwn(R, ClaimFor(R, k, done, e, o))
  {
    var k2 := ClaimFor(R, k, done, e, o);
    forall i | 0 <= i < |k2.files| ensures Owns(R, k2, i) { assert Owns(R, k, i); }
  }

  lemma OwnClaimFile(R: iset<nat>, lo: nat, done: nat, holes: seq<Run>, k: Book, bd: seq<byte>, content: seq<byte>,
                     e: nat)
    requires Partition(R, lo, done, holes, k) && AllOwn(R, k) && done <= e
    ensures AllOwn(R, ClaimFile(R, k, bd, content, done, e))
  {
    var k2 := ClaimFile(R, k, bd, content, done, e);
    forall i | 0 <= i < |k2.files| ensures Owns(R, k2, i) {
      if i < |k.files| { assert Owns(R, k, i); }
    }
  }

  /** Record the free blocks of [done, e) as holes. */
  lemma PartitionHole(R: iset<nat>, lo: nat, done: nat, holes: seq<Run>, k: Book, e: nat, runs: seq<Run>)
    requires Partition(R, lo, done, holes, k) && done <= e && RunBlocks(runs) == FreeIn(R, done, e)
    ensures Partition(R, lo, e, holes + runs, k)
  {
    RunBlocksConcat(holes, runs);
    FreeInExact(R, done, e);
  }

  lemma {:induction false} RunBlocksConcat(a: seq<Run>, b: seq<Run>)
    ensures RunBlocks(a + b) == RunBlocks(a) + RunBlocks(b)
  {
    if b == [] {
      assert a + b == a;
    } else {
      var front, last := b[..|b| - 1], b[|b| - 1];
      RunBlocksConcat(a, front);
      RunBlocksSnoc(front, last);
      assert b == front + [last] && a + b == (a + front) + [last];
      RunBlocksSnoc(a + front, last);
    }
  }

  /** Step over reserved blocks. */
  lemma PartitionGap(R: iset<nat>, lo: nat, done: nat, holes: seq<Run>, k: Book, e: nat)
    requires Partition(R, lo, done, holes, k) && done <= e && forall b :: done <= b < e ==> b in R
    ensures Partition(R, lo, e, holes, k)
  {
  }

  /** Claim one block wherever the cursor is, reserved or not. */
  ghost function ClaimHere(R: iset<nat>, k: Book, b: nat): Book {
    k.(claims := k.claims[b := Xattr], clobbered := if b in R then k.clobbered + {b} else k.clobbered)
  }

  lemma PartitionHere(R: iset<nat>, lo: nat, done: nat, holes: seq<Run>, k: Book)
    requires Partition(R, lo, done, holes, k) && AllOwn(R, k)
    ensures Partition(R, lo, done + 1, holes, ClaimHere(R, k, done)) && AllOwn(R, ClaimHere(R, k, done))
  {
    var k2 := ClaimHere(R, k, done);
    forall i | 0 <= i < |k2.files| ensures Owns(R, k2, i) { assert Owns(R, k, i); }
  }

  /** Without a clobbered block the partition is exact: every block has exactly
      one of the three roles. */
  lemma PartitionExact(R: iset<nat>, lo: nat, done: nat, holes: seq<Run>, k: Book, b: nat)
    requires Partition(R, lo, done, holes, k) && lo <= b < done
    ensures (if b in k.claims then 1 else 0) + (if b in R then 1 else 0) + (if b in RunBlocks(holes) then 1 else 0) == 1
            <==> b !in k.clobbered
  {
  }
}
