/** The delta between two snapshots (ext4/src/diff.rs) over the tree walk that feeds it
    (ext4/src/reader.rs): what it gives when applied to the base, and when that is the
    target. */
module SnapshotDiff {
  import opened Bytes
  import LayerMerge

  /** The type bits of the mode with what read_symlink or decode_device adds to them;
      OtherKind stands for sockets (type 12) and types that do not exist. */
  datatype Kind =
    | Directory
    | RegularFile
    | Symlink(target: string)
    | CharDevice(major: nat, minor: nat)
    | BlockDevice(major: nat, minor: nat)
    | Fifo
    | OtherKind(bits: nat)

  const SOCKET: Kind := OtherKind(12)

  /** What read_inode, read_symlink, decode_device and read_xattrs yield for one inode,
      with the file's bytes and, for a directory, its entries. */
  datatype Inode = Inode(kind: Kind, perm: nat, uid: nat, gid: nat, size: nat, mtime: nat, atime: nat, ctime: nat,
                         xattrs: map<string, seq<byte>>, links: nat, data: seq<byte>, children: seq<Child>)
  datatype Child = Child(name: string, ino: nat)
  datatype WalkEntry = WalkEntry(path: string, ino: nat, inode: Inode)

  /** What a tar entry can say of an inode: not the size of what is no regular file. */
  predicate SameEntry(a: Inode, b: Inode) {
    && a.kind == b.kind && a.perm == b.perm && a.uid == b.uid && a.gid == b.gid && a.mtime == b.mtime
    && a.xattrs == b.xattrs && (a.kind == RegularFile ==> a.size == b.size)
  }

  predicate MetadataEqual(a: Inode, b: Inode) { SameEntry(a, b) && a.size == b.size }

  // ---- walks ----

  /** `path` is strictly inside directory `dir`. */
  predicate Under(path: string, dir: string) { dir + "/" <= path }

  ghost predicate UniquePaths(es: seq<WalkEntry>) { forall i, j :: 0 <= i < j < |es| ==> es[i].path != es[j].path }

  ghost predicate HasDirBefore(es: seq<WalkEntry>, i: nat, dir: string) {
    exists j :: 0 <= j < i && j < |es| && es[j].path == dir && es[j].inode.kind == Directory
  }

  /** Every directory on the way to an entry comes before it. */
  ghost predicate ParentsFirst(es: seq<WalkEntry>) {
    forall i, c :: 0 <= i < |es| && 0 <= c < |es[i].path| && es[i].path[c] == '/' ==>
      HasDirBefore(es, i, es[i].path[..c])
  }

  ghost predicate Consistent(es: seq<WalkEntry>) {
    forall i, j :: 0 <= i < |es| && 0 <= j < |es| && es[i].ino == es[j].ino ==> es[i].inode == es[j].inode
  }

  /** What a walk of a filesystem gives: see `Walk`. */
  ghost predicate Preorder(es: seq<WalkEntry>) { UniquePaths(es) && ParentsFirst(es) && Consistent(es) }

  ghost predicate Has(es: seq<WalkEntry>, p: string) { exists i :: 0 <= i < |es| && es[i].path == p }

  // ---- the delta ----

  /** Types that write_entry_to_tar has an arm for. */
  predicate Written(k: Kind) { !k.OtherKind? }

  /** What is left of an inode in a tar entry: 32 bits of the time, and size and bytes of
      regular files only. */
  function InTar(i: Inode): Inode {
    Inode(i.kind, i.perm, i.uid, i.gid, if i.kind == RegularFile then i.size else 0, i.mtime % U32_LIMIT, 0, 0,
          i.xattrs, 0,
          if i.kind == RegularFile then i.data else [], [])
  }

  datatype Op = Full(path: string, inode: Inode) | Link(path: string, first: string)
  datatype Delta = Delta(adds: seq<Op>, whiteouts: seq<string>)

  /** Unpacking the entries of a delta in order; a hard link takes what its target has. */
  function Unpack(m: map<string, Inode>, ops: seq<Op>): map<string, Inode> {
    if ops == [] then m else
    var rest, op := Unpack(m, ops[..|ops| - 1]), ops[|ops| - 1];
    if op.Full? then rest[op.path := op.inode]
    else if op.first in rest then rest[op.path := rest[op.first]] else rest
  }

  ghost predicate Covered(whiteouts: seq<string>, p: string) {
    exists i :: 0 <= i < |whiteouts| && (p == whiteouts[i] || Under(p, whiteouts[i]))
  }

  function TreeOf(es: seq<WalkEntry>): map<string, Inode> {
    if es == [] then map[] else TreeOf(es[..|es| - 1])[es[|es| - 1].path := es[|es| - 1].inode]
  }

  /** Applying a delta: whited-out subtrees go, then the entries are unpacked. */
  ghost function Apply(base: map<string, Inode>, d: Delta): map<string, Inode> {
    Unpack(map p | p in base && !Covered(d.whiteouts, p) :: base[p], d.adds)
  }

  // ---- added and modified entries ----

  predicate Unchanged(base: map<string, Inode>, e: WalkEntry) { e.path in base && MetadataEqual(base[e.path], e.inode) }

  /** No entry is written: nothing changed, or the type has no arm. */
  predicate Skipped(base: map<string, Inode>, e: WalkEntry) { Unchanged(base, e) || !Written(e.inode.kind) }

  /** The entries that get one. */
  function Sent(base: map<string, Inode>, es: seq<WalkEntry>): (r: seq<WalkEntry>)
    ensures |r| <= |es|
  {
    if es == [] then [] else
    var rest, e := Sent(base, es[..|es| - 1]), es[|es| - 1];
    if Skipped(base, e) then rest else rest + [e]
  }

  function FullOp(e: WalkEntry): Op { Full(e.path, InTar(e.inode)) }

  /** The operation emitted for `es[k]`: what a tar holds of it, or a link to an earlier full entry of the
      same inode. */
  ghost predicate OpFor(ops: seq<Op>, es: seq<WalkEntry>, k: nat)
    requires k < |ops| == |es|
  {
    || ops[k] == FullOp(es[k])
    || (ops[k].Link? && ops[k].path == es[k].path && LinksBack(ops, es, k, ops[k].first, es[k].ino))
  }

  ghost predicate LinksBack(ops: seq<Op>, es: seq<WalkEntry>, k: nat, first: string, ino: nat)
    requires k <= |ops| && |ops| == |es|
  {
    exists j :: 0 <= j < k && ops[j] == FullOp(es[j]) && es[j].path == first && es[j].ino == ino
  }

  ghost predicate OpsFor(ops: seq<Op>, es: seq<WalkEntry>) {
    |ops| == |es| && forall k :: 0 <= k < |es| ==> OpFor(ops, es, k)
  }

  /** Every recorded first path is a full entry already in the delta. */
  ghost predicate SeenOk(seen: map<nat, string>, ops: seq<Op>, es: seq<WalkEntry>)
    requires |ops| == |es|
  {
    forall ino :: ino in seen ==> LinksBack(ops, es, |ops|, seen[ino], ino)
  }

  /** write_entry_to_tar: a link where the inode was written before, else the entry, and
      nothing for a type without an arm. */
  method WriteEntryToTar(e: WalkEntry, seen: map<nat, string>, ghost ops: seq<Op>, ghost es: seq<WalkEntry>)
    returns (op: Option<Op>, seen2: map<nat, string>)
    requires OpsFor(ops, es) && SeenOk(seen, ops, es)
    ensures op.Some? <==> Written(e.inode.kind)
    ensures op.None? ==> seen2 == seen
    ensures op.Some? ==> OpsFor(ops + [op.value], es + [e]) && SeenOk(seen2, ops + [op.value], es + [e])
  {
    op, seen2 := None, seen;
    if e.inode.links > 1 && e.inode.kind == RegularFile {
      if e.ino in seen {
        op := Some(Link(e.path, seen[e.ino]));
        OpsGrow(ops, es, op.value, e, seen, seen2);
        return;
      }
      seen2 := seen[e.ino := e.path];
    }
    if Written(e.inode.kind) {
      op := Some(FullOp(e));
      OpsGrow(ops, es, op.value, e, seen, seen2);
    }
  }

  lemma LinksKept(ops: seq<Op>, es: seq<WalkEntry>, op: Op, e: WalkEntry, k: nat, first: string, ino: nat)
    requires k <= |ops| == |es| && LinksBack(ops, es, k, first, ino)
    ensures forall m :: k <= m <= |ops| + 1 ==> LinksBack(ops + [op], es + [e], m, first, ino)
  {
    var j :| 0 <= j < k && ops[j] == FullOp(es[j]) && es[j].path == first && es[j].ino == ino;
    assert (ops + [op])[j] == FullOp((es + [e])[j]);
  }

  lemma OpsGrow(ops: seq<Op>, es: seq<WalkEntry>, op: Op, e: WalkEntry, seen: map<nat, string>, seen2: map<nat, string>)
    requires OpsFor(ops, es) && SeenOk(seen, ops, es)
    requires (op == FullOp(e) && (seen2 == seen || seen2 == seen[e.ino := e.path]))
             || (e.ino in seen && seen2 == seen && op == Link(e.path, seen[e.ino]))
    ensures OpsFor(ops + [op], es + [e]) && SeenOk(seen2, ops + [op], es + [e])
  {
    var ops2, es2, n := ops + [op], es + [e], |ops|;
    forall k | 0 <= k < |es2| ensures OpFor(ops2, es2, k) {
      if k < n {
        assert OpFor(ops, es, k);
        if ops[k].Link? { LinksKept(ops, es, op, e, k, ops[k].first, es[k].ino); }
      } else if op.Link? {
        LinksKept(ops, es, op, e, n, op.first, e.ino);
      }
    }
    forall ino | ino in seen2 ensures LinksBack(ops2, es2, |ops2|, seen2[ino], ino) {
      if ino in seen && seen2[ino] == seen[ino] { LinksKept(ops, es, op, e, n, seen[ino], ino); }
      else { assert ops2[n] == FullOp(es2[n]); }
    }
  }

  /** Unpacking puts what a tar holds of every emitted entry at its path and touches nothing else. */
  lemma {:induction false} UnpackIs(m: map<string, Inode>, ops: seq<Op>, es: seq<WalkEntry>, p: string)
    requires OpsFor(ops, es) && UniquePaths(es) && Consistent(es)
    ensures p in Unpack(m, ops) <==> p in m || Has(es, p)
    ensures forall i :: 0 <= i < |es| && es[i].path == p ==>
      p in Unpack(m, ops) && Unpack(m, ops)[p] == InTar(es[i].inode)
    ensures p in m && !Has(es, p) ==> Unpack(m, ops)[p] == m[p]
    decreases |ops|
  {
    hide InTar;
    if |ops| > 0 {
      var n := |ops| - 1;
      var op, e := ops[n], es[n];
      var o2, e2 := ops[..n], es[..n];
      OpsPrefix(ops, es);
      UnpackIs(m, o2, e2, p);
      assert OpFor(ops, es, n);
      if op.Link? {
        UnpackIs(m, o2, e2, op.first);
        var j :| 0 <= j < n && ops[j] == FullOp(es[j]) && es[j].path == op.first && es[j].ino == e.ino;
        assert e2[j] == es[j];
        assert Unpack(m, o2)[op.first] == InTar(es[j].inode) == InTar(e.inode);
      }
      assert Unpack(m, ops) == Unpack(m, o2)[e.path := InTar(e.inode)];
      HasPrefix(es, p);
    }
  }

  lemma HasPrefix(es: seq<WalkEntry>, p: string)
    requires |es| > 0
    ensures Has(es, p) <==> Has(es[..|es| - 1], p) || es[|es| - 1].path == p
  {
    var e2 := es[..|es| - 1];
    if Has(e2, p) { var i :| 0 <= i < |e2| && e2[i].path == p; assert es[i].path == p; }
    if Has(es, p) { var i :| 0 <= i < |es| && es[i].path == p; if i < |e2| { assert e2[i].path == p; } }
  }

  lemma OpsPrefix(ops: seq<Op>, es: seq<WalkEntry>)
    requires OpsFor(ops, es) && |ops| > 0 && UniquePaths(es) && Consistent(es)
    ensures OpsFor(ops[..|ops| - 1], es[..|ops| - 1]) && UniquePaths(es[..|ops| - 1]) && Consistent(es[..|ops| - 1])
  {
    var o2, e2 := ops[..|ops| - 1], es[..|ops| - 1];
    forall k | 0 <= k < |e2| ensures OpFor(o2, e2, k) {
      assert OpFor(ops, es, k);
      if ops[k].Link? && ops[k] != FullOp(es[k]) {
        var j :| 0 <= j < k && ops[j] == FullOp(es[j]) && es[j].path == ops[k].first && es[j].ino == es[k].ino;
        assert o2[j] == FullOp(e2[j]);
      }
    }
  }

  lemma {:induction false} TreeHas(es: seq<WalkEntry>, p: string)
    ensures p in TreeOf(es) <==> Has(es, p)
    ensures UniquePaths(es) ==>
      forall i :: 0 <= i < |es| && es[i].path == p ==> p in TreeOf(es) && TreeOf(es)[p] == es[i].inode
  {
    if es != [] {
      TreeHas(es[..|es| - 1], p);
      HasPrefix(es, p);
    }
  }

  lemma {:induction false} SentAre(base: map<string, Inode>, es: seq<WalkEntry>)
    ensures forall k :: 0 <= k < |Sent(base, es)| ==> Sent(base, es)[k] in es && !Skipped(base, Sent(base, es)[k])
    ensures forall i :: 0 <= i < |es| && !Skipped(base, es[i]) ==> es[i] in Sent(base, es)
  {
    hide Skipped;
    if es != [] {
      SentAre(base, es[..|es| - 1]);
      assert es == es[..|es| - 1] + [es[|es| - 1]];
    }
  }

  lemma {:induction false} SentUnique(base: map<string, Inode>, es: seq<WalkEntry>)
    requires UniquePaths(es)
    ensures UniquePaths(Sent(base, es))
  {
    if es != [] {
      var n := |es| - 1;
      var e2 := es[..n];
      SentUnique(base, e2);
      SentAre(base, e2);
      var r2 := Sent(base, e2);
      hide Skipped, Sent;
      forall i | 0 <= i < |r2| ensures r2[i].path != es[n].path {
        var a :| 0 <= a < |e2| && e2[a] == r2[i];
        assert es[a].path != es[n].path;
      }
      assert UniquePaths(r2 + [es[n]]);
    }
    assert UniquePaths(Sent(base, es));
  }

  lemma SentConsistent(base: map<string, Inode>, es: seq<WalkEntry>)
    requires Consistent(es)
    ensures Consistent(Sent(base, es))
  {
    SentAre(base, es);
    hide Skipped, Sent;
    var r := Sent(base, es);
    forall i, j | 0 <= i < |r| && 0 <= j < |r| && r[i].ino == r[j].ino ensures r[i].inode == r[j].inode {
      assert r[i] in es && r[j] in es;
    }
  }

  // ---- whiteouts ----

  /** Progress of the deletion loop over the first `i` base entries. */
  ghost predicate WhitedSoFar(base: seq<WalkEntry>, target: map<string, Inode>, i: nat, ws: seq<string>,
                              prefixes: seq<string>)
    requires i <= |base|
  {
    && (forall j :: 0 <= j < i ==> base[j].path in target || Covered(ws, base[j].path))
    && (forall k :: 0 <= k < |ws| ==> ws[k] !in target && WhitedFrom(base, i, ws[k], prefixes))
    && (forall k :: 0 <= k < |prefixes| ==> PrefixOf(ws, prefixes[k]))
    && Antichain(ws)
  }

  ghost predicate PrefixOf(ws: seq<string>, prefix: string) { exists m :: 0 <= m < |ws| && prefix == ws[m] + "/" }

  /** A whiteout names a base entry, and a directory's prefix is remembered. */
  ghost predicate WhitedFrom(base: seq<WalkEntry>, i: nat, w: string, prefixes: seq<string>)
    requires i <= |base|
  {
    exists j :: 0 <= j < i && base[j].path == w && (base[j].inode.kind == Directory ==> w + "/" in prefixes)
  }

  ghost predicate Antichain(ws: seq<string>) {
    forall a, b :: 0 <= a < |ws| && 0 <= b < |ws| && a != b ==> ws[a] != ws[b] && !Under(ws[a], ws[b])
  }

  /** The second loop of diff_to_tar. */
  method WriteWhiteouts(base: seq<WalkEntry>, target: map<string, Inode>) returns (ws: seq<string>)
    requires UniquePaths(base) && ParentsFirst(base)
    ensures forall j :: 0 <= j < |base| ==> base[j].path in target || Covered(ws, base[j].path)
    ensures forall k :: 0 <= k < |ws| ==> Has(base, ws[k]) && ws[k] !in target
    ensures Antichain(ws)
  {
    ws := [];
    var prefixes: seq<string> := [];
    for i := 0 to |base|
      invariant WhitedSoFar(base, target, i, ws, prefixes)
    {
      hide WhitedSoFar;
      var e := base[i];
      if e.path in target { KeptInTarget(base, target, i, ws, prefixes); continue; }
      var under := StartsWithAny(e.path, prefixes);
      if under { AlreadyCovered(base, target, i, ws, prefixes); continue; }
      WhiteoutAdded(base, target, i, ws, prefixes, if e.inode.kind == Directory then prefixes + [e.path + "/"]
                                                   else prefixes);
      if e.inode.kind == Directory { prefixes := prefixes + [e.path + "/"]; }
      ws := ws + [e.path];
    }
    WhitedAll(base, target, ws, prefixes);
  }

  lemma WhitedAll(base: seq<WalkEntry>, target: map<string, Inode>, ws: seq<string>, prefixes: seq<string>)
    requires WhitedSoFar(base, target, |base|, ws, prefixes)
    ensures forall j :: 0 <= j < |base| ==> base[j].path in target || Covered(ws, base[j].path)
    ensures forall k :: 0 <= k < |ws| ==> Has(base, ws[k]) && ws[k] !in target
    ensures Antichain(ws)
  {
    forall k | 0 <= k < |ws| ensures Has(base, ws[k]) { assert WhitedFrom(base, |base|, ws[k], prefixes); }
  }

  method StartsWithAny(path: string, prefixes: seq<string>) returns (r: bool)
    ensures r <==> exists k :: 0 <= k < |prefixes| && prefixes[k] <= path
  {
    for i := 0 to |prefixes|
      invariant forall k :: 0 <= k < i ==> !(prefixes[k] <= path)
    {
      if prefixes[i] <= path { return true; }
    }
    return false;
  }

  lemma LaterFrom(base: seq<WalkEntry>, i: nat, w: string, prefixes: seq<string>, more: seq<string>)
    requires i < |base| && WhitedFrom(base, i, w, prefixes) && prefixes <= more
    ensures WhitedFrom(base, i + 1, w, more)
  {
    var j :| 0 <= j < i && base[j].path == w && (base[j].inode.kind == Directory ==> w + "/" in prefixes);
  }

  lemma KeptInTarget(base: seq<WalkEntry>, target: map<string, Inode>, i: nat, ws: seq<string>, prefixes: seq<string>)
    requires i < |base| && WhitedSoFar(base, target, i, ws, prefixes)
    requires base[i].path in target || Covered(ws, base[i].path)
    ensures WhitedSoFar(base, target, i + 1, ws, prefixes)
  {
    forall k | 0 <= k < |ws|
      ensures ws[k] !in target && WhitedFrom(base, i + 1, ws[k], prefixes)
    {
      LaterFrom(base, i, ws[k], prefixes, prefixes);
    }
  }

  lemma AlreadyCovered(base: seq<WalkEntry>, target: map<string, Inode>, i: nat, ws: seq<string>, prefixes: seq<string>)
    requires i < |base| && WhitedSoFar(base, target, i, ws, prefixes)
    requires exists k :: 0 <= k < |prefixes| && prefixes[k] <= base[i].path
    ensures WhitedSoFar(base, target, i + 1, ws, prefixes)
  {
    var k :| 0 <= k < |prefixes| && prefixes[k] <= base[i].path;
    assert PrefixOf(ws, prefixes[k]);
    var m :| 0 <= m < |ws| && prefixes[k] == ws[m] + "/";
    assert Under(base[i].path, ws[m]);
    KeptInTarget(base, target, i, ws, prefixes);
  }

  lemma WhiteoutAdded(base: seq<WalkEntry>, target: map<string, Inode>, i: nat, ws: seq<string>,
                      prefixes: seq<string>, more: seq<string>)
    requires UniquePaths(base) && ParentsFirst(base) && i < |base| && WhitedSoFar(base, target, i, ws, prefixes)
    requires base[i].path !in target && forall k :: 0 <= k < |prefixes| ==> !(prefixes[k] <= base[i].path)
    requires more == if base[i].inode.kind == Directory then prefixes + [base[i].path + "/"] else prefixes
    ensures WhitedSoFar(base, target, i + 1, ws + [base[i].path], more)
  {
    var e := base[i];
    var ws2 := ws + [e.path];
    assert ws2[|ws|] == e.path;
    forall j | 0 <= j < i + 1 ensures base[j].path in target || Covered(ws2, base[j].path) {
      if j < i && base[j].path !in target { CoveredMore(ws, e.path, base[j].path); }
    }
    forall k | 0 <= k < |ws2| ensures ws2[k] !in target && WhitedFrom(base, i + 1, ws2[k], more) {
      if k < |ws| { LaterFrom(base, i, ws[k], prefixes, more); }
    }
    forall k | 0 <= k < |more| ensures PrefixOf(ws2, more[k]) {
      if k < |prefixes| {
        assert PrefixOf(ws, prefixes[k]);
        var m :| 0 <= m < |ws| && prefixes[k] == ws[m] + "/";
        assert more[k] == ws2[m] + "/";
      }
      else { assert more[k] == ws2[|ws|] + "/"; }
    }
    forall a | 0 <= a < |ws| ensures ws[a] != e.path && !Under(ws[a], e.path) && !Under(e.path, ws[a]) {
      NotNested(base, i, ws[a], prefixes);
    }
  }

  lemma CoveredMore(ws: seq<string>, w: string, p: string)
    requires Covered(ws, p)
    ensures Covered(ws + [w], p)
  {
    var k :| 0 <= k < |ws| && (p == ws[k] || Under(p, ws[k]));
    assert (ws + [w])[k] == ws[k];
  }

  /** In a preorder, a new whiteout is neither above nor below an old one. */
  lemma NotNested(base: seq<WalkEntry>, i: nat, w: string, prefixes: seq<string>)
    requires UniquePaths(base) && ParentsFirst(base) && i < |base| && WhitedFrom(base, i, w, prefixes)
    requires forall k :: 0 <= k < |prefixes| ==> !(prefixes[k] <= base[i].path)
    ensures w != base[i].path && !Under(w, base[i].path) && !Under(base[i].path, w)
  {
    hide ParentsFirst;
    var j :| 0 <= j < i && base[j].path == w && (base[j].inode.kind == Directory ==> w + "/" in prefixes);
    if Under(w, base[i].path) { UnderHasDir(base, j, base[i].path); assert false; }
    if Under(base[i].path, w) { UnderHasDir(base, i, w); assert false; }
  }

  lemma UnderHasDir(es: seq<WalkEntry>, i: nat, dir: string)
    requires ParentsFirst(es) && i < |es| && Under(es[i].path, dir)
    ensures HasDirBefore(es, i, dir)
  {
    assert es[i].path[|dir|] == '/' && es[i].path[..|dir|] == dir;
  }

  // ---- the whole delta ----

  predicate Same(base: map<string, Inode>, target: map<string, Inode>, p: string)
    requires p in target
  {
    p in base && MetadataEqual(base[p], target[p])
  }

  /** What the delta does give, for any two trees: what a tar holds where an entry was
      written, and the base's inode elsewhere. */
  ghost predicate Result(base: map<string, Inode>, target: map<string, Inode>, r: map<string, Inode>) {
    forall p ::
      && (p in r <==> p in target && (p in base || Written(target[p].kind)))
      && (p in r ==> r[p] == if Same(base, target, p) || !Written(target[p].kind) then base[p] else InTar(target[p]))
  }

  /** What the delta should give: the target's paths, each with what a tar can say of the
      target's inode, changed files with their bytes, and unchanged inodes as they were. */
  ghost predicate Gives(base: map<string, Inode>, target: map<string, Inode>, r: map<string, Inode>) {
    && r.Keys == target.Keys
    && (forall p :: p in target ==> SameEntry(r[p], target[p]))
    && (forall p :: p in target && !Same(base, target, p) && target[p].kind == RegularFile ==>
        r[p].data == target[p].data)
    && (forall p :: p in target && Same(base, target, p) ==> r[p] == base[p])
  }

  /** A changed entry that a tar cannot hold: a time of 2^32 or more, or a type without an arm
      that differs from the base in more than its size. */
  ghost predicate Lost(base: map<string, Inode>, target: map<string, Inode>, p: string)
    requires p in target
  {
    !Same(base, target, p) &&
    if Written(target[p].kind) then target[p].mtime >= U32_LIMIT else !(p in base && SameEntry(base[p], target[p]))
  }

  /** The delta gives the target exactly if no changed entry is lost. */
  lemma GivesExactly(base: map<string, Inode>, target: map<string, Inode>, r: map<string, Inode>)
    requires Result(base, target, r)
    ensures Gives(base, target, r) <==> forall p :: p in target ==> !Lost(base, target, p)
  {
    forall p | p in target ensures p in r && SameEntry(r[p], target[p]) <==> !Lost(base, target, p) {}
    if forall p :: p in target ==> !Lost(base, target, p) {
      forall p | p in target ensures p in r && SameEntry(r[p], target[p]) { assert !Lost(base, target, p); }
    }
  }

  /** Everything that is compared agrees exactly if, besides, no changed entry lacks an arm, and
      those that are no regular files have size 0. */
  lemma MetadataExactly(base: map<string, Inode>, target: map<string, Inode>, r: map<string, Inode>)
    requires Result(base, target, r) && Gives(base, target, r)
    ensures (forall p :: p in target ==> MetadataEqual(r[p], target[p])) <==>
      forall p :: p in target && !Same(base, target, p) && target[p].kind != RegularFile ==>
        Written(target[p].kind) && target[p].size == 0
  {
    hide SameEntry;
    forall p | p in target
      ensures MetadataEqual(r[p], target[p]) <==>
        (!Same(base, target, p) && target[p].kind != RegularFile ==> Written(target[p].kind) && target[p].size == 0)
    {
      assert SameEntry(r[p], target[p]);
    }
  }

  /** An added socket is missing from what the delta gives. */
  lemma SocketLost(i: Inode, r: map<string, Inode>)
    requires i.kind == SOCKET && Result(map[], map["s" := i], r)
    ensures r == map[] && !Gives(map[], map["s" := i], r)
  {
    assert "s" in map["s" := i];
  }

  /** An added file of the year 2106 gets the time 0. */
  lemma TimeCut(i: Inode, r: map<string, Inode>)
    requires i.kind == RegularFile && i.mtime == U32_LIMIT && Result(map[], map["f" := i], r)
    ensures "f" in r && r["f"].mtime == 0 && !Gives(map[], map["f" := i], r)
  {
    assert "f" in map["f" := i];
  }

  /** No whiteout hides a path of the target. */
  lemma TargetNotCovered(target: seq<WalkEntry>, ws: seq<string>, p: string)
    requires ParentsFirst(target) && Has(target, p) && forall k :: 0 <= k < |ws| ==> !Has(target, ws[k])
    ensures !Covered(ws, p)
  {
    hide ParentsFirst;
    var i :| 0 <= i < |target| && target[i].path == p;
    forall k | 0 <= k < |ws| ensures p != ws[k] && !Under(p, ws[k]) {
      assert !Has(target, ws[k]);
      if Under(p, ws[k]) { UnderHasDir(target, i, ws[k]); assert false; }
    }
  }

  /** diff_to_tar: for any two walks, what the delta applied to the base gives, and exactly
      when that is the target. */
  method DiffToTar(base: seq<WalkEntry>, target: seq<WalkEntry>) returns (d: Delta)
    requires Preorder(base) && Preorder(target)
    ensures Result(TreeOf(base), TreeOf(target), Apply(TreeOf(base), d))
    ensures Gives(TreeOf(base), TreeOf(target), Apply(TreeOf(base), d)) <==>
      forall p :: p in TreeOf(target) ==> !Lost(TreeOf(base), TreeOf(target), p)
    ensures OpsFor(d.adds, Sent(TreeOf(base), target))
    ensures Antichain(d.whiteouts) && forall p :: Has(target, p) ==> !Covered(d.whiteouts, p)
  {
    hide OpsFor, SeenOk, Unchanged, Gives, Antichain, Written, Result, Lost;
    var baseMap := TreeOf(base);
    var ops: seq<Op> := [];
    var seen: map<nat, string> := map[];
    NoOps();
    assert target[..0] == [];
    for i := 0 to |target|
      invariant OpsFor(ops, Sent(baseMap, target[..i])) && |ops| == |Sent(baseMap, target[..i])|
      invariant SeenOk(seen, ops, Sent(baseMap, target[..i]))
    {
      assert target[..i + 1][..i] == target[..i];
      if Unchanged(baseMap, target[i]) { continue; }
      var op;
      op, seen := WriteEntryToTar(target[i], seen, ops, Sent(baseMap, target[..i]));
      if op.Some? {
        ops := ops + [op.value];
        SameLength(ops, Sent(baseMap, target[..i + 1]));
      }
    }
    assert target[..|target|] == target;
    var ws := WriteWhiteouts(base, TreeOf(target));
    d := Delta(ops, ws);
    forall p | Has(target, p) ensures !Covered(ws, p) {
      forall k | 0 <= k < |ws| ensures !Has(target, ws[k]) { TreeHas(target, ws[k]); }
      TargetNotCovered(target, ws, p);
    }
    DeltaResult(base, target, d);
    GivesExactly(TreeOf(base), TreeOf(target), Apply(TreeOf(base), d));
  }

  lemma NoOps()
    ensures OpsFor([], []) && SeenOk(map[], [], [])
  {
  }

  lemma SameLength(ops: seq<Op>, es: seq<WalkEntry>)
    requires OpsFor(ops, es)
    ensures |ops| == |es|
  {
  }

  lemma DeltaResult(base: seq<WalkEntry>, target: seq<WalkEntry>, d: Delta)
    requires Preorder(base) && Preorder(target) && OpsFor(d.adds, Sent(TreeOf(base), target))
    requires forall j :: 0 <= j < |base| ==> base[j].path in TreeOf(target) || Covered(d.whiteouts, base[j].path)
    requires forall p :: Has(target, p) ==> !Covered(d.whiteouts, p)
    ensures Result(TreeOf(base), TreeOf(target), Apply(TreeOf(base), d))
  {
    hide Apply, TreeOf, OpsFor, Preorder, Covered, MetadataEqual, InTar, Written;
    var b, t, r := TreeOf(base), TreeOf(target), Apply(TreeOf(base), d);
    forall p
      ensures p in r <==> p in t && (p in b || Written(t[p].kind))
      ensures p in r ==> r[p] == if Same(b, t, p) || !Written(t[p].kind) then b[p] else InTar(t[p])
    {
      DeltaAt(base, target, d, p);
    }
  }

  lemma DeltaAt(base: seq<WalkEntry>, target: seq<WalkEntry>, d: Delta, p: string)
    requires Preorder(base) && Preorder(target) && OpsFor(d.adds, Sent(TreeOf(base), target))
    requires forall j :: 0 <= j < |base| ==> base[j].path in TreeOf(target) || Covered(d.whiteouts, base[j].path)
    requires forall p :: Has(target, p) ==> !Covered(d.whiteouts, p)
    ensures var b, t, r := TreeOf(base), TreeOf(target), Apply(TreeOf(base), d);
      && (p in r <==> p in t && (p in b || Written(t[p].kind)))
      && (p in r ==> r[p] == if Same(b, t, p) || !Written(t[p].kind) then b[p] else InTar(t[p]))
  {
    hide OpsFor, Sent, Unpack, TreeOf, Covered, MetadataEqual, ParentsFirst, UniquePaths, Consistent, InTar, Written;
    var b, t, es := TreeOf(base), TreeOf(target), Sent(TreeOf(base), target);
    var m := map q | q in b && !Covered(d.whiteouts, q) :: b[q];
    TreeHas(base, p);
    TreeHas(target, p);
    SentAre(b, target);
    SentUnique(b, target);
    SentConsistent(b, target);
    UnpackIs(m, d.adds, es, p);
    if Has(es, p) { SentHas(target, es, p); }
    if Has(target, p) {
      var i :| 0 <= i < |target| && target[i].path == p;
      if Skipped(b, target[i]) { SkippedAbsent(b, target, es, i); }
      else { var k :| 0 <= k < |es| && es[k] == target[i]; }
    }
  }

  lemma SkippedAbsent(b: map<string, Inode>, target: seq<WalkEntry>, es: seq<WalkEntry>, i: nat)
    requires UniquePaths(target) && i < |target| && Skipped(b, target[i])
    requires forall k :: 0 <= k < |es| ==> es[k] in target && !Skipped(b, es[k])
    ensures !Has(es, target[i].path)
  {
    hide Skipped;
    forall k | 0 <= k < |es| ensures es[k].path != target[i].path {
      var j :| 0 <= j < |target| && target[j] == es[k];
      assert j != i;
    }
  }

  lemma SentHas(target: seq<WalkEntry>, es: seq<WalkEntry>, p: string)
    requires (forall k :: 0 <= k < |es| ==> es[k] in target) && Has(es, p)
    ensures Has(target, p)
  {
    var k :| 0 <= k < |es| && es[k].path == p;
    assert es[k] in target;
  }

  // ---- the walk ----

  type Fs = map<nat, Inode>

  const INODE_ROOT: nat := 2
  const INODE_FIRST: nat := 11

  ghost predicate NoSlash(name: string) { name != "" && forall i :: 0 <= i < |name| ==> name[i] != '/' }

  /** Directory entries have names of their own, without slashes. */
  ghost predicate GoodNames(fs: Fs) {
    forall ino :: ino in fs ==>
      && (forall i :: 0 <= i < |fs[ino].children| ==> NoSlash(fs[ino].children[i].name))
      && (forall i, j :: 0 <= i < j < |fs[ino].children| ==> fs[ino].children[i].name != fs[ino].children[j].name)
  }

  function Inside(prefix: string): string { if prefix == "" then "" else prefix + "/" }

  predicate At(p: string, root: string) { p == root || Under(p, root) }

  ghost predicate FromFs(fs: Fs, es: seq<WalkEntry>) {
    forall i :: 0 <= i < |es| ==> es[i].ino in fs && es[i].inode == fs[es[i].ino]
  }

  ghost predicate Walked(fs: Fs, es: seq<WalkEntry>) { UniquePaths(es) && ParentsFirst(es) && FromFs(fs, es) }

  /** `prefix` is the root, or a directory already listed. */
  ghost predicate Entered(es: seq<WalkEntry>, prefix: string) { prefix == "" || HasDirBefore(es, |es|, prefix) }

  ghost predicate NoneInside(es: seq<WalkEntry>, base: string) { forall i :: 0 <= i < |es| ==> !(base <= es[i].path) }

  ghost predicate NoneAt(es: seq<WalkEntry>, base: string, children: seq<Child>, from: nat) {
    forall i, x :: 0 <= i < |es| && from <= x < |children| ==> !At(es[i].path, base + children[x].name)
  }

  ghost predicate NewInside(es: seq<WalkEntry>, n: nat, base: string) {
    forall i :: n <= i < |es| ==> base <= es[i].path
  }

  // ---- where a path leads ----

  function ChildNamed(cs: seq<Child>, name: string): (r: Option<nat>)
    ensures r.Some? ==> exists j :: 0 <= j < |cs| && cs[j].name == name && cs[j].ino == r.value
  {
    if cs == [] then None else if cs[|cs| - 1].name == name then Some(cs[|cs| - 1].ino)
    else ChildNamed(cs[..|cs| - 1], name)
  }

  predicate Reserved(ino: nat) { ino < INODE_FIRST && ino != INODE_ROOT }

  /** The entry of directory `dir`, unless its inode is reserved. */
  function StepTo(fs: Fs, dir: nat, name: string): Option<nat> {
    if dir !in fs then None else
    var r := ChildNamed(fs[dir].children, name);
    if r.Some? && Reserved(r.value) then None else r
  }

  /** The inode that a path leads to from the root, component by component. */
  function PathIno(fs: Fs, p: string): Option<nat>
    decreases |p|
  {
    var n := LayerMerge.AfterSlash(p);
    if n == 0 then StepTo(fs, INODE_ROOT, p) else
    var d := PathIno(fs, p[..n - 1]);
    if d.None? || d.value !in fs || fs[d.value].kind != Directory then None else StepTo(fs, d.value, p[n..])
  }

  ghost predicate IsDir(fs: Fs, r: Option<nat>) { r.Some? && r.value in fs && fs[r.value].kind == Directory }

  /** `dir` is what `prefix` leads to. */
  ghost predicate Leading(fs: Fs, prefix: string, dir: nat) {
    if prefix == "" then dir == INODE_ROOT else IsDir(fs, PathIno(fs, prefix)) && PathIno(fs, prefix) == Some(dir)
  }

  lemma SlashBefore(b: string, name: string)
    requires (b == "" || b[|b| - 1] == '/') && forall i :: 0 <= i < |name| ==> name[i] != '/'
    ensures LayerMerge.AfterSlash(b + name) == |b|
  {
    hide LayerMerge.AfterSlash;
    AfterIs(b + name, |b|);
  }

  lemma PathStep(fs: Fs, prefix: string, dir: nat, name: string)
    requires Leading(fs, prefix, dir) && forall i :: 0 <= i < |name| ==> name[i] != '/'
    ensures PathIno(fs, Inside(prefix) + name) == StepTo(fs, dir, name)
  {
    hide LayerMerge.AfterSlash, StepTo;
    SlashBefore(Inside(prefix), name);
    var p := Inside(prefix) + name;
    assert p[|Inside(prefix)|..] == name;
    if prefix != "" { assert p[..|Inside(prefix)| - 1] == prefix; }
  }

  /** Nothing is inside what is not a directory. */
  lemma {:induction false} StopsBelow(fs: Fs, q: string, p: string)
    requires Under(p, q) && !IsDir(fs, PathIno(fs, q))
    ensures PathIno(fs, p).None?
    decreases |p|
  {
    var n := LayerMerge.AfterSlash(p);
    assert p[|q|] == '/' by { assert (q + "/")[|q|] == '/'; }
    if n - 1 == |q| { assert p[..n - 1] == q; }
    else {
      assert q + "/" <= p[..n - 1];
      StopsBelow(fs, q, p[..n - 1]);
    }
  }

  /** A path inside a directory starts with one of its entries. */
  lemma {:induction false} FirstComponent(fs: Fs, prefix: string, dir: nat, p: string) returns (x: nat)
    requires Leading(fs, prefix, dir) && dir in fs && Inside(prefix) <= p && PathIno(fs, p).Some?
    ensures x < |fs[dir].children| && At(p, Inside(prefix) + fs[dir].children[x].name)
    decreases |p|
  {
    var n, b := LayerMerge.AfterSlash(p), Inside(prefix);
    if prefix != "" { assert p[|b| - 1] == '/'; assert n >= |b|; }
    if n == |b| {
      if prefix != "" { assert p[..n - 1] == prefix; }
      assert StepTo(fs, dir, p[n..]).Some?;
      x :| 0 <= x < |fs[dir].children| && fs[dir].children[x].name == p[n..];
      assert p == b + p[n..];
    } else {
      assert b <= p[..n - 1];
      x := FirstComponent(fs, prefix, dir, p[..n - 1]);
      Deeper(p, n, b + fs[dir].children[x].name);
    }
  }

  lemma Deeper(p: string, n: nat, q: string)
    requires 0 < n <= |p| && p[n - 1] == '/' && At(p[..n - 1], q)
    ensures At(p, q)
  {
    if p[..n - 1] == q { assert p[..n] == q + "/"; }
  }

  lemma {:induction false} ChildIs(cs: seq<Child>, c: nat)
    requires c < |cs| && forall i, j :: 0 <= i < j < |cs| ==> cs[i].name != cs[j].name
    ensures ChildNamed(cs, cs[c].name) == Some(cs[c].ino)
  {
    if c < |cs| - 1 { ChildIs(cs[..|cs| - 1], c); }
  }

  /** Every entry is where its path leads. */
  ghost predicate Located(fs: Fs, es: seq<WalkEntry>) {
    forall i :: 0 <= i < |es| ==> PathIno(fs, es[i].path) == Some(es[i].ino)
  }

  /** Every path at `q` that leads somewhere is listed. */
  ghost predicate ListedAt(fs: Fs, es: seq<WalkEntry>, q: string) {
    forall p :: At(p, q) && PathIno(fs, p).Some? ==> Has(es, p)
  }

  ghost predicate ListedInside(fs: Fs, es: seq<WalkEntry>, base: string) {
    forall p :: base <= p && PathIno(fs, p).Some? ==> Has(es, p)
  }

  /** The first `c` entries of a directory have been walked. */
  ghost predicate WalkedTo(fs: Fs, es: seq<WalkEntry>, base: string, children: seq<Child>, c: nat)
    requires c <= |children|
  {
    forall x :: 0 <= x < c ==> ListedAt(fs, es, base + children[x].name)
  }

  ghost function Dirs(es: seq<WalkEntry>): set<nat> {
    {INODE_ROOT} + set i | 0 <= i < |es| && es[i].inode.kind == Directory :: es[i].ino
  }

  /** No directory is listed twice, and the root not at all. */
  ghost predicate DirsOnce(es: seq<WalkEntry>) {
    && (forall i :: 0 <= i < |es| && es[i].inode.kind == Directory ==> es[i].ino != INODE_ROOT)
    && forall i, j :: 0 <= i < j < |es| && es[i].inode.kind == Directory && es[i].ino == es[j].ino ==>
      es[j].inode.kind != Directory
  }

  /** A path that leads to an inode that cannot be read; to the root; two that lead to the
      same directory. */
  ghost predicate Missing(fs: Fs, p: string) { PathIno(fs, p).Some? && PathIno(fs, p).value !in fs }
  ghost predicate ToRoot(fs: Fs, p: string) { PathIno(fs, p) == Some(INODE_ROOT) && IsDir(fs, PathIno(fs, p)) }
  ghost predicate Twice(fs: Fs, p: string, q: string) { p != q && PathIno(fs, p) == PathIno(fs, q) && IsDir(fs,
                        PathIno(fs, p)) }

  /** The filesystem is a tree of directories that can all be read. */
  ghost predicate Walkable(fs: Fs) {
    INODE_ROOT in fs && (forall p :: !Missing(fs, p)) && (forall p :: !ToRoot(fs, p)) && forall p, q :: !Twice(fs, p, q)
  }

  /** On entry: nothing is listed yet, or the directory to walk is the last entry. */
  ghost predicate Entering(entries: seq<WalkEntry>, dir: nat, prefix: string, visited: set<nat>) {
    if prefix == "" then dir == INODE_ROOT && entries == [] && visited == {}
    else
      var n := |entries| - 1;
      && n >= 0 && entries[n].path == prefix && entries[n].ino == dir && entries[n].inode.kind == Directory
      && visited == Dirs(entries[..n]) && DirsOnce(entries[..n])
  }

  /** What is listed so far is right. */
  ghost predicate Good(fs: Fs, es: seq<WalkEntry>) { Walked(fs, es) && Located(fs, es) }

  lemma GoodPushed(fs: Fs, es: seq<WalkEntry>, e: WalkEntry)
    requires Located(fs, es) && PathIno(fs, e.path) == Some(e.ino)
    ensures Located(fs, es + [e])
  {
    hide PathIno;
  }

  /** walk_recursive: a directory met twice is an error, so the walk always ends. What a
      successful walk appends is exactly what the paths inside the directory lead to, each
      path once and parents first; it only fails on a filesystem that is not walkable. */
  method WalkRecursive(fs: Fs, dir: nat, prefix: string, entries: seq<WalkEntry>, visited: set<nat>)
    returns (ok: bool, es: seq<WalkEntry>, seen: set<nat>)
    requires GoodNames(fs) && Good(fs, entries) && Entered(entries, prefix) && Leading(fs, prefix, dir)
    requires NoneInside(entries, Inside(prefix)) && visited <= fs.Keys && Entering(entries, dir, prefix, visited)
    ensures visited <= seen <= fs.Keys
    ensures ok ==> dir in fs && entries <= es && Good(fs, es) && NewInside(es, |entries|, Inside(prefix))
    ensures ok ==> ListedInside(fs, es, Inside(prefix)) && seen == Dirs(es) && DirsOnce(es)
    ensures !ok ==> !Walkable(fs)
    decreases fs.Keys - visited
  {
    es, seen := entries, visited;
    hide Walked, Located, GoodNames, Entered, NoneInside, NoneAt, NewInside, ListedInside, WalkedTo, DirsOnce, Dirs,
         Walkable, Leading, Entering, PathIno, StepTo;
    if dir !in fs || dir in visited { WalkStops(fs, dir, prefix, entries, visited); return false, es, seen; }
    seen := visited + {dir};
    var children, base := fs[dir].children, Inside(prefix);
    WalkStarts(entries, base, children);
    NowEntered(fs, entries, dir, prefix, visited);
    for c := 0 to |children|
      invariant visited + {dir} <= seen <= fs.Keys && seen == Dirs(es) && DirsOnce(es)
      invariant entries <= es && Good(fs, es) && Entered(es, prefix) && WalkedTo(fs, es, base, children, c)
      invariant NoneAt(es, base, children, c) && NewInside(es, |entries|, base)
    {
      var child := children[c];
      ChildPath(fs, prefix, dir, c);
      if Reserved(child.ino) {
        SkipOne(es, base, children, c);
        ChildSkipped(fs, es, base, children, c);
        continue;
      }
      var path := base + child.name;
      if child.ino !in fs { assert Missing(fs, path); NotWalkable(fs, path, path); return false, es, seen; }
      var pushed := es + [WalkEntry(path, child.ino, fs[child.ino])];
      EntryPushed(fs, es, dir, prefix, c, |entries|);
      GoodPushed(fs, es, pushed[|es|]);
      if fs[child.ino].kind == Directory {
        var good;
        ghost var was := es;
        NextEntering(fs, es, dir, prefix, c, seen);
        good, es, seen := WalkRecursive(fs, child.ino, path, pushed, seen);
        if !good { return false, es, seen; }
        SubtreeWalked(fs, pushed, es, dir, prefix, c, |entries|);
        ChildWalked(fs, was, pushed, es, base, children, c);
      } else {
        FileWalked(fs, es, pushed, base, children, c);
        DirsPushed(es, pushed[|es|]);
        es := pushed;
      }
    }
    ok := true;
    AllWalked(fs, es, dir, prefix);
  }

  /** Where an entry's path leads. */
  lemma ChildPath(fs: Fs, prefix: string, dir: nat, c: nat)
    requires GoodNames(fs) && dir in fs && c < |fs[dir].children| && Leading(fs, prefix, dir)
    ensures var child := fs[dir].children[c];
      PathIno(fs, Inside(prefix) + child.name) == if Reserved(child.ino) then None else Some(child.ino)
  {
    hide PathIno, Leading;
    var child := fs[dir].children[c];
    assert NoSlash(child.name);
    PathStep(fs, prefix, dir, child.name);
    ChildIs(fs[dir].children, c);
  }

  lemma NotWalkable(fs: Fs, p: string, q: string)
    requires Missing(fs, p) || ToRoot(fs, p) || Twice(fs, p, q)
    ensures !Walkable(fs)
  {
    hide Missing, ToRoot, Twice;
  }

  lemma WalkStops(fs: Fs, dir: nat, prefix: string, entries: seq<WalkEntry>, visited: set<nat>)
    requires Good(fs, entries) && Leading(fs, prefix, dir) && Entering(entries, dir, prefix, visited)
    requires dir !in fs || dir in visited
    ensures !Walkable(fs)
  {
    hide PathIno, ParentsFirst;
    if prefix != "" {
      var n := |entries| - 1;
      if dir == INODE_ROOT { assert ToRoot(fs, prefix); NotWalkable(fs, prefix, prefix); }
      else {
        var i :| 0 <= i < n && entries[..n][i].inode.kind == Directory && entries[..n][i].ino == dir;
        assert entries[i].path != entries[n].path;
        assert Twice(fs, prefix, entries[i].path);
        NotWalkable(fs, prefix, entries[i].path);
      }
    }
  }

  lemma NowEntered(fs: Fs, entries: seq<WalkEntry>, dir: nat, prefix: string, visited: set<nat>)
    requires Entering(entries, dir, prefix, visited) && dir !in visited
    ensures visited + {dir} == Dirs(entries) && DirsOnce(entries)
    ensures forall children, base :: WalkedTo(fs, entries, base, children, 0)
  {
    if prefix != "" {
      DirsPushed(entries[..|entries| - 1], entries[|entries| - 1]);
      assert entries[..|entries| - 1] + [entries[|entries| - 1]] == entries;
    }
  }

  lemma DirsPushed(es: seq<WalkEntry>, e: WalkEntry)
    ensures Dirs(es + [e]) == if e.inode.kind == Directory then Dirs(es) + {e.ino} else Dirs(es)
    ensures DirsOnce(es) && (e.inode.kind == Directory ==> e.ino !in Dirs(es)) ==> DirsOnce(es + [e])
  {
    var all := es + [e];
    assert all[|es|] == e;
    assert forall i :: 0 <= i < |es| ==> all[i] == es[i];
    forall x | x in Dirs(es) ensures x in Dirs(all) {
      if x != INODE_ROOT {
        var i :| 0 <= i < |es| && es[i].inode.kind == Directory && es[i].ino == x;
        assert all[i].ino == x;
      }
    }
  }

  lemma NextEntering(fs: Fs, es: seq<WalkEntry>, dir: nat, prefix: string, c: nat, seen: set<nat>)
    requires GoodNames(fs) && dir in fs && c < |fs[dir].children| && Leading(fs, prefix, dir)
    requires seen == Dirs(es) && DirsOnce(es)
    requires var ino := fs[dir].children[c].ino; !Reserved(ino) && ino in fs && fs[ino].kind == Directory
    ensures var child := fs[dir].children[c];
      var path := Inside(prefix) + child.name;
      && path != "" && Leading(fs, path, child.ino)
      && Entering(es + [WalkEntry(path, child.ino, fs[child.ino])], child.ino, path, seen)
  {
    hide PathIno, Dirs, DirsOnce;
    ChildPath(fs, prefix, dir, c);
    var child := fs[dir].children[c];
    var path := Inside(prefix) + child.name;
    assert NoSlash(child.name);
    assert path != "";
    var pushed := es + [WalkEntry(path, child.ino, fs[child.ino])];
    assert pushed[..|pushed| - 1] == es;
  }

  lemma ListedMore(fs: Fs, es: seq<WalkEntry>, more: seq<WalkEntry>, q: string)
    requires ListedAt(fs, es, q) && es <= more
    ensures ListedAt(fs, more, q)
  {
    hide At, PathIno;
    forall p | At(p, q) && PathIno(fs, p).Some? ensures Has(more, p) {
      var i :| 0 <= i < |es| && es[i].path == p;
      assert more[i] == es[i];
    }
  }

  lemma WalkedMore(fs: Fs, es: seq<WalkEntry>, more: seq<WalkEntry>, base: string, children: seq<Child>, c: nat)
    requires c <= |children| && WalkedTo(fs, es, base, children, c) && es <= more
    ensures WalkedTo(fs, more, base, children, c)
  {
    hide ListedAt;
    forall x | 0 <= x < c
      ensures ListedAt(fs, more, base + children[x].name)
    {
      ListedMore(fs, es, more, base + children[x].name);
    }
  }

  lemma ChildSkipped(fs: Fs, es: seq<WalkEntry>, base: string, children: seq<Child>, c: nat)
    requires c < |children| && WalkedTo(fs, es, base, children, c) && PathIno(fs, base + children[c].name).None?
    ensures WalkedTo(fs, es, base, children, c + 1)
  {
    hide PathIno;
    var q := base + children[c].name;
    forall p | At(p, q) ensures PathIno(fs, p).None? { if p != q { StopsBelow(fs, q, p); } }
  }

  lemma FileWalked(fs: Fs, es: seq<WalkEntry>, pushed: seq<WalkEntry>, base: string, children: seq<Child>, c: nat)
    requires c < |children| && WalkedTo(fs, es, base, children, c) && !IsDir(fs, PathIno(fs, base + children[c].name))
    requires |pushed| == |es| + 1 && es <= pushed && pushed[|es|].path == base + children[c].name
    ensures WalkedTo(fs, pushed, base, children, c + 1)
  {
    WalkedMore(fs, es, pushed, base, children, c);
    hide PathIno, IsDir;
    var q := base + children[c].name;
    forall p | At(p, q) && PathIno(fs, p).Some? ensures Has(pushed, p) {
      if p == q { assert pushed[|es|].path == p; } else { StopsBelow(fs, q, p); assert false; }
    }
  }

  lemma ChildWalked(fs: Fs, was: seq<WalkEntry>, pushed: seq<WalkEntry>, es: seq<WalkEntry>, base: string,
                    children: seq<Child>, c: nat)
    requires c < |children| && WalkedTo(fs, was, base, children, c) && was <= pushed <= es && |pushed| == |was| + 1
    requires pushed[|was|].path == base + children[c].name && ListedInside(fs, es, Inside(base + children[c].name))
    requires base + children[c].name != ""
    ensures WalkedTo(fs, es, base, children, c + 1)
  {
    WalkedMore(fs, was, es, base, children, c);
    hide PathIno;
    var q := base + children[c].name;
    forall p | At(p, q) && PathIno(fs, p).Some? ensures Has(es, p) {
      if p == q { assert es[|was|].path == p; } else { assert Inside(q) <= p; }
    }
  }

  lemma AllWalked(fs: Fs, es: seq<WalkEntry>, dir: nat, prefix: string)
    requires dir in fs && Leading(fs, prefix, dir)
    requires WalkedTo(fs, es, Inside(prefix), fs[dir].children, |fs[dir].children|)
    ensures ListedInside(fs, es, Inside(prefix))
  {
    hide PathIno, At;
    forall p | Inside(prefix) <= p && PathIno(fs, p).Some? ensures Has(es, p) {
      var x := FirstComponent(fs, prefix, dir, p);
      assert ListedAt(fs, es, Inside(prefix) + fs[dir].children[x].name);
    }
  }

  lemma WalkStarts(es: seq<WalkEntry>, base: string, children: seq<Child>)
    requires NoneInside(es, base)
    ensures NoneAt(es, base, children, 0) && NewInside(es, |es|, base)
  {
    forall i, x | 0 <= i < |es| && 0 <= x < |children| ensures !At(es[i].path, base + children[x].name) {
      if At(es[i].path, base + children[x].name) { AtInside(es[i].path, base, children[x].name); assert false; }
    }
  }

  lemma AtInside(p: string, base: string, name: string)
    requires At(p, base + name)
    ensures base <= p
  {
    if Under(p, base + name) { assert base + name <= (base + name) + "/" <= p; }
  }

  lemma SkipOne(es: seq<WalkEntry>, base: string, children: seq<Child>, c: nat)
    requires NoneAt(es, base, children, c)
    ensures NoneAt(es, base, children, c + 1)
  {
  }

  /** A path lies at one child only. */
  lemma SameChild(base: string, a: string, b: string, p: string)
    requires NoSlash(a) && NoSlash(b) && At(p, base + a) && At(p, base + b)
    ensures a == b
  {
    var n := |base|;
    AtShape(base, a, p);
    AtShape(base, b, p);
    assert |a| == |b|;
    assert a == p[n..n + |a|];
    assert b == p[n..n + |b|];
  }

  lemma AtShape(base: string, a: string, p: string)
    requires At(p, base + a)
    ensures base + a <= p && (|p| > |base| + |a| ==> p[|base| + |a|] == '/')
    ensures forall i :: 0 <= i < |a| ==> p[|base| + i] == a[i]
  {
    if Under(p, base + a) { assert (base + a + "/")[|base| + |a|] == '/'; assert base + a + "/" <= p; }
    forall i | 0 <= i < |a| ensures p[|base| + i] == a[i] { assert (base + a)[|base| + i] == a[i]; }
  }

  lemma EntryPushed(fs: Fs, es: seq<WalkEntry>, dir: nat, prefix: string, c: nat, n: nat)
    requires GoodNames(fs) && Walked(fs, es) && Entered(es, prefix) && dir in fs && c < |fs[dir].children| && n <= |es|
    requires fs[dir].children[c].ino in fs && NoneAt(es, Inside(prefix), fs[dir].children, c)
    requires NewInside(es, n, Inside(prefix))
    ensures var child, base := fs[dir].children[c], Inside(prefix);
      var inode := fs[child.ino];
      var pushed := es + [WalkEntry(base + child.name, child.ino, inode)];
      && Walked(fs, pushed) && Entered(pushed, prefix) && NoneAt(pushed, base, fs[dir].children, c + 1)
      && NewInside(pushed, n, base)
      && (inode.kind == Directory ==>
          Entered(pushed, base + child.name) && NoneInside(pushed, Inside(base + child.name)))
  {
    var children, child, base := fs[dir].children, fs[dir].children[c], Inside(prefix);
    var path := base + child.name;
    var e := WalkEntry(path, child.ino, fs[child.ino]);
    var pushed := es + [e];
    assert NoSlash(child.name);
    assert pushed[|es|] == e;
    forall i | 0 <= i < |es|
      ensures es[i].path != path && !Under(es[i].path, path)
    {
      assert !At(es[i].path, base + children[c].name);
    }
    ParentsPushed(es, e, prefix, child.name);
    forall i, x | 0 <= i < |pushed| && c + 1 <= x < |children| ensures !At(pushed[i].path, base + children[x].name) {
      if i < |es| { assert !At(es[i].path, base + children[x].name); }
      else if At(path, base + children[x].name) { SameChild(base, child.name, children[x].name, path); assert false; }
    }
    if prefix != "" { DirKept(es, e, |es|, prefix); }
    hide At;
    assert !(Inside(path) <= path);
    assert forall i :: 0 <= i < |es| ==> pushed[i] == es[i];
  }

  lemma DirKept(es: seq<WalkEntry>, e: WalkEntry, i: nat, dir: string)
    requires HasDirBefore(es, i, dir) && i <= |es|
    ensures HasDirBefore(es + [e], i, dir) && HasDirBefore(es + [e], |es| + 1, dir)
  {
    var j :| 0 <= j < i && j < |es| && es[j].path == dir && es[j].inode.kind == Directory;
    assert (es + [e])[j] == es[j];
  }

  lemma ParentsPushed(es: seq<WalkEntry>, e: WalkEntry, prefix: string, name: string)
    requires ParentsFirst(es) && Entered(es, prefix) && NoSlash(name) && e.path == Inside(prefix) + name
    ensures ParentsFirst(es + [e])
  {
    var all := es + [e];
    forall i, c | 0 <= i < |all| && 0 <= c < |all[i].path| && all[i].path[c] == '/'
      ensures HasDirBefore(all, i, all[i].path[..c])
    {
      if i < |es| {
        assert HasDirBefore(es, i, es[i].path[..c]);
        DirKept(es, e, i, es[i].path[..c]);
      } else {
        SlashAt(prefix, name, c);
        if c == |prefix| { assert e.path[..c] == prefix; DirKept(es, e, |es|, prefix); }
        else {
          var j :| 0 <= j < |es| && es[j].path == prefix && es[j].inode.kind == Directory;
          assert e.path[..c] == prefix[..c] && prefix[c] == '/';
          assert HasDirBefore(es, j, es[j].path[..c]);
          DirKept(es, e, j, prefix[..c]);
        }
      }
    }
  }

  lemma SlashAt(prefix: string, name: string, c: nat)
    requires NoSlash(name) && c < |Inside(prefix) + name| && (Inside(prefix) + name)[c] == '/'
    ensures prefix != "" && c <= |prefix|
  {
  }

  lemma SubtreeWalked(fs: Fs, pushed: seq<WalkEntry>, es: seq<WalkEntry>, dir: nat, prefix: string, c: nat, n: nat)
    requires GoodNames(fs) && dir in fs && c < |fs[dir].children| && pushed <= es && n <= |pushed|
    requires NoneAt(pushed, Inside(prefix), fs[dir].children, c + 1) && NewInside(pushed, n, Inside(prefix))
    requires Entered(pushed, prefix)
    requires NewInside(es, |pushed|, Inside(Inside(prefix) + fs[dir].children[c].name))
    ensures NoneAt(es, Inside(prefix), fs[dir].children, c + 1) && NewInside(es, n, Inside(prefix))
    ensures Entered(es, prefix)
  {
    var children, base := fs[dir].children, Inside(prefix);
    var name := children[c].name;
    assert NoSlash(name);
    assert forall i :: 0 <= i < |pushed| ==> es[i] == pushed[i];
    forall i | |pushed| <= i < |es| ensures At(es[i].path, base + name) { assert Inside(base + name) <= es[i].path; }
    forall i | n <= i < |es| ensures base <= es[i].path { if i >= |pushed| { AtInside(es[i].path, base, name); } }
    forall i, x | 0 <= i < |es| && c + 1 <= x < |children| ensures !At(es[i].path, base + children[x].name) {
      if i < |pushed| { assert !At(pushed[i].path, base + children[x].name); }
      else if At(es[i].path, base + children[x].name) {
        SameChild(base, name, children[x].name, es[i].path);
        assert false;
      }
    }
    if prefix != "" {
      var j :| 0 <= j < |pushed| && pushed[j].path == prefix && pushed[j].inode.kind == Directory;
      assert es[j] == pushed[j];
    }
  }

  /** The listing is the tree: a path is listed exactly if it leads to an inode from the
      root, and its entry is that inode. */
  ghost predicate Complete(fs: Fs, es: seq<WalkEntry>) {
    Located(fs, es) && FromFs(fs, es) && forall p :: Has(es, p) <==> PathIno(fs, p).Some?
  }

  /** walk: succeeds exactly on walkable filesystems, with the whole tree in an order that
      diff_to_tar relies on. */
  method Walk(fs: Fs) returns (ok: bool, es: seq<WalkEntry>)
    requires GoodNames(fs)
    ensures ok <==> Walkable(fs)
    ensures ok ==> Preorder(es) && Complete(fs, es)
  {
    hide Walkable;
    var seen;
    ok, es, seen := WalkRecursive(fs, INODE_ROOT, "", [], {});
    if ok { CompleteFrom(fs, es); }
  }

  lemma CompleteFrom(fs: Fs, es: seq<WalkEntry>)
    requires Good(fs, es) && ListedInside(fs, es, "") && DirsOnce(es) && INODE_ROOT in fs
    ensures Complete(fs, es) && Preorder(es) && Walkable(fs)
  {
    hide PathIno, ParentsFirst;
    forall p ensures Has(es, p) <==> PathIno(fs, p).Some? { assert "" <= p; }
    forall p ensures !Missing(fs, p) && !ToRoot(fs, p) { if PathIno(fs, p).Some? { assert Has(es, p); } }
    forall p, q
      ensures !Twice(fs, p, q)
    {
      if PathIno(fs, p).Some? && PathIno(fs, q).Some? { assert Has(es, p) && Has(es, q); }
    }
  }

  /** The tree of a filesystem: every path that leads somewhere, with its inode. */
  ghost predicate IsTree(fs: Fs, m: map<string, Inode>) {
    && (forall p :: p in m <==> PathIno(fs, p).Some?)
    && forall p :: p in m ==> PathIno(fs, p).value in fs && m[p] == fs[PathIno(fs, p).value]
  }

  lemma ListingIsTree(fs: Fs, es: seq<WalkEntry>, m: map<string, Inode>)
    requires Preorder(es) && Complete(fs, es)
    ensures IsTree(fs, TreeOf(es)) && (IsTree(fs, m) ==> m == TreeOf(es))
  {
    hide PathIno, TreeOf, ParentsFirst, Consistent;
    var t := TreeOf(es);
    forall p
      ensures (p in t <==> PathIno(fs, p).Some?)
      ensures (p in t ==> PathIno(fs, p).value in fs && t[p] == fs[PathIno(fs, p).value])
    {
      TreeHas(es, p);
    }
  }

  /** Snapshot to snapshot: the diff succeeds exactly if both can be walked, and the delta
      applied to the base's tree gives the target's tree exactly if no changed entry is lost. */
  method DiffSnapshots(base: Fs, target: Fs) returns (ok: bool, d: Delta)
    requires GoodNames(base) && GoodNames(target)
    ensures ok <==> Walkable(base) && Walkable(target)
    ensures ok ==> exists b, t :: IsTree(base, b) && IsTree(target, t)
    ensures ok ==> forall b, t :: IsTree(base, b) && IsTree(target, t) ==>
      Result(b, t, Apply(b, d)) && (Gives(b, t, Apply(b, d)) <==> forall p :: p in t ==> !Lost(b, t, p))
  {
    d := Delta([], []);
    hide Preorder, Gives, Apply, Walkable, IsTree, Complete, TreeOf, Result, Lost;
    var walked, es, ts;
    walked, es := Walk(base);
    if !walked { return false, d; }
    walked, ts := Walk(target);
    if !walked { return false, d; }
    d := DiffToTar(es, ts);
    ok := true;
    ListingIsTree(base, es, map[]);
    ListingIsTree(target, ts, map[]);
    forall b, t | IsTree(base, b) && IsTree(target, t)
      ensures Result(b, t, Apply(b, d)) && (Gives(b, t, Apply(b, d)) <==> forall p :: p in t ==> !Lost(b, t, p))
    {
      ListingIsTree(base, es, b);
      ListingIsTree(target, ts, t);
    }
  }

  // ---- the name of a whiteout ----

  /** write_whiteout's path. */
  function WhiteoutName(path: string): string {
    var n := LayerMerge.AfterSlash(path);
    path[..n] + LayerMerge.WHITEOUT + path[n..]
  }

  const OPAQUE_NAME: string := ".wh..opq"

  /** For any path, split as directory and last name: a layer reader takes its marker for
      a whiteout of exactly that path, unless the name makes it the opaque marker. */
  lemma WhiteoutNameRead(dir: string, name: string)
    requires NoSlash(name) && (|dir| > 0 ==> dir[|dir| - 1] == '/')
    ensures name != OPAQUE_NAME <==> LayerMerge.Classify(WhiteoutName(dir + name)) == LayerMerge.Whiteout(dir + name)
  {
    hide *;
    NameOf(dir, name, dir + name);
    PathRead(dir, name, dir + name, WhiteoutName(dir + name));
  }

  lemma NameOf(dir: string, name: string, path: string)
    requires NoSlash(name) && (|dir| > 0 ==> dir[|dir| - 1] == '/') && path == dir + name
    ensures LayerMerge.Trim(path) == path && WhiteoutName(path) == dir + LayerMerge.WHITEOUT + name
  {
    assert path[|path| - 1] == name[|name| - 1];
    NotTrimmed(path);
    AfterIs(path, |dir|);
    hide LayerMerge.Trim, LayerMerge.AfterSlash;
    assert path[..|dir|] == dir && path[|dir|..] == name;
  }

  lemma PathRead(dir: string, name: string, path: string, w: string)
    requires NoSlash(name) && (|dir| > 0 ==> dir[|dir| - 1] == '/') && w == dir + LayerMerge.WHITEOUT + name
    requires path == dir + name && LayerMerge.Trim(path) == path
    ensures name != OPAQUE_NAME <==> LayerMerge.Classify(w) == LayerMerge.Whiteout(path)
  {
    MarkerParts(dir, LayerMerge.WHITEOUT, name, w);
    hide *;
    NotTrimmed(w);
    AfterIs(w, |dir|);
    ClassifyOf(w, dir, LayerMerge.WHITEOUT + name);
    PartsRead(dir, name);
  }

  lemma ClassifyOf(w: string, dir: string, file: string)
    requires w != "" && LayerMerge.Trim(w) == w && LayerMerge.AfterSlash(w) == |dir| && w[..|dir|] == dir
    requires w[|dir|..] == file
    ensures LayerMerge.Classify(w) == LayerMerge.ClassifyParts(dir, file)
  {
    hide LayerMerge.Trim, LayerMerge.AfterSlash, LayerMerge.ClassifyParts;
  }

  lemma PartsRead(dir: string, name: string)
    requires LayerMerge.Trim(dir + name) == dir + name
    ensures name != OPAQUE_NAME <==>
      LayerMerge.ClassifyParts(dir, LayerMerge.WHITEOUT + name) == LayerMerge.Whiteout(dir + name)
  {
    hide LayerMerge.Trim;
    assert LayerMerge.OPAQUE == LayerMerge.WHITEOUT + OPAQUE_NAME;
    SameName(LayerMerge.WHITEOUT, name, OPAQUE_NAME);
  }

  lemma MarkerParts(dir: string, mark: string, name: string, w: string)
    requires NoSlash(name) && w == dir + mark + name && forall i :: 0 <= i < |mark| ==> mark[i] != '/'
    ensures w[..|dir|] == dir && w[|dir|..] == mark + name && w[|w| - 1] != '/' && forall i :: |dir| <= i < |w| ==>
      w[i] != '/'
    ensures |dir| > 0 ==> w[|dir| - 1] == dir[|dir| - 1]
  {
    assert w == dir + (mark + name);
    assert w[|w| - 1] == name[|name| - 1];
  }

  lemma SameName(mark: string, a: string, b: string)
    ensures mark + a == mark + b <==> a == b
    ensures mark <= mark + a && (mark + a)[|mark|..] == a
  {
    assert (mark + b)[|mark|..] == b;
  }

  lemma NotTrimmed(s: string)
    requires s != "" && s[|s| - 1] != '/'
    ensures LayerMerge.Trim(s) == s
  {
  }

  lemma AfterIs(w: string, n: nat)
    requires n <= |w| && (n > 0 ==> w[n - 1] == '/') && forall i :: n <= i < |w| ==> w[i] != '/'
    ensures LayerMerge.AfterSlash(w) == n
  {
  }
}
