/** Streaming entries into the ext4 writer's tree (ext4/src/tar_convert.rs, ext4/src/writer.rs):
    make_parents, then create or link, for one entry after the other. When the stream goes
    through, and what tree it leaves, read off the entries alone. */
module LayerSink {
  import opened Bytes
  import T = DirTree

  type Path = seq<seq<byte>>

  datatype Kind = Dir | File | Link(target: Path)

  /** An entry with its cleaned path. `fits` stands for the size and attribute checks, and
      `extents` for data outside the inode. */
  datatype Item = Item(path: Path, kind: Kind, fits: bool, extents: bool)
  type Items = seq<Item>

  predicate Above(p: Path, q: Path) { p <= q && p != q }

  // ---- what a stream says about a path ----

  /** After `i` entries something is at `p`. */
  ghost predicate Known(ks: Items, i: nat, p: Path)
    requires i <= |ks|
  {
    p == [] || p == [T.LOST_FOUND] || exists j :: 0 <= j < i && p <= ks[j].path
  }

  predicate MakesDir(e: Item, p: Path) { Above(p, e.path) || (e.kind.Dir? && e.path == p) }
  predicate MakesFile(e: Item, p: Path) { !e.kind.Dir? && e.path == p }

  ghost predicate DirAt(ks: Items, i: nat, p: Path)
    requires i <= |ks|
  {
    p == [] || p == [T.LOST_FOUND] || exists j :: 0 <= j < i && MakesDir(ks[j], p)
  }

  ghost predicate FileAt(ks: Items, i: nat, p: Path)
    requires i <= |ks|
  {
    exists j :: 0 <= j < i && MakesFile(ks[j], p)
  }

  /** The file a path names: the entry that created it, through links. */
  ghost function Id(ks: Items, i: nat, p: Path): nat
    requires i <= |ks|
  {
    if i == 0 then 0 else
    var e := ks[i - 1];
    if !MakesFile(e, p) then Id(ks, i - 1, p) else if e.kind.Link? then Id(ks, i - 1, e.kind.target) else i - 1
  }

  /** The names of file `id`. */
  ghost function Names(ks: Items, i: nat, id: nat): set<Path>
    requires i <= |ks|
  {
    set j | 0 <= j < i && MakesFile(ks[j], ks[j].path) && Id(ks, i, ks[j].path) == id :: ks[j].path
  }

  /** The names of the directories in `q`. */
  ghost function SubNames(ks: Items, i: nat, q: Path): set<seq<byte>>
    requires i <= |ks|
  {
    (set j | 0 <= j < i && Above(q, ks[j].path) && MakesDir(ks[j], ks[j].path[..|q| + 1]) :: ks[j].path[|q|])
    + if q == [] then {T.LOST_FOUND} else {}
  }

  /** The directories that the entry needs can be made: only the first that is missing has a
      place that may be full. */
  ghost predicate RoomFor(ks: Items, i: nat)
    requires i < |ks|
  {
    var p := ks[i].path;
    var depth := if ks[i].kind.Dir? then |p| else |p| - 1;
    forall k :: 0 <= k < depth && Known(ks, i, p[..k]) && !Known(ks, i, p[..k + 1]) ==>
      |SubNames(ks, i, p[..k])| + 2 < T.MAX_LINKS
  }

  /** Whether entry `i` goes through, when those before it did. */
  ghost predicate ItemOk(ks: Items, i: nat)
    requires i < |ks|
  {
    WayOk(ks, i) && RoomFor(ks, i) && PlaceOk(ks, i)
  }

  /** Its names are not too long, and nothing above it is a file. */
  ghost predicate WayOk(ks: Items, i: nat)
    requires i < |ks|
  {
    && (forall k :: 0 <= k < |ks[i].path| ==> T.GoodName(ks[i].path[k]))
    && (forall j :: 0 <= j < i && !ks[j].kind.Dir? ==> !Above(ks[j].path, ks[i].path))
  }

  /** A directory does not meet a file. A file does not meet a directory; it replaces a file
      that has other names or no extents. A link's target is a file with room for a name, and
      a file it replaces has other names. */
  ghost predicate PlaceOk(ks: Items, i: nat)
    requires i < |ks|
  {
    var e := ks[i];
    match e.kind
    case Dir => e.fits && !FileAt(ks, i, e.path)
    case File =>
      e.fits && !DirAt(ks, i, e.path) && (FileAt(ks, i, e.path) ==> Shared(ks, i, e.path) || !Extents(ks, i, e.path))
    case Link(q) =>
      && !DirAt(ks, i, e.path) && FileAt(ks, i, q) && (FileAt(ks, i, e.path) ==> Shared(ks, i, e.path))
      && ((FileAt(ks, i, e.path) && Id(ks, i, e.path) == Id(ks, i, q)) || |Names(ks, i, Id(ks, i, q))| < T.MAX_LINKS)
  }

  ghost predicate Shared(ks: Items, i: nat, p: Path)
    requires i <= |ks|
  {
    |Names(ks, i, Id(ks, i, p))| >= 2
  }

  ghost predicate Extents(ks: Items, i: nat, p: Path)
    requires i <= |ks|
  {
    Id(ks, i, p) < |ks| && ks[Id(ks, i, p)].extents
  }

  ghost predicate Accepted(ks: Items) { forall i :: 0 <= i < |ks| ==> ItemOk(ks, i) }

  // ---- the tree after `i` entries ----

  /** No path is both. */
  ghost predicate Apart(ks: Items, i: nat)
    requires i <= |ks|
  {
    forall p :: !(DirAt(ks, i, p) && FileAt(ks, i, p))
  }

  /** Files are where the stream puts them: two paths name one file in the tree exactly if
      they do in the stream. */
  ghost predicate FilesHeld(t: T.Table, ks: Items, i: nat)
    requires i <= |ks|
  {
    && (forall p :: FileAt(ks, i, p) ==> HoldsFile(t, ks, i, p))
    && forall p, q :: FileAt(ks, i, p) && FileAt(ks, i, q) ==>
      (T.Find(t, p) == T.Find(t, q) <==> Id(ks, i, p) == Id(ks, i, q))
  }

  ghost predicate HoldsFile(t: T.Table, ks: Items, i: nat, p: Path)
    requires i <= |ks|
  {
    var c := T.Find(t, p);
    && c.Some? && T.Has(t, c.value) && !T.N(t, c.value).isDir && Id(ks, i, p) < i
    && T.N(t, c.value).extents == ks[Id(ks, i, p)].extents
  }

  /** The tree holds exactly what the first `i` entries say. */
  ghost predicate Held(t: T.Table, ks: Items, i: nat)
    requires i <= |ks|
  {
    && (forall p :: T.Find(t, p).Some? <==> Known(ks, i, p))
    && (forall p :: T.LeadsToDir(t, p) <==> DirAt(ks, i, p))
    && FilesHeld(t, ks, i) && Apart(ks, i)
  }

  /** The same once the parents of entry `i` are there. */
  ghost predicate Ready(t: T.Table, ks: Items, i: nat)
    requires i < |ks|
  {
    && (forall p :: T.Find(t, p).Some? <==> Known(ks, i, p) || Above(p, ks[i].path))
    && (forall p :: T.LeadsToDir(t, p) <==> DirAt(ks, i, p) || (Above(p, ks[i].path) && !Known(ks, i, p)))
    && FilesHeld(t, ks, i) && Apart(ks, i)
  }

  lemma KnownIs(ks: Items, i: nat, p: Path)
    requires i <= |ks|
    ensures Known(ks, i, p) <==> DirAt(ks, i, p) || FileAt(ks, i, p)
  {
    if Known(ks, i, p) && p != [] && p != [T.LOST_FOUND] {
      var j :| 0 <= j < i && p <= ks[j].path;
      assert MakesDir(ks[j], p) || MakesFile(ks[j], p);
    }
  }

  lemma KnownUp(ks: Items, i: nat, p: Path, q: Path)
    requires i <= |ks| && Known(ks, i, q) && p <= q
    ensures Known(ks, i, p)
  {
    if q != [] && q != [T.LOST_FOUND] {
      var j :| 0 <= j < i && q <= ks[j].path;
      assert p <= ks[j].path;
    } else if p != [] { assert p == q; }
  }

  lemma SubNameIs(ks: Items, i: nat, q: Path, n: seq<byte>)
    requires i <= |ks|
    ensures n in SubNames(ks, i, q) <==> DirAt(ks, i, q + [n])
  {
    var p := q + [n];
    assert p[..|q|] == q && p != [];
    assert p == [T.LOST_FOUND] <==> q == [] && n == T.LOST_FOUND;
    if n in SubNames(ks, i, q) && p != [T.LOST_FOUND] {
      var j :| 0 <= j < i && Above(q, ks[j].path) && MakesDir(ks[j], ks[j].path[..|q| + 1]) && n == ks[j].path[|q|];
      assert ks[j].path[..|q| + 1] == p;
    }
    if DirAt(ks, i, p) && p != [T.LOST_FOUND] {
      var j :| 0 <= j < i && MakesDir(ks[j], p);
      Longer(q, n, ks[j].path);
    }
  }

  lemma Longer(q: Path, n: seq<byte>, r: Path)
    requires q + [n] <= r
    ensures Above(q, r) && r[|q|] == n && r[..|q| + 1] == q + [n]
  {
    assert r[..|q| + 1] == q + [n];
    assert (q + [n])[..|q|] == q && r[..|q|] == r[..|q| + 1][..|q|];
  }

  // ---- counting names in a tree ----

  /** The directory and the name at the end of a path. */
  function End(t: T.Table, p: Path): (nat, seq<byte>) {
    if p == [] || T.Find(t, p[..|p| - 1]).None? then (0, []) else (T.Find(t, p[..|p| - 1]).value, p[|p| - 1])
  }

  lemma EndRefers(t: T.Table, p: Path, x: nat)
    requires T.Valid(t) && T.Find(t, p) == Some(x) && p != []
    ensures End(t, p) in T.Refs(t, x) && T.LeadsToDir(t, p[..|p| - 1]) && T.GoodName(p[|p| - 1])
    ensures T.Has(t, x) && T.Find(t, p[..|p| - 1]) == Some(End(t, p).0) && p[|p| - 1] == End(t, p).1
  {
    T.FindBinds(t, p, x);
    T.RefsHas(t, x, End(t, p).0, End(t, p).1);
    hide T.Find, T.Refs;
  }

  lemma EndUnique(t: T.Table, p: Path, q: Path, x: nat)
    requires T.Valid(t) && T.Find(t, p) == Some(x) && T.Find(t, q) == Some(x) && p != [] && q != []
    requires End(t, p) == End(t, q)
    ensures p == q
  {
    hide T.Valid, T.Find, End;
    EndRefers(t, p, x);
    EndRefers(t, q, x);
    T.DirPathUnique(t, p[..|p| - 1], q[..|q| - 1]);
    assert p == p[..|p| - 1] + [p[|p| - 1]] && q == q[..|q| - 1] + [q[|q| - 1]];
  }

  /** The link count of a file is the number of paths that lead to it. */
  lemma PathsCounted(t: T.Table, x: nat, s: set<Path>)
    requires T.Valid(t) && T.Has(t, x) && !T.N(t, x).isDir && forall p :: p in s <==> T.Find(t, p) == Some(x)
    ensures T.N(t, x).links == |s|
  {
    hide *;
    FileLinks(t, x);
    RootIsDir(t);
    assert [] !in s;
    EndsAre(t, x, s);
    EndsCounted(t, x, s);
  }

  ghost function Ends(t: T.Table, s: set<Path>): set<(nat, seq<byte>)> { set p | p in s :: End(t, p) }

  lemma EndsAre(t: T.Table, x: nat, s: set<Path>)
    requires T.Valid(t) && [] !in s && forall p :: p in s <==> T.Find(t, p) == Some(x)
    ensures Ends(t, s) == T.Refs(t, x)
  {
    hide T.Valid, T.Find, T.Refs, End;
    forall r | r in Ends(t, s) ensures r in T.Refs(t, x) { var p :| p in s && End(t, p) == r; EndRefers(t, p, x); }
    forall r | r in T.Refs(t, x) ensures r in Ends(t, s) {
      var p := RefPath(t, x, r);
      assert p in s && End(t, p) == r;
    }
  }

  lemma {:induction false} EndsCounted(t: T.Table, x: nat, s: set<Path>)
    requires T.Valid(t) && [] !in s && forall p :: p in s ==> T.Find(t, p) == Some(x)
    ensures |Ends(t, s)| == |s|
  {
    hide T.Valid, T.Find, End;
    if s != {} {
      var p :| p in s;
      EndsCounted(t, x, s - {p});
      if End(t, p) in Ends(t, s - {p}) {
        var q :| q in s - {p} && End(t, q) == End(t, p);
        EndUnique(t, p, q, x);
        assert false;
      }
      assert Ends(t, s) == Ends(t, s - {p}) + {End(t, p)};
    }
  }

  lemma FileLinks(t: T.Table, x: nat)
    requires T.Valid(t) && T.Has(t, x) && !T.N(t, x).isDir
    ensures T.N(t, x).links == |T.Refs(t, x)|
  {
    T.LinkedAtOf(t, x);
  }

  lemma RootIsDir(t: T.Table)
    requires T.Valid(t)
    ensures T.Find(t, []) == Some(T.INODE_ROOT) && T.Has(t, T.INODE_ROOT) && T.N(t, T.INODE_ROOT).isDir
  {
  }

  lemma RefPath(t: T.Table, x: nat, r: (nat, seq<byte>)) returns (p: Path)
    requires T.Valid(t) && r in T.Refs(t, x)
    ensures T.Find(t, p) == Some(x) && End(t, p) == r
  {
    T.RefsHas(t, x, r.0, r.1);
    hide T.Refs, T.Valid;
    var up := T.Reachable(t, r.0);
    p := up + [r.1];
    assert p[..|p| - 1] == up;
  }

  /** The link count of a directory is two and the directories in it. */
  lemma DirLinks(t: T.Table, q: Path, s: set<seq<byte>>)
    requires T.Valid(t) && T.LeadsToDir(t, q) && forall n :: n in s <==> T.LeadsToDir(t, q + [n])
    ensures T.N(t, T.Find(t, q).value).links == 2 + |s|
  {
    var d := T.Find(t, q).value;
    T.LinkedAtOf(t, d);
    hide T.Valid, T.Refs;
    forall n ensures n in s <==> n in T.Subdirs(t, d) { SubdirIs(t, q, n); }
    assert s == T.Subdirs(t, d);
  }

  lemma SubdirIs(t: T.Table, q: Path, n: seq<byte>)
    requires T.LeadsToDir(t, q)
    ensures n in T.Subdirs(t, T.Find(t, q).value) <==> T.LeadsToDir(t, q + [n])
  {
    assert (q + [n])[..|q|] == q;
  }

  // ---- paths in a valid tree ----

  /** What lies on the way to a found path is a directory, and its names are good. */
  lemma {:induction false} FoundWay(t: T.Table, p: Path, k: nat)
    requires T.Valid(t) && T.Find(t, p).Some? && k < |p|
    ensures T.LeadsToDir(t, p[..k]) && T.GoodName(p[k])
  {
    hide T.Valid, T.Find, T.Refs, End;
    EndRefers(t, p, T.Find(t, p).value);
    if k < |p| - 1 {
      assert p[..|p| - 1][..k] == p[..k] && p[..|p| - 1][k] == p[k];
      FoundWay(t, p[..|p| - 1], k);
    }
  }

  // ---- one entry: the parents ----

  lemma ReadyAfter(t: T.Table, t2: T.Table, ks: Items, i: nat)
    requires i < |ks| && T.Valid(t) && Held(t, ks, i)
    requires (if ks[i].path == [] then t2 == t else T.Grown(t, t2, ks[i].path, |ks[i].path| - 1))
    ensures Ready(t2, ks, i)
  {
    var path := ks[i].path;
    hide *;
    if path == [] { NothingAbove(t, ks, i); } else {
      HeldIs(t, ks, i);
      GrownFiles(t, t2, ks, i, path, |path| - 1);
      forall p
        ensures (T.Find(t2, p).Some? <==> Known(ks, i, p) || Above(p, path))
        ensures (T.LeadsToDir(t2, p) <==> DirAt(ks, i, p) || (Above(p, path) && !Known(ks, i, p)))
      {
        GrownAt(t, t2, ks, i, |path| - 1, p);
        Shorter(p, path);
      }
      IsReady(t2, ks, i);
    }
  }

  lemma NothingAbove(t: T.Table, ks: Items, i: nat)
    requires i < |ks| && T.Valid(t) && Held(t, ks, i) && ks[i].path == []
    ensures Ready(t, ks, i)
  {
    hide T.Find, T.LeadsToDir, Known, DirAt, FilesHeld, Apart;
  }

  lemma IsReady(t: T.Table, ks: Items, i: nat)
    requires i < |ks| && FilesHeld(t, ks, i) && Apart(ks, i)
    requires forall p :: T.Find(t, p).Some? <==> Known(ks, i, p) || Above(p, ks[i].path)
    requires forall p :: T.LeadsToDir(t, p) <==> DirAt(ks, i, p) || (Above(p, ks[i].path) && !Known(ks, i, p))
    ensures Ready(t, ks, i)
  {
    hide T.Find, T.LeadsToDir, Known, DirAt, FilesHeld, Apart, Above;
  }

  lemma HeldIs(t: T.Table, ks: Items, i: nat)
    requires i <= |ks| && Held(t, ks, i)
    ensures FilesHeld(t, ks, i) && Apart(ks, i)
  {
  }

  /** A path while the parents are made. */
  lemma GrownAt(t: T.Table, t2: T.Table, ks: Items, i: nat, m: nat, p: Path)
    requires i < |ks| && T.Valid(t) && Held(t, ks, i) && T.Grown(t, t2, ks[i].path, m)
    ensures T.Find(t2, p).Some? <==> Known(ks, i, p) || (p <= ks[i].path && |p| <= m)
    ensures T.LeadsToDir(t2, p) <==> DirAt(ks, i, p) || (p <= ks[i].path && |p| <= m && !Known(ks, i, p))
  {
    hide T.Find, Known, DirAt, FilesHeld, Apart;
    assert T.Find(t, p).Some? <==> Known(ks, i, p);
    assert T.LeadsToDir(t, p) <==> DirAt(ks, i, p);
    DirIsKnown(ks, i, p);
    if T.Find(t, p).Some? { T.Found(t, p); }
    hide T.Valid;
  }

  lemma DirIsKnown(ks: Items, i: nat, p: Path)
    requires i <= |ks|
    ensures DirAt(ks, i, p) || FileAt(ks, i, p) ==> Known(ks, i, p)
  {
    KnownIs(ks, i, p);
  }

  lemma Shorter(p: Path, q: Path)
    ensures Above(p, q) <==> p <= q && |p| < |q|
  {
  }

  lemma GrownFiles(t: T.Table, t2: T.Table, ks: Items, i: nat, path: Path, m: nat)
    requires i <= |ks| && FilesHeld(t, ks, i) && T.Grown(t, t2, path, m)
    ensures FilesHeld(t2, ks, i)
  {
    hide T.Find, FileAt, Id;
    forall p | FileAt(ks, i, p)
      ensures HoldsFile(t2, ks, i, p) && T.Find(t2, p) == T.Find(t, p)
    {
      assert HoldsFile(t, ks, i, p);
    }
  }

  /** A missing directory whose place is known and full stops the entry, and nothing else
      about the place does. */
  lemma FullPlace(t: T.Table, ks: Items, i: nat, k: nat)
    requires i < |ks| && T.Valid(t) && k < |ks[i].path| && T.LeadsToDir(t, ks[i].path[..k])
    requires forall n :: T.LeadsToDir(t, ks[i].path[..k] + [n]) <==> DirAt(ks, i, ks[i].path[..k] + [n])
    ensures var d := T.Find(t, ks[i].path[..k]).value;
      && T.N(t, d).links == 2 + |SubNames(ks, i, ks[i].path[..k])|
      && (!Known(ks, i, ks[i].path[..k]) ==> T.N(t, d).links == 2)
  {
    var q := ks[i].path[..k];
    hide T.Valid, T.Find, DirAt, T.LeadsToDir;
    forall n ensures n in SubNames(ks, i, q) <==> T.LeadsToDir(t, q + [n]) { SubNameIs(ks, i, q, n); }
    hide SubNames;
    DirLinks(t, q, SubNames(ks, i, q));
    if !Known(ks, i, q) {
      forall n
        ensures n !in SubNames(ks, i, q)
      {
        if DirAt(ks, i, q + [n]) { KnownIs(ks, i, q + [n]); KnownUp(ks, i, q, q + [n]); }
        SubNameIs(ks, i, q, n);
      }
      assert SubNames(ks, i, q) == {};
    }
  }

  lemma NextName(p: Path, k: nat, n: seq<byte>)
    requires k < |p|
    ensures p[..k] + [n] <= p <==> n == p[k]
    ensures p[..k] + [p[k]] == p[..k + 1]
  {
    assert p[..k] + [p[k]] == p[..k + 1];
    if p[..k] + [n] <= p { assert (p[..k] + [n])[k] == p[k]; }
  }

  /** make_parents fails only on entries that are not good. */
  lemma ParentsFail(t: T.Table, t2: T.Table, ks: Items, i: nat, k: nat)
    requires i < |ks| && T.Valid(t) && Held(t, ks, i) && T.Valid(t2) && k < |ks[i].path| - 1
    requires T.Grown(t, t2, ks[i].path, k)
    requires T.NoPlace(t2, ks[i].path, k) && T.Find(t2, ks[i].path[..k + 1]).None?
    ensures !ItemOk(ks, i)
  {
    hide *;
    if ItemOk(ks, i) {
      ItemWay(ks, i);
      NoFileAbove(ks, i, k);
      GrownPlace(t, t2, ks, i, k);
      FullPlace(t2, ks, i, k);
      Missing(t, t2, ks, i, k);
      RoomAt(ks, i, k);
      PlaceIsGood(t2, ks, i, k);
      assert false;
    }
  }

  lemma ItemWay(ks: Items, i: nat)
    requires i < |ks| && ItemOk(ks, i)
    ensures WayOk(ks, i)
  {
  }

  lemma NoFileAbove(ks: Items, i: nat, k: nat)
    requires i < |ks| && WayOk(ks, i) && k < |ks[i].path|
    ensures T.GoodName(ks[i].path[k]) && (Known(ks, i, ks[i].path[..k]) ==> DirAt(ks, i, ks[i].path[..k]))
  {
    hide WayOk, FileAt, DirAt, Known;
    var q := ks[i].path[..k];
    KnownIs(ks, i, q);
    Shorter(q, ks[i].path);
    GoodAt(ks, i, k);
    if FileAt(ks, i, q) { FileNotAbove(ks, i, q); assert false; }
  }

  lemma GoodAt(ks: Items, i: nat, k: nat)
    requires i < |ks| && WayOk(ks, i) && k < |ks[i].path|
    ensures T.GoodName(ks[i].path[k])
  {
  }

  lemma FileNotAbove(ks: Items, i: nat, p: Path)
    requires i < |ks| && WayOk(ks, i) && FileAt(ks, i, p)
    ensures !Above(p, ks[i].path)
  {
    var j :| 0 <= j < i && MakesFile(ks[j], p);
    assert !ks[j].kind.Dir? && ks[j].path == p;
  }

  lemma RoomAt(ks: Items, i: nat, k: nat)
    requires i < |ks| && ItemOk(ks, i) && k < |ks[i].path| - 1
    ensures Known(ks, i, ks[i].path[..k]) && !Known(ks, i, ks[i].path[..k + 1]) ==>
      |SubNames(ks, i, ks[i].path[..k])| + 2 < T.MAX_LINKS
  {
    hide Known, SubNames, PlaceOk;
  }

  lemma GrownPlace(t: T.Table, t2: T.Table, ks: Items, i: nat, k: nat)
    requires i < |ks| && T.Valid(t) && Held(t, ks, i) && k < |ks[i].path| && T.Grown(t, t2, ks[i].path, k)
    requires Known(ks, i, ks[i].path[..k]) ==> DirAt(ks, i, ks[i].path[..k])
    requires T.Find(t2, ks[i].path[..k + 1]).None?
    ensures T.LeadsToDir(t2, ks[i].path[..k])
    ensures forall n :: T.LeadsToDir(t2, ks[i].path[..k] + [n]) <==> DirAt(ks, i, ks[i].path[..k] + [n])
  {
    var q := ks[i].path[..k];
    hide *;
    GrownAt(t, t2, ks, i, k, q);
    forall n ensures T.LeadsToDir(t2, q + [n]) <==> DirAt(ks, i, q + [n]) { GrownAt(t, t2, ks, i, k, q + [n]); }
  }

  lemma Missing(t: T.Table, t2: T.Table, ks: Items, i: nat, k: nat)
    requires i < |ks| && T.Valid(t) && Held(t, ks, i) && k < |ks[i].path| && T.Grown(t, t2, ks[i].path, k)
    requires T.Find(t2, ks[i].path[..k + 1]).None?
    ensures !Known(ks, i, ks[i].path[..k + 1])
  {
    hide *;
    GrownAt(t, t2, ks, i, k, ks[i].path[..k + 1]);
  }

  lemma PlaceIsGood(t: T.Table, ks: Items, i: nat, k: nat)
    requires i < |ks| && k < |ks[i].path| - 1 && T.LeadsToDir(t, ks[i].path[..k]) && T.GoodName(ks[i].path[k])
    requires var d := T.Find(t, ks[i].path[..k]).value;
      && T.N(t, d).links == 2 + |SubNames(ks, i, ks[i].path[..k])|
      && (!Known(ks, i, ks[i].path[..k]) ==> T.N(t, d).links == 2)
    requires Known(ks, i, ks[i].path[..k]) ==> |SubNames(ks, i, ks[i].path[..k])| + 2 < T.MAX_LINKS
    ensures !T.NoPlace(t, ks[i].path, k)
  {
    hide T.Find, Known, SubNames;
  }

  // ---- one entry: its own place ----

  lemma FileNotDir(t: T.Table, ks: Items, i: nat, q: Path)
    requires i < |ks| && Ready(t, ks, i) && FileAt(ks, i, q)
    ensures !T.LeadsToDir(t, q) && !DirAt(ks, i, q) && Known(ks, i, q)
  {
    KnownIs(ks, i, q);
    hide Known, DirAt, FileAt, T.LeadsToDir, FilesHeld, T.Find;
  }

  /** What is found and no directory is a file of the stream. */
  lemma FoundIsFile(t: T.Table, ks: Items, i: nat, q: Path)
    requires i < |ks| && Ready(t, ks, i) && T.Find(t, q).Some? && !T.LeadsToDir(t, q)
    ensures FileAt(ks, i, q) && Known(ks, i, q)
  {
    KnownIs(ks, i, q);
    hide Known, DirAt, FileAt, T.LeadsToDir, FilesHeld, T.Find;
  }

  lemma ReadyPath(t: T.Table, ks: Items, i: nat)
    requires i < |ks| && Ready(t, ks, i)
    ensures var p := ks[i].path;
      && (T.Find(t, p).Some? <==> Known(ks, i, p)) && (T.LeadsToDir(t, p) <==> DirAt(ks, i, p))
      && (Known(ks, i, p) <==> DirAt(ks, i, p) || FileAt(ks, i, p))
      && !(DirAt(ks, i, p) && FileAt(ks, i, p))
  {
    KnownIs(ks, i, ks[i].path);
    hide Known, DirAt, FileAt, T.LeadsToDir, FilesHeld, T.Find;
  }

  lemma ReachesIff(t: T.Table, ks: Items, i: nat)
    requires i < |ks| && T.Valid(t) && Ready(t, ks, i)
    ensures T.Reaches(t, ks[i].path) <==> WayOk(ks, i)
  {
    hide T.Valid, T.Find, Ready, T.GoodName;
    var p := ks[i].path;
    if p != [] {
      var up := p[..|p| - 1];
      if T.Reaches(t, p) {
        forall k | 0 <= k < |p| ensures T.GoodName(p[k]) { if k < |p| - 1 { FoundWay(t, up, k); } }
        forall j | 0 <= j < i && !ks[j].kind.Dir? ensures !Above(ks[j].path, p) {
          if Above(ks[j].path, p) { FileOnWay(t, ks, i, j); assert false; }
        }
      }
      if WayOk(ks, i) { WayIsDirs(t, ks, i, |p| - 1); }
    }
  }

  lemma FileOnWay(t: T.Table, ks: Items, i: nat, j: nat)
    requires i < |ks| && T.Valid(t) && Ready(t, ks, i) && j < i && !ks[j].kind.Dir? && Above(ks[j].path, ks[i].path)
    ensures !T.LeadsToDir(t, ks[i].path[..|ks[i].path| - 1])
  {
    hide Ready, T.Valid, T.Find, DirAt, Known, T.GoodName, Above;
    var p, q := ks[i].path, ks[j].path;
    AboveLast(q, p);
    FileNotDir(t, ks, i, q);
    hide FileAt;
    var up := p[..|p| - 1];
    if q != up && T.LeadsToDir(t, up) { FoundWay(t, up, |q|); }
  }

  lemma AboveLast(q: Path, p: Path)
    requires Above(q, p)
    ensures p != [] && |q| <= |p| - 1 && p[..|p| - 1][..|q|] == q && (|q| == |p| - 1 ==> q == p[..|p| - 1])
  {
  }

  lemma WayIsDirs(t: T.Table, ks: Items, i: nat, k: nat)
    requires i < |ks| && Ready(t, ks, i) && WayOk(ks, i) && k < |ks[i].path|
    ensures T.LeadsToDir(t, ks[i].path[..k]) && (Known(ks, i, ks[i].path[..k]) ==> DirAt(ks, i, ks[i].path[..k]))
  {
    NoFileAbove(ks, i, k);
    Shorter(ks[i].path[..k], ks[i].path);
    hide Known, DirAt, T.LeadsToDir, FilesHeld, T.Find, WayOk, Apart;
  }

  /** Making the missing parents has shown that there was room. */
  lemma RoomShown(t: T.Table, ks: Items, i: nat, k: nat)
    requires i < |ks| && T.Valid(t) && Ready(t, ks, i) && WayOk(ks, i) && k < |ks[i].path| - 1
    requires !Known(ks, i, ks[i].path[..k + 1])
    ensures |SubNames(ks, i, ks[i].path[..k])| + 2 < T.MAX_LINKS
  {
    var p := ks[i].path;
    var q, s := p[..k], SubNames(ks, i, p[..k]);
    WayIsDirs(t, ks, i, k);
    DirLinked(t, q);
    hide *;
    forall n ensures n in s + {p[k]} <==> T.LeadsToDir(t, q + [n]) { SubNameNow(t, ks, i, k, n); }
    SubNameNow(t, ks, i, k, p[k]);
    DirLinks(t, q, s + {p[k]});
    assert |s + {p[k]}| == |s| + 1;
  }

  lemma DirLinked(t: T.Table, q: Path)
    requires T.Valid(t) && T.LeadsToDir(t, q)
    ensures T.N(t, T.Find(t, q).value).links <= T.MAX_LINKS
  {
    T.LinkedAtOf(t, T.Find(t, q).value);
  }

  lemma SubNameNow(t: T.Table, ks: Items, i: nat, k: nat, n: seq<byte>)
    requires i < |ks| && Ready(t, ks, i) && k < |ks[i].path| - 1 && !Known(ks, i, ks[i].path[..k + 1])
    ensures var q := ks[i].path[..k]; T.LeadsToDir(t, q + [n]) <==> n in SubNames(ks, i, q) || n == ks[i].path[k]
    ensures ks[i].path[k] !in SubNames(ks, i, ks[i].path[..k])
  {
    var p := ks[i].path;
    NextName(p, k, n);
    NextName(p, k, p[k]);
    SubNameIs(ks, i, p[..k], n);
    SubNameIs(ks, i, p[..k], p[k]);
    Shorter(p[..k] + [n], p);
    DirIsKnown(ks, i, p[..k + 1]);
    hide Known, DirAt, T.LeadsToDir, FilesHeld, T.Find, SubNames, Apart, Above;
  }

  /** The link count of a file is the number of its names in the stream. */
  lemma NamesCounted(t: T.Table, ks: Items, i: nat, p: Path)
    requires i < |ks| && T.Valid(t) && Ready(t, ks, i) && FileAt(ks, i, p)
    ensures HoldsFile(t, ks, i, p) && T.N(t, T.Find(t, p).value).links == |Names(ks, i, Id(ks, i, p))|
  {
    hide T.Valid, T.Find, Known, DirAt, Names, Id;
    assert HoldsFile(t, ks, i, p);
    var x := T.Find(t, p).value;
    forall q ensures q in Names(ks, i, Id(ks, i, p)) <==> T.Find(t, q) == Some(x) {
      NamesIs(ks, i, Id(ks, i, p), q);
      if T.Find(t, q) == Some(x) { FoundIsFile(t, ks, i, q); }
    }
    hide Ready, FileAt, HoldsFile;
    PathsCounted(t, x, Names(ks, i, Id(ks, i, p)));
  }

  lemma NamesIs(ks: Items, i: nat, id: nat, q: Path)
    requires i <= |ks|
    ensures q in Names(ks, i, id) <==> FileAt(ks, i, q) && Id(ks, i, q) == id
  {
    hide Id;
    if FileAt(ks, i, q) { var j :| 0 <= j < i && MakesFile(ks[j], q); assert ks[j].path == q; }
  }

  /** The place of a directory entry that is missing. */
  lemma LastPlace(t: T.Table, ks: Items, i: nat)
    requires i < |ks| && T.Valid(t) && Ready(t, ks, i) && WayOk(ks, i) && !Known(ks, i, ks[i].path) && ks[i].path != []
    ensures var up := ks[i].path[..|ks[i].path| - 1];
      T.N(t, T.Find(t, up).value).links < T.MAX_LINKS <==>
        (Known(ks, i, up) ==> |SubNames(ks, i, up)| + 2 < T.MAX_LINKS)
  {
    var p := ks[i].path;
    var k := |p| - 1;
    WayIsDirs(t, ks, i, k);
    forall n ensures T.LeadsToDir(t, p[..k] + [n]) <==> DirAt(ks, i, p[..k] + [n]) { LastNames(t, ks, i, n); }
    hide *;
    FullPlace(t, ks, i, k);
  }

  lemma LastNames(t: T.Table, ks: Items, i: nat, n: seq<byte>)
    requires i < |ks| && Ready(t, ks, i) && ks[i].path != []
    ensures var q := ks[i].path[..|ks[i].path| - 1] + [n]; T.LeadsToDir(t, q) <==> DirAt(ks, i, q)
  {
    Shorter(ks[i].path[..|ks[i].path| - 1] + [n], ks[i].path);
    hide Known, DirAt, T.LeadsToDir, FilesHeld, T.Find, Apart, Above;
  }

  /** A directory that is known takes one more. */
  ghost predicate RoomIn(ks: Items, i: nat, q: Path)
    requires i <= |ks|
  {
    Known(ks, i, q) ==> |SubNames(ks, i, q)| + 2 < T.MAX_LINKS
  }

  /** Once the way is there, room is only a question for a directory's own name. */
  lemma RoomIff(t: T.Table, ks: Items, i: nat)
    requires i < |ks| && T.Valid(t) && Ready(t, ks, i) && WayOk(ks, i)
    ensures var p := ks[i].path;
      RoomFor(ks, i) <==> (ks[i].kind.Dir? && p != [] && !Known(ks, i, p) ==> RoomIn(ks, i, p[..|p| - 1]))
  {
    var p := ks[i].path;
    hide Known, SubNames, T.Valid, Ready, WayOk;
    assert p[..|p|] == p;
    forall k | 0 <= k < |p| - 1 && !Known(ks, i, p[..k + 1])
      ensures |SubNames(ks, i, p[..k])| + 2 < T.MAX_LINKS
    {
      RoomShown(t, ks, i, k);
    }
    if p != [] { var k := |p| - 1; assert p[..k + 1] == p; }
  }

  /** create succeeds exactly on good entries. */
  lemma CreateIff(t: T.Table, ks: Items, i: nat)
    requires i < |ks| && T.Valid(t) && T.PlainDirs(t) && Ready(t, ks, i) && !ks[i].kind.Link?
    ensures ks[i].fits && T.CanCreate(t, ks[i].path, ks[i].kind.Dir?) <==> ItemOk(ks, i)
  {
    hide *;
    ReachesIff(t, ks, i);
    if !WayOk(ks, i) { NoWay(t, ks, i); }
    else if T.Find(t, ks[i].path).Some? { CreateOver(t, ks, i); }
    else { CreateFree(t, ks, i); }
  }

  lemma NoWay(t: T.Table, ks: Items, i: nat)
    requires i < |ks| && !WayOk(ks, i) && !T.Reaches(t, ks[i].path)
    ensures !ItemOk(ks, i) && !T.CanCreate(t, ks[i].path, ks[i].kind.Dir?) && forall q :: !T.CanLink(t, q, ks[i].path)
  {
    hide T.Reaches, T.Find, WayOk, RoomFor, PlaceOk;
  }

  lemma CreateOver(t: T.Table, ks: Items, i: nat)
    requires i < |ks| && T.Valid(t) && T.PlainDirs(t) && Ready(t, ks, i) && !ks[i].kind.Link? && WayOk(ks, i)
    requires T.Reaches(t, ks[i].path) && T.Find(t, ks[i].path).Some?
    ensures ks[i].fits && T.CanCreate(t, ks[i].path, ks[i].kind.Dir?) <==> ItemOk(ks, i)
  {
    var p := ks[i].path;
    ReadyPath(t, ks, i);
    RoomIff(t, ks, i);
    FoundHas(t, p);
    if FileAt(ks, i, p) { NamesCounted(t, ks, i, p); HoldsExtents(t, ks, i, p); }
    hide WayOk, Ready, RoomFor, T.Valid, T.Find, T.Reaches, Known, DirAt, FileAt, Names, Id, SubNames, HoldsFile,
         Extents, T.LeadsToDir;
  }

  lemma CreateFree(t: T.Table, ks: Items, i: nat)
    requires i < |ks| && T.Valid(t) && Ready(t, ks, i) && !ks[i].kind.Link? && WayOk(ks, i)
    requires T.Reaches(t, ks[i].path) && T.Find(t, ks[i].path).None?
    ensures ks[i].fits && T.CanCreate(t, ks[i].path, ks[i].kind.Dir?) <==> ItemOk(ks, i)
  {
    RootIsDir(t);
    assert ks[i].path != [];
    ReadyPath(t, ks, i);
    RoomIff(t, ks, i);
    LastPlace(t, ks, i);
    hide WayOk, Ready, RoomFor, T.Valid, T.Find, T.Reaches, Known, DirAt, FileAt, Names, Id, SubNames, Extents,
         T.LeadsToDir;
  }

  lemma FoundHas(t: T.Table, p: Path)
    requires T.Valid(t) && T.Find(t, p).Some?
    ensures T.Has(t, T.Find(t, p).value) && (T.LeadsToDir(t, p) <==> T.N(t, T.Find(t, p).value).isDir)
  {
    T.Found(t, p);
  }

  lemma HoldsExtents(t: T.Table, ks: Items, i: nat, p: Path)
    requires i < |ks| && HoldsFile(t, ks, i, p)
    ensures T.Find(t, p).Some? && T.Has(t, T.Find(t, p).value) && !T.N(t, T.Find(t, p).value).isDir
    ensures T.N(t, T.Find(t, p).value).extents <==> Extents(ks, i, p)
  {
    hide T.Find, Id;
  }

  /** link succeeds exactly on good entries. */
  lemma LinkIff(t: T.Table, ks: Items, i: nat)
    requires i < |ks| && T.Valid(t) && Ready(t, ks, i) && ks[i].kind.Link?
    ensures T.CanLink(t, ks[i].kind.target, ks[i].path) <==> ItemOk(ks, i)
  {
    hide *;
    ReachesIff(t, ks, i);
    TargetIff(t, ks, i, ks[i].kind.target);
    if !WayOk(ks, i) { NoWay(t, ks, i); }
    else if !FileAt(ks, i, ks[i].kind.target) { NoTarget(t, ks, i); }
    else { LinkThere(t, ks, i); }
  }

  /** Looking `q` up finds something other than a directory. */
  ghost predicate FindsFile(t: T.Table, q: Path) {
    && T.Reaches(t, q) && T.Find(t, q).Some?
    && T.Has(t, T.Find(t, q).value) && !T.N(t, T.Find(t, q).value).isDir
  }

  lemma NoTarget(t: T.Table, ks: Items, i: nat)
    requires i < |ks| && ks[i].kind.Link?
    requires var q := ks[i].kind.target;
      !FindsFile(t, q) && !FileAt(ks, i, q)
    ensures !ItemOk(ks, i) && !T.CanLink(t, ks[i].kind.target, ks[i].path)
  {
    hide T.Reaches, T.Find, WayOk, RoomFor, FileAt, DirAt;
  }

  lemma LinkThere(t: T.Table, ks: Items, i: nat)
    requires i < |ks| && T.Valid(t) && Ready(t, ks, i) && ks[i].kind.Link? && WayOk(ks, i) && T.Reaches(t, ks[i].path)
    requires FileAt(ks, i, ks[i].kind.target) && FindsFile(t, ks[i].kind.target)
    ensures T.CanLink(t, ks[i].kind.target, ks[i].path) <==> ItemOk(ks, i)
  {
    var p, q := ks[i].path, ks[i].kind.target;
    ReadyPath(t, ks, i);
    RoomIff(t, ks, i);
    NamesCounted(t, ks, i, q);
    HoldsExtents(t, ks, i, q);
    if T.Find(t, p).Some? { FoundHas(t, p); }
    if FileAt(ks, i, p) { SameIff(t, ks, i, p, q); NamesCounted(t, ks, i, p); HoldsExtents(t, ks, i, p); }
    hide WayOk, Ready, RoomFor, T.Valid, T.Find, T.Reaches, Known, DirAt, FileAt, Names, Id, SubNames, HoldsFile,
         Extents, T.LeadsToDir;
  }

  lemma TargetIff(t: T.Table, ks: Items, i: nat, q: Path)
    requires i < |ks| && T.Valid(t) && Ready(t, ks, i)
    ensures FindsFile(t, q) <==> FileAt(ks, i, q)
  {
    hide T.Valid, Known, DirAt, T.Find, FileAt, End, T.Refs;
    if T.Find(t, q).Some? {
      FoundHas(t, q);
      if !T.LeadsToDir(t, q) { FoundIsFile(t, ks, i, q); }
    }
    if FileAt(ks, i, q) {
      assert HoldsFile(t, ks, i, q);
      FileNotDir(t, ks, i, q);
      RootIsDir(t);
      EndRefers(t, q, T.Find(t, q).value);
    }
  }

  lemma SameIff(t: T.Table, ks: Items, i: nat, p: Path, q: Path)
    requires i < |ks| && Ready(t, ks, i) && FileAt(ks, i, p) && FileAt(ks, i, q)
    ensures T.Find(t, p) == T.Find(t, q) <==> Id(ks, i, p) == Id(ks, i, q)
  {
    hide T.Find, Id, FileAt, Known, DirAt, HoldsFile;
  }

  // ---- one entry: afterwards ----

  /** The entry's path leads to `c`, every other path where it did. */
  ghost predicate Bound(t: T.Table, t2: T.Table, path: Path, c: nat) {
    && T.SameKinds(t, t2) && T.Has(t2, c)
    && forall q :: T.Find(t2, q) == if q == path then Some(c) else T.Find(t, q)
  }

  lemma BoundByCreate(t: T.Table, t2: T.Table, path: Path, isDir: bool, c: nat)
    requires T.Valid(t) && T.Valid(t2) && T.CanCreate(t, path, isDir) && T.SameKinds(t, t2) && T.Has(t2, c)
    requires T.OnlyNameMoved(t, t2, path, c) && (T.N(t2, c).isDir <==> isDir) && T.Find(t2, path) == Some(c)
    requires T.Find(t, path).None? ==> !T.Has(t, c)
    requires T.Find(t, path).Some? ==> if T.Has(t, c) then T.Find(t, path) == Some(c) else !isDir
    ensures Bound(t, t2, path, c)
  {
    RootIsDir(t);
    hide T.Valid, T.Find, T.OnlyNameMoved;
    if T.Find(t, path) == Some(c) {
      forall q ensures T.Find(t2, q) == T.Find(t, q) { T.FoundSame(t, t2, path, c, q); }
    } else {
      if isDir { T.FreshHasNoNames(t, t2, path, c); } else { T.FileHasNoNames(t2, c); }
      forall q ensures T.Find(t2, q) == if q == path then Some(c) else T.Find(t, q) { T.FoundAfter(t, t2, path, c, q); }
    }
  }

  lemma BoundByLink(t: T.Table, t2: T.Table, source: Path, path: Path, c: nat)
    requires T.Valid(t) && T.Valid(t2) && T.CanLink(t, source, path) && T.SameKinds(t, t2)
    requires T.Find(t, source) == Some(c) && T.OnlyNameMoved(t, t2, path, c)
    ensures Bound(t, t2, path, c)
  {
    RootIsDir(t);
    hide T.Valid, T.Find, T.OnlyNameMoved;
    T.FileHasNoNames(t2, c);
    forall q ensures T.Find(t2, q) == if q == path then Some(c) else T.Find(t, q) { T.FoundAfter(t, t2, path, c, q); }
  }

  lemma KnownNext(ks: Items, i: nat, p: Path)
    requires i < |ks|
    ensures Known(ks, i + 1, p) <==> Known(ks, i, p) || p <= ks[i].path
    ensures DirAt(ks, i + 1, p) <==> DirAt(ks, i, p) || MakesDir(ks[i], p)
    ensures FileAt(ks, i + 1, p) <==> FileAt(ks, i, p) || MakesFile(ks[i], p)
  {
    hide MakesDir, MakesFile;
  }

  lemma IdNext(ks: Items, i: nat, p: Path)
    requires i < |ks|
    ensures var e := ks[i];
      Id(ks, i + 1, p) ==
        if !MakesFile(e, p) then Id(ks, i, p) else if e.kind.Link? then Id(ks, i, e.kind.target) else i
  {
  }

  lemma ApartNext(ks: Items, i: nat)
    requires i < |ks| && Apart(ks, i) && ItemOk(ks, i)
    ensures Apart(ks, i + 1)
  {
    var n := i + 1;
    forall p ensures !(DirAt(ks, n, p) && FileAt(ks, n, p)) { ApartAt(ks, i, p); }
  }

  lemma ApartAt(ks: Items, i: nat, p: Path)
    requires i < |ks| && Apart(ks, i) && ItemOk(ks, i)
    ensures !(DirAt(ks, i + 1, p) && FileAt(ks, i + 1, p))
  {
    KnownNext(ks, i, p);
    if FileAt(ks, i, p) { FileNotAbove(ks, i, p); }
    hide DirAt, FileAt, RoomFor, Names, Id, WayOk;
  }

  lemma HeldNext(t: T.Table, t2: T.Table, ks: Items, i: nat, c: nat)
    requires i < |ks| && T.Valid(t) && Ready(t, ks, i) && ItemOk(ks, i) && Bound(t, t2, ks[i].path, c)
    requires (T.N(t2, c).isDir <==> ks[i].kind.Dir?) && FilesHeld(t2, ks, i + 1)
    ensures Held(t2, ks, i + 1)
  {
    hide *;
    forall p ensures (T.Find(t2, p).Some? <==> Known(ks, i + 1, p)) && (T.LeadsToDir(t2, p) <==> DirAt(ks, i + 1, p)) {
      if p == ks[i].path { OwnPath(t, t2, ks, i, c); } else { OtherPath(t, t2, ks, i, c, p); }
    }
    ReadyApart(t, ks, i);
    ApartNext(ks, i);
    IsHeld(t2, ks, i + 1);
  }

  lemma ReadyApart(t: T.Table, ks: Items, i: nat)
    requires i < |ks| && Ready(t, ks, i)
    ensures Apart(ks, i) && FilesHeld(t, ks, i)
  {
    hide Apart;
  }

  lemma IsHeld(t: T.Table, ks: Items, i: nat)
    requires i <= |ks| && FilesHeld(t, ks, i) && Apart(ks, i)
    requires forall p :: (T.Find(t, p).Some? <==> Known(ks, i, p)) && (T.LeadsToDir(t, p) <==> DirAt(ks, i, p))
    ensures Held(t, ks, i)
  {
    hide FilesHeld, Apart, Known, DirAt, T.Find, T.LeadsToDir;
  }

  lemma OwnPath(t: T.Table, t2: T.Table, ks: Items, i: nat, c: nat)
    requires i < |ks| && Ready(t, ks, i) && ItemOk(ks, i) && Bound(t, t2, ks[i].path, c)
    requires (T.N(t2, c).isDir <==> ks[i].kind.Dir?)
    ensures var p := ks[i].path;
      T.Find(t2, p).Some? && Known(ks, i + 1, p) && (T.LeadsToDir(t2, p) <==> DirAt(ks, i + 1, p))
  {
    KnownNext(ks, i, ks[i].path);
    ReadyPath(t, ks, i);
    hide Ready, RoomFor, WayOk, Known, DirAt, FileAt, T.Find, Names, Id;
  }

  lemma OtherPath(t: T.Table, t2: T.Table, ks: Items, i: nat, c: nat, p: Path)
    requires i < |ks| && T.Valid(t) && Ready(t, ks, i) && ItemOk(ks, i) && Bound(t, t2, ks[i].path, c)
    requires p != ks[i].path
    ensures (T.Find(t2, p).Some? <==> Known(ks, i + 1, p)) && (T.LeadsToDir(t2, p) <==> DirAt(ks, i + 1, p))
  {
    KnownNext(ks, i, p);
    if T.Find(t, p).Some? { T.Found(t, p); }
    assert Above(p, ks[i].path) <==> p <= ks[i].path;
    if Above(p, ks[i].path) { NoFileAbove(ks, i, |p|); assert ks[i].path[..|p|] == p; }
    hide ItemOk, Known, DirAt, FileAt, T.Find, T.Valid, FilesHeld, Apart;
  }

  /** The files of the stream after an entry for a directory. */
  lemma FilesAfterDir(t: T.Table, t2: T.Table, ks: Items, i: nat, c: nat)
    requires i < |ks| && FilesHeld(t, ks, i) && Apart(ks, i) && ItemOk(ks, i) && ks[i].kind.Dir?
    requires Bound(t, t2, ks[i].path, c)
    requires T.SameExtents(t, t2, c) && T.N(t2, c).isDir
    ensures FilesHeld(t2, ks, i + 1)
  {
    hide T.Find, RoomFor, WayOk, DirAt, Apart;
    var n := i + 1;
    forall p
      ensures (FileAt(ks, n, p) <==> FileAt(ks, i, p)) && Id(ks, n, p) == Id(ks, i, p)
    {
      KnownNext(ks, i, p);
      IdNext(ks, i, p);
    }
    hide FileAt, Id;
    forall p | FileAt(ks, i, p)
      ensures HoldsFile(t2, ks, n, p) && T.Find(t2, p) == T.Find(t, p)
    {
      assert HoldsFile(t, ks, i, p);
    }
  }

  /** After a new file: no other path leads to its inode. */
  lemma FilesAfterFile(t: T.Table, t2: T.Table, ks: Items, i: nat, c: nat)
    requires i < |ks| && FilesHeld(t, ks, i) && ks[i].kind.File? && Bound(t, t2, ks[i].path, c)
    requires T.SameExtents(t, t2, c) && !T.N(t2, c).isDir && T.N(t2, c).extents == ks[i].extents
    requires forall p :: FileAt(ks, i, p) && p != ks[i].path ==> T.Find(t, p) != Some(c)
    ensures FilesHeld(t2, ks, i + 1)
  {
    var path := ks[i].path;
    hide T.Find;
    var n := i + 1;
    hide FileAt, Id;
    forall p
      ensures (FileAt(ks, n, p) <==> FileAt(ks, i, p) || p == path)
      ensures Id(ks, n, p) == if p == path then i else Id(ks, i, p)
    {
      KnownNext(ks, i, p);
      IdNext(ks, i, p);
    }
    forall p | FileAt(ks, n, p) ensures HoldsFile(t2, ks, n, p) { if p != path { assert HoldsFile(t, ks, i, p); } }
    forall p, q | FileAt(ks, n, p) && FileAt(ks, n, q)
      ensures T.Find(t2, p) == T.Find(t2, q) <==> Id(ks, n, p) == Id(ks, n, q)
    {
      if p != path { assert HoldsFile(t, ks, i, p); }
      if q != path { assert HoldsFile(t, ks, i, q); }
    }
  }

  /** After a link the path names the file its target names. */
  lemma FilesAfterLink(t: T.Table, t2: T.Table, ks: Items, i: nat, c: nat)
    requires i < |ks| && FilesHeld(t, ks, i) && ks[i].kind.Link? && FileAt(ks, i, ks[i].kind.target)
    requires Bound(t, t2, ks[i].path, c)
    requires T.SameExtents(t, t2, 0) && T.Find(t, ks[i].kind.target) == Some(c)
    ensures FilesHeld(t2, ks, i + 1)
  {
    var path, g := ks[i].path, ks[i].kind.target;
    hide T.Find;
    var n := i + 1;
    hide FileAt, Id;
    forall p
      ensures (FileAt(ks, n, p) <==> FileAt(ks, i, p) || p == path)
      ensures Id(ks, n, p) == if p == path then Id(ks, i, g) else Id(ks, i, p)
    {
      KnownNext(ks, i, p);
      IdNext(ks, i, p);
    }
    assert HoldsFile(t, ks, i, g);
    forall p | FileAt(ks, n, p) ensures HoldsFile(t2, ks, n, p) { if p != path { assert HoldsFile(t, ks, i, p); } }
  }

  /** The inode of a replaced file is taken over only if the path is its one name. */
  lemma NotShared(t: T.Table, ks: Items, i: nat, c: nat, p: Path)
    requires i < |ks| && T.Valid(t) && Ready(t, ks, i) && FileAt(ks, i, p) && p != ks[i].path
    requires T.Has(t, c) ==> T.Find(t, ks[i].path) == Some(c) && !T.N(t, c).isDir && T.N(t, c).links < 2
    ensures T.Find(t, p) != Some(c)
  {
    if T.Find(t, p) == Some(c) {
      FoundHas(t, p);
      var path := ks[i].path;
      FoundIsFile(t, ks, i, path);
      NamesCounted(t, ks, i, p);
      SameIff(t, ks, i, p, path);
      NamesIs(ks, i, Id(ks, i, p), p);
      NamesIs(ks, i, Id(ks, i, p), path);
      hide Names, Ready, Known, DirAt, FileAt, Id, T.Find, T.Valid;
      TwoIn(Names(ks, i, Id(ks, i, p)), p, path);
      assert false;
    }
  }

  lemma TwoIn<A>(s: set<A>, a: A, b: A)
    requires a in s && b in s && a != b
    ensures |s| >= 2
  {
    assert {a, b} <= s;
    assert |s - {a, b}| == |s| - |{a, b}|;
  }

  // ---- the stream ----

  /** An entry as it comes: the parts of its path and of a link's target. */
  datatype Input = Input(parts: Path, isDir: bool, target: Option<Path>, fits: bool, extents: bool)

  function ItemOf(e: Input): Item {
    var kind := if e.target.Some? then Link(T.Clean(e.target.value)) else if e.isDir then Dir else File;
    Item(T.Clean(e.parts), kind, e.fits, e.extents && !e.isDir)
  }

  function ItemsOf(es: seq<Input>): (ks: Items)
    ensures |ks| == |es|
  {
    seq(|es|, i requires 0 <= i < |es| => ItemOf(es[i]))
  }

  /** One entry into the tree. */
  method Feed(tree: T.Tree, e: Input, ghost ks: Items, ghost i: nat) returns (ok: bool)
    requires tree.Ok() && i < |ks| && ks[i] == ItemOf(e) && Held(tree.t, ks, i)
    modifies tree
    ensures ok <==> ItemOk(ks, i)
    ensures ok ==> tree.Ok() && Held(tree.t, ks, i + 1)
  {
    hide T.Valid, T.Find, Held, Ready, ItemOk, T.Clean, T.Grown, T.NoPlace, T.CanCreate, T.CanLink, T.PlainDirs,
         T.OnlyNameMoved, T.SameKinds, T.SameExtents, FilesHeld, Bound, FileAt;
    ok := tree.MakeParents(e.parts);
    if !ok {
      ghost var k :| 0 <= k < |ks[i].path| - 1 && T.NoPlace(tree.t, ks[i].path, k)
                     && T.Grown(old(tree.t), tree.t, ks[i].path, k)
                     && T.Find(tree.t, ks[i].path[..k + 1]).None?;
      ParentsFail(old(tree.t), tree.t, ks, i, k);
      return;
    }
    ReadyAfter(old(tree.t), tree.t, ks, i);
    if e.target.Some? { ok := FeedLink(tree, e, ks, i); } else { ok := FeedNew(tree, e, ks, i); }
  }

  method FeedNew(tree: T.Tree, e: Input, ghost ks: Items, ghost i: nat) returns (ok: bool)
    requires tree.Ok() && i < |ks| && ks[i] == ItemOf(e) && Ready(tree.t, ks, i) && e.target.None?
    modifies tree
    ensures ok <==> ItemOk(ks, i)
    ensures ok ==> tree.Ok() && Held(tree.t, ks, i + 1)
  {
    hide T.Valid, T.Find, Held, Ready, ItemOk, T.Clean, T.CanCreate, T.PlainDirs, T.OnlyNameMoved, T.SameKinds,
         T.SameExtents, FilesHeld, Bound, FileAt;
    ghost var t, path := tree.t, ks[i].path;
    CreateIff(t, ks, i);
    var ino;
    ok, ino := tree.Create(e.parts, if e.isDir then T.DirectoryType else T.RegularType, e.fits, e.extents && !e.isDir);
    if !ok { return; }
    BoundByCreate(t, tree.t, path, e.isDir, ino);
    ReadyApart(t, ks, i);
    if e.isDir {
      FilesAfterDir(t, tree.t, ks, i, ino);
    } else {
      forall p | FileAt(ks, i, p) && p != path
        ensures T.Find(t, p) != Some(ino)
      {
        KindBefore(t, tree.t, ino);
        NotShared(t, ks, i, ino, p);
      }
      FilesAfterFile(t, tree.t, ks, i, ino);
    }
    HeldNext(t, tree.t, ks, i, ino);
  }

  lemma KindBefore(t: T.Table, t2: T.Table, x: nat)
    requires T.SameKinds(t, t2)
    ensures T.Has(t, x) ==> T.Has(t2, x) && T.N(t, x).isDir == T.N(t2, x).isDir
  {
  }

  method FeedLink(tree: T.Tree, e: Input, ghost ks: Items, ghost i: nat) returns (ok: bool)
    requires tree.Ok() && i < |ks| && ks[i] == ItemOf(e) && Ready(tree.t, ks, i) && e.target.Some?
    modifies tree
    ensures ok <==> ItemOk(ks, i)
    ensures ok ==> tree.Ok() && Held(tree.t, ks, i + 1)
  {
    hide T.Valid, T.Find, Held, Ready, ItemOk, T.Clean, T.CanLink, T.PlainDirs, T.OnlyNameMoved, T.SameKinds,
         T.SameExtents, FilesHeld, Bound, FileAt;
    ghost var t, path := tree.t, ks[i].path;
    LinkIff(t, ks, i);
    ok := tree.Link(e.target.value, e.parts);
    if !ok { return; }
    ghost var c := T.Find(t, ks[i].kind.target).value;
    BoundByLink(t, tree.t, ks[i].kind.target, path, c);
    ReadyApart(t, ks, i);
    TargetIsFile(ks, i);
    LinkedFile(t, tree.t, ks, i, c);
    FilesAfterLink(t, tree.t, ks, i, c);
    HeldNext(t, tree.t, ks, i, c);
  }

  lemma TargetIsFile(ks: Items, i: nat)
    requires i < |ks| && ItemOk(ks, i) && ks[i].kind.Link?
    ensures FileAt(ks, i, ks[i].kind.target)
  {
  }

  lemma LinkedFile(t: T.Table, t2: T.Table, ks: Items, i: nat, c: nat)
    requires i < |ks| && FilesHeld(t, ks, i) && ks[i].kind.Link? && FileAt(ks, i, ks[i].kind.target)
    requires Bound(t, t2, ks[i].path, c)
    requires T.Find(t, ks[i].kind.target) == Some(c)
    ensures T.Has(t2, c) && !T.N(t2, c).isDir
  {
    assert HoldsFile(t, ks, i, ks[i].kind.target);
    hide T.Find, FileAt, Id;
  }

  lemma HeldFirst(t: T.Table, ks: Items)
    requires T.Valid(t) && (forall q :: T.Find(t, q).Some? <==> q == [] || q == [T.LOST_FOUND])
    requires T.LeadsToDir(t, []) && T.LeadsToDir(t, [T.LOST_FOUND])
    ensures Held(t, ks, 0)
  {
    hide T.Find;
  }

  /** The whole stream into a new tree: it goes through exactly if every entry is good, and
      then the tree holds exactly what the entries say. */
  method FeedAll(es: seq<Input>) returns (ok: bool, tree: T.Tree)
    ensures fresh(tree) && (ok <==> Accepted(ItemsOf(es)))
    ensures ok ==> tree.Ok() && Held(tree.t, ItemsOf(es), |es|)
  {
    hide Held, ItemOk, T.Find, T.Valid, T.PlainDirs, ItemOf;
    tree := new T.Tree();
    ghost var ks := ItemsOf(es);
    HeldFirst(tree.t, ks);
    for i := 0 to |es|
      invariant tree.Ok() && Held(tree.t, ks, i) && fresh(tree) && forall j :: 0 <= j < i ==> ItemOk(ks, j)
    {
      ok := Feed(tree, es[i], ks, i);
      if !ok { return; }
    }
    ok := true;
  }
}
