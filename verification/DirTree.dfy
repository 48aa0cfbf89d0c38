/** The directory tree the ext4 writer keeps in its inode table (ext4/src/writer.rs):
    created and linked names, link counts, and the recursion that writes it out. */
module DirTree {
  import opened Bytes

  const INODE_ROOT: nat := 2
  const INODE_FIRST: nat := 11
  const INODE_JOURNAL: nat := 8
  const MAX_LINKS: nat := 65000
  const MAX_NAME: nat := 255

  /** A name as its bytes. */
  type Name = seq<byte>

  const DOT: Name := [46]
  const DOTDOT: Name := [46, 46]
  const LOST_FOUND: Name := [108, 111, 115, 116, 43, 102, 111, 117, 110, 100]

  datatype Node = Node(isDir: bool, extents: bool, children: map<Name, nat>, links: nat)
  datatype Slot = Free | Used(node: Node)
  type Table = seq<Slot>

  predicate Has(t: Table, i: nat) { 1 <= i <= |t| && t[i - 1].Used? }
  function N(t: Table, i: nat): Node
    requires Has(t, i)
  {
    t[i - 1].node
  }

  predicate Plain(p: Name) { p != [] && p != DOT && p != DOTDOT }

  predicate GoodName(n: Name) { Plain(n) && |n| <= MAX_NAME }

  // ---- the invariant ----

  predicate Binds(t: Table, d: nat, n: Name, c: nat) {
    Has(t, d) && n in N(t, d).children && N(t, d).children[n] == c
  }

  /** Names lead to allocated inodes, only directories hold names, and a directory comes
      after the directory that holds it. */
  ghost predicate Shaped(t: Table) {
    && Has(t, INODE_ROOT) && N(t, INODE_ROOT).isDir
    && (forall i: nat, n, c: nat :: Binds(t, i, n, c) ==>
        GoodName(n) && i >= INODE_ROOT && N(t, i).isDir && Has(t, c) && (N(t, c).isDir ==> i < c))
  }

  /** The (directory, name) pairs that lead to `c`. */
  ghost function Refs(t: Table, c: nat): set<(nat, Name)> {
    set i: nat, n | 1 <= i <= |t| && Has(t, i) && n in N(t, i).children && N(t, i).children[n] == c :: (i, n)
  }

  /** The names in `d` that lead to directories. */
  ghost function Subdirs(t: Table, d: nat): set<Name>
    requires Has(t, d)
  {
    set n | n in N(t, d).children && Has(t, N(t, d).children[n]) && N(t, N(t, d).children[n]).isDir
  }

  ghost predicate LinkedAt(t: Table, i: nat)
    requires Has(t, i)
  {
    var node := N(t, i);
    && 1 <= node.links <= MAX_LINKS
    && (node.isDir ==> node.links == 2 + |Subdirs(t, i)| && |Refs(t, i)| == if i == INODE_ROOT then 0 else 1)
    && (!node.isDir ==> node.links == |Refs(t, i)|)
  }

  ghost predicate Linked(t: Table) { forall i: nat :: Has(t, i) ==> LinkedAt(t, i) }

  ghost predicate Valid(t: Table) { Shaped(t) && Linked(t) }

  lemma RefsHas(t: Table, c: nat, d: nat, n: Name)
    ensures (d, n) in Refs(t, c) <==> Binds(t, d, n, c)
  {
  }

  // ---- changes ----

  /** `t2` differs from `t` in link counts, and in name `n` of directory `d`, now `c`. */
  ghost predicate Rebound(t: Table, t2: Table, d: nat, n: Name, c: nat) {
    && |t2| == |t| && Has(t, d)
    && (forall i: nat :: Has(t2, i) <==> Has(t, i))
    && (forall i: nat :: Has(t, i) ==> N(t2, i).isDir == N(t, i).isDir && N(t2, i).extents == N(t, i).extents)
    && (forall i: nat :: Has(t, i) && i != d ==> N(t2, i).children == N(t, i).children)
    && N(t2, d).children == N(t, d).children[n := c]
  }

  lemma RefsRebound(t: Table, t2: Table, d: nat, n: Name, c: nat, x: nat)
    requires Rebound(t, t2, d, n, c)
    ensures Refs(t2, x) == Refs(t, x) - {(d, n)} + if x == c then {(d, n)} else {}
  {
    var a, b := Refs(t2, x), Refs(t, x) - {(d, n)} + if x == c then {(d, n)} else {};
    forall i: nat, m: Name ensures (i, m) in a <==> (i, m) in b {
      RefsHas(t, x, i, m);
      RefsHas(t2, x, i, m);
    }
    assert forall p :: p in a <==> (p.0, p.1) in a;
    assert forall p :: p in b <==> (p.0, p.1) in b;
    assert a == b;
  }

  lemma SubdirsRebound(t: Table, t2: Table, d: nat, n: Name, c: nat, x: nat)
    requires Rebound(t, t2, d, n, c) && Has(t, x) && Has(t, c)
    ensures Subdirs(t2, x) == if x != d then Subdirs(t, x) else Subdirs(t, x) - {n} + if N(t, c).isDir then {n} else {}
  {
  }

  lemma Replaced<T>(a: set<T>, b: set<T>, x: T, put: bool)
    requires b == a - {x} + if put then {x} else {}
    ensures |b| == |a| - (if x in a then 1 else 0) + (if put then 1 else 0)
  {
    var m := a - {x};
    assert |m| == |a| - if x in a then 1 else 0;
    assert |m + {x}| == |m| + 1;
  }

  lemma CountsRebound(t: Table, t2: Table, d: nat, n: Name, c: nat, x: nat)
    requires Rebound(t, t2, d, n, c) && Has(t, x) && Has(t, c)
    ensures |Refs(t2, x)| == |Refs(t, x)| - (if Binds(t, d, n, x) then 1 else 0) + (if x == c then 1 else 0)
    ensures |Subdirs(t2, x)| ==
      |Subdirs(t, x)| - (if x == d && n in Subdirs(t, d) then 1 else 0) + (if x == d && N(t, c).isDir then 1 else 0)
  {
    RefsRebound(t, t2, d, n, c, x);
    RefsHas(t, x, d, n);
    SubdirsRebound(t, t2, d, n, c, x);
    hide Refs, Subdirs;
    Replaced(Refs(t, x), Refs(t2, x), (d, n), x == c);
    if x == d { Replaced(Subdirs(t, d), Subdirs(t2, d), n, N(t, c).isDir); }
  }

  /** A new inode that nothing refers to yet. */
  lemma Appended(t: Table, node: Node)
    requires Shaped(t) && node.children == map[] && INODE_ROOT <= |t|
    ensures var t1 := t + [Used(node)];
      && Shaped(t1) && Refs(t1, |t| + 1) == {} && Subdirs(t1, |t| + 1) == {}
      && (forall x: nat :: Has(t, x) ==>
          Has(t1, x) && N(t1, x) == N(t, x) && Refs(t1, x) == Refs(t, x) && Subdirs(t1, x) == Subdirs(t, x))
  {
    var t1 := t + [Used(node)];
    assert N(t1, |t| + 1) == node;
    assert forall x: nat :: x != |t| + 1 ==> (Has(t1, x) <==> Has(t, x)) && (Has(t, x) ==> N(t1, x) == N(t, x));
    forall i: nat, n, c: nat ensures Binds(t1, i, n, c) <==> Binds(t, i, n, c) {}
    forall x: nat ensures Refs(t1, x) == Refs(t, x) {
      forall i: nat, m: Name
        ensures (i, m) in Refs(t1, x) <==> (i, m) in Refs(t, x)
      {
        RefsHas(t, x, i, m);
        RefsHas(t1, x, i, m);
      }
      assert forall p :: p in Refs(t1, x) <==> (p.0, p.1) in Refs(t1, x);
      assert forall p :: p in Refs(t, x) <==> (p.0, p.1) in Refs(t, x);
    }
    assert forall p :: p in Refs(t, |t| + 1) ==> Binds(t, p.0, p.1, |t| + 1);
    assert Refs(t, |t| + 1) == {};
    forall x: nat | Has(t, x) ensures Subdirs(t1, x) == Subdirs(t, x) {
      forall n | n in N(t, x).children
        ensures n in Subdirs(t1, x) <==> n in Subdirs(t, x)
      {
        assert Binds(t, x, n, N(t, x).children[n]);
      }
    }
  }

  // ---- paths ----

  /** clean_path on the parts between slashes: empty parts and "." go, ".." takes the part
      before it. */
  function Clean(parts: seq<Name>): (r: seq<Name>)
    ensures forall k :: 0 <= k < |r| ==> Plain(r[k])
  {
    if parts == [] then [] else
    var before, p := Clean(parts[..|parts| - 1]), parts[|parts| - 1];
    if Plain(p) then before + [p]
    else if p == DOTDOT && before != [] then before[..|before| - 1]
    else before
  }

  method CleanPath(parts: seq<Name>) returns (r: seq<Name>)
    ensures r == Clean(parts)
  {
    r := [];
    for i := 0 to |parts|
      invariant r == Clean(parts[..i])
    {
      assert parts[..i + 1][..i] == parts[..i];
      if parts[i] == DOTDOT { if r != [] { r := r[..|r| - 1]; } }
      else if parts[i] != [] && parts[i] != DOT { r := r + [parts[i]]; }
    }
    assert parts[..|parts|] == parts;
  }

  function Find(t: Table, path: seq<Name>): Option<nat> {
    if path == [] then Some(INODE_ROOT) else
    var d := Find(t, path[..|path| - 1]);
    var n := path[|path| - 1];
    if d.Some? && Has(t, d.value) && n in N(t, d.value).children then Some(N(t, d.value).children[n]) else None
  }

  /** find_path from the root. */
  method FindPath(t: Table, path: seq<Name>) returns (r: Option<nat>)
    ensures r == Find(t, path)
  {
    r := Some(INODE_ROOT);
    for k := 0 to |path|
      invariant r.Some? && r == Find(t, path[..k])
    {
      assert path[..k + 1][..k] == path[..k];
      if !Has(t, r.value) || path[k] !in N(t, r.value).children {
        NotFoundLater(t, path, k + 1);
        return None;
      }
      r := Some(N(t, r.value).children[path[k]]);
    }
    assert path[..|path|] == path;
  }

  lemma FindNone(t: Table, path: seq<Name>)
    ensures Find(t, path[..0]) == Some(INODE_ROOT)
  {
  }

  lemma FindNext(t: Table, path: seq<Name>, k: nat, d: nat)
    requires k < |path| && Find(t, path[..k]) == Some(d)
    ensures Has(t, d) && path[k] in N(t, d).children ==> Find(t, path[..k + 1]) == Some(N(t, d).children[path[k]])
  {
    assert path[..k + 1][..k] == path[..k];
  }

  lemma {:induction false} NotFoundLater(t: Table, path: seq<Name>, k: nat)
    requires k <= |path| && Find(t, path[..k]).None?
    ensures Find(t, path).None?
  {
    if k == |path| { assert path[..k] == path; } else {
      assert path[..|path| - 1][..k] == path[..k];
      NotFoundLater(t, path[..|path| - 1], k);
    }
  }

  /** What a path finds is allocated; a directory is found through smaller directories. */
  lemma {:induction false} Found(t: Table, path: seq<Name>)
    requires Shaped(t) && Find(t, path).Some?
    ensures Has(t, Find(t, path).value)
    ensures N(t, Find(t, path).value).isDir && path != [] ==>
      Find(t, path[..|path| - 1]).Some? && Find(t, path[..|path| - 1]).value < Find(t, path).value
  {
    if path != [] {
      var n := |path| - 1;
      Found(t, path[..n]);
      assert Binds(t, Find(t, path[..n]).value, path[n], Find(t, path).value);
    }
  }

  /** Rebinding a name in `d` leaves the way to `d` as it was. */
  lemma {:induction false} StillFound(t: Table, t2: Table, d: nat, n: Name, c: nat, path: seq<Name>)
    requires Shaped(t) && Rebound(t, t2, d, n, c) && Find(t, path).Some? && Find(t, path).value <= d
    requires N(t, d).isDir && Has(t, Find(t, path).value) && N(t, Find(t, path).value).isDir
    ensures Find(t2, path) == Find(t, path)
  {
    if path != [] {
      Found(t, path);
      var up := path[..|path| - 1];
      Found(t, up);
      assert Binds(t, Find(t, up).value, path[|path| - 1], Find(t, path).value);
      StillFound(t, t2, d, n, c, up);
    }
  }

  // ---- the three ways a table changes ----

  /** A fresh inode under a free name: for a directory the parent gains a link. */
  lemma NewEntryValid(t: Table, t2: Table, d: nat, n: Name, node: Node)
    requires Valid(t) && Has(t, d) && N(t, d).isDir && n !in N(t, d).children && INODE_ROOT <= d && GoodName(n)
    requires node.children == map[] && node.links == (if node.isDir then 1 else 0)
    requires (node.isDir ==> N(t, d).links < MAX_LINKS)
    requires Rebound(t + [Used(node)], t2, d, n, |t| + 1)
    requires N(t2, |t| + 1).links == node.links + 1 && N(t2, d).links == N(t, d).links + (if node.isDir then 1 else 0)
    requires forall x: nat :: Has(t, x) && x != d ==> N(t2, x).links == N(t, x).links
    ensures Valid(t2)
  {
    hide Refs, Subdirs, GoodName, Linked, LinkedAt;
    Appended(t, node);
    var t1, c := t + [Used(node)], |t| + 1;
    ReboundShaped(t1, t2, d, n, c);
    forall x: nat | Has(t2, x) ensures LinkedAt(t2, x) {
      CountsRebound(t1, t2, d, n, c, x);
      NameFree(t1, d, n, x);
      if x != c { LinkedAtOf(t, x); }
      hide Shaped, Rebound;
      NewEntryAt(t, t1, t2, d, node, x);
    }
    LinkedAll(t2);
  }

  lemma LinkedAtOf(t: Table, x: nat)
    requires Linked(t) && Has(t, x)
    ensures LinkedAt(t, x)
  {
  }

  lemma LinkedAll(t: Table)
    requires forall x: nat :: Has(t, x) ==> LinkedAt(t, x)
    ensures Linked(t)
  {
  }

  lemma NewEntryAt(t: Table, t1: Table, t2: Table, d: nat, node: Node, x: nat)
    requires Has(t, d) && N(t, d).isDir && t1 == t + [Used(node)] && Has(t1, x) && Has(t2, x)
    requires N(t2, x).isDir == N(t1, x).isDir
    requires node.links == (if node.isDir then 1 else 0) && (node.isDir ==> N(t, d).links < MAX_LINKS)
    requires |t| + 1 > INODE_ROOT
    requires x != |t| + 1 ==> Has(t, x) && LinkedAt(t, x)
    requires |Refs(t2, x)| == |Refs(t1, x)| + (if x == |t| + 1 then 1 else 0)
    requires |Subdirs(t2, x)| == |Subdirs(t1, x)| + (if x == d && node.isDir then 1 else 0)
    requires x == |t| + 1 ==> |Refs(t1, x)| == 0 && |Subdirs(t1, x)| == 0
    requires x != |t| + 1 ==> Refs(t1, x) == Refs(t, x) && Subdirs(t1, x) == Subdirs(t, x)
    requires if x == |t| + 1 then N(t2, x).links == node.links + 1
             else N(t2, x).links == N(t, x).links + (if x == d && node.isDir then 1 else 0)
    ensures LinkedAt(t2, x)
  {
    hide Refs, Subdirs;
  }

  lemma NameFree(t: Table, d: nat, n: Name, x: nat)
    requires Has(t, d) && n !in N(t, d).children
    ensures !Binds(t, d, n, x) && n !in Subdirs(t, d)
  {
  }

  lemma ReboundShaped(t: Table, t2: Table, d: nat, n: Name, c: nat)
    requires Shaped(t) && Rebound(t, t2, d, n, c) && Has(t, c) && N(t, d).isDir && (N(t, c).isDir ==> d < c)
    requires INODE_ROOT <= d && GoodName(n)
    ensures Shaped(t2)
  {
    hide GoodName;
    forall i: nat, m, x: nat | Binds(t2, i, m, x)
      ensures GoodName(m) && i >= INODE_ROOT && N(t2, i).isDir && Has(t2, x) && (N(t2, x).isDir ==> i < x)
    {
      if !(i == d && m == n) { assert Binds(t, i, m, x); }
    }
  }

  /** A name that led to `e`, one of several, now leads to non-directory `c`. */
  lemma ReplacedValid(t: Table, t2: Table, d: nat, n: Name, e: nat, c: nat)
    requires Shaped(t) && Binds(t, d, n, e) && !N(t, e).isDir && Has(t, c) && !N(t, c).isDir && e != c
    requires Rebound(t, t2, d, n, c)
    requires N(t, c).links == |Refs(t, c)| < MAX_LINKS && forall x: nat :: Has(t, x) && x != c ==> LinkedAt(t, x)
    requires N(t, e).links >= 2 && N(t2, e).links == N(t, e).links - 1 && N(t2, c).links == N(t, c).links + 1
    requires forall x: nat :: Has(t, x) && x != e && x != c ==> N(t2, x).links == N(t, x).links
    ensures Valid(t2)
  {
    ReboundShaped(t, t2, d, n, c);
    hide Refs, Subdirs;
    OneTarget(t, d, n, e);
    forall x: nat | Has(t2, x) ensures LinkedAt(t2, x) {
      CountsRebound(t, t2, d, n, c, x);
      hide Shaped, Rebound;
      if x != c { assert LinkedAt(t, x); }
    }
  }

  lemma OneTarget(t: Table, d: nat, n: Name, e: nat)
    requires Binds(t, d, n, e) && Has(t, e)
    ensures !N(t, e).isDir ==> n !in Subdirs(t, d)
  {
  }

  /** A free name now leads to an existing non-directory. */
  lemma LinkedValid(t: Table, t2: Table, d: nat, n: Name, c: nat)
    requires Valid(t) && Has(t, d) && N(t, d).isDir && INODE_ROOT <= d && n !in N(t, d).children && GoodName(n)
    requires Rebound(t, t2, d, n, c)
    requires Has(t, c) && !N(t, c).isDir && N(t, c).links < MAX_LINKS && N(t2, c).links == N(t, c).links + 1
    requires forall x: nat :: Has(t, x) && x != c ==> N(t2, x).links == N(t, x).links
    ensures Valid(t2)
  {
    hide Refs, Subdirs;
    ReboundShaped(t, t2, d, n, c);
    forall x: nat | Has(t2, x) ensures LinkedAt(t2, x) {
      CountsRebound(t, t2, d, n, c, x);
      NameFree(t, d, n, x);
      hide Shaped, Rebound;
      assert LinkedAt(t, x);
    }
  }

  /** The tree is as before in every respect the invariant speaks of. */
  lemma SameTree(t: Table, t2: Table)
    requires Valid(t) && |t2| == |t| && forall x: nat :: Has(t2, x) <==> Has(t, x)
    requires forall x: nat :: Has(t, x) ==>
      N(t2, x).isDir == N(t, x).isDir && N(t2, x).children == N(t, x).children && N(t2, x).links == N(t, x).links
    ensures Valid(t2)
  {
    assert forall i: nat, n, c: nat :: Binds(t2, i, n, c) <==> Binds(t, i, n, c);
    forall x: nat | Has(t2, x) ensures LinkedAt(t2, x) {
      assert Refs(t2, x) == Refs(t, x);
      assert Subdirs(t2, x) == Subdirs(t, x);
      assert LinkedAt(t, x);
    }
  }

  // ---- the writer ----

  datatype FileType = Unset | RegularType | DirectoryType | SymlinkType | SpecialType | InvalidType

  /** Where lookup succeeds: the name is not too long and its place is a directory. */
  ghost predicate Reaches(t: Table, path: seq<Name>) {
    path == [] || (GoodName(path[|path| - 1]) && LeadsToDir(t, path[..|path| - 1]))
  }

  predicate LeadsToDir(t: Table, path: seq<Name>) {
    var d := Find(t, path);
    d.Some? && Has(t, d.value) && N(t, d.value).isDir
  }

  predicate Replaceable(n: Node, isDir: bool) { n.isDir == isDir && (n.isDir || n.links < 2 ==> !n.extents) }

  /** When create succeeds: the name is reached and, if taken, leads to something of the kind
      whose inode can be taken over or need not be; if free, its directory can take it. */
  ghost predicate CanCreate(t: Table, path: seq<Name>, isDir: bool) {
    Reaches(t, path) &&
    if Find(t, path).Some? then Has(t, Find(t, path).value) && Replaceable(N(t, Find(t, path).value), isDir)
    else isDir ==> path != [] && N(t, Find(t, path[..|path| - 1]).value).links < MAX_LINKS
  }

  /** When link succeeds: the new name is free or the last of several is not lost, and the old
      one leads to something other than a directory that can take one more. */
  ghost predicate CanLink(t: Table, source: seq<Name>, path: seq<Name>) {
    var e, c := Find(t, path), Find(t, source);
    && Reaches(t, path) && (e.Some? ==> Has(t, e.value) && !N(t, e.value).isDir && N(t, e.value).links >= 2)
    && Reaches(t, source) && c.Some? && Has(t, c.value) && !N(t, c.value).isDir
    && (e != c ==> N(t, c.value).links < MAX_LINKS)
  }

  /** Inodes stay what they are. */
  ghost predicate SameKinds(t: Table, t2: Table) {
    forall x: nat :: Has(t, x) ==> Has(t2, x) && N(t2, x).isDir == N(t, x).isDir
  }

  ghost predicate SameExtents(t: Table, t2: Table, but: nat) {
    forall x: nat :: Has(t, x) && Has(t2, x) && x != but ==> N(t2, x).extents == N(t, x).extents
  }

  /** Directories hold no extents before close. */
  ghost predicate PlainDirs(t: Table) { forall x: nat :: Has(t, x) && N(t, x).isDir ==> !N(t, x).extents }

  /** What lookup returns: the directory, what the name leads to, and the name itself. */
  ghost predicate LookedUp(t: Table, path: seq<Name>, d: nat, c: Option<nat>, n: Name) {
    if path == [] then d == INODE_ROOT && c == Some(INODE_ROOT) && n == []
    else
      && n == path[|path| - 1] && GoodName(n) && Find(t, path[..|path| - 1]) == Some(d) && Has(t, d) && N(t, d).isDir
      && c == if n in N(t, d).children then Some(N(t, d).children[n]) else None
  }

  function WithLinks(t: Table, i: nat, k: nat): Table
    requires Has(t, i)
  {
    t[i - 1 := Used(N(t, i).(links := k))]
  }

  function WithName(t: Table, d: nat, n: Name, c: nat): Table
    requires Has(t, d)
  {
    t[d - 1 := Used(N(t, d).(children := N(t, d).children[n := c]))]
  }

  function EmptyTable(): Table { [Free, Used(Node(true, false, map[], 2))] + seq(8, _ => Free) }

  lemma EmptyValid()
    ensures Valid(EmptyTable()) && |EmptyTable()| == INODE_FIRST - 1
    ensures Clean([LOST_FOUND]) == [LOST_FOUND] && CanCreate(EmptyTable(), [LOST_FOUND], true)
    ensures PlainDirs(EmptyTable())
  {
    var t := EmptyTable();
    assert forall i: nat :: Has(t, i) <==> i == INODE_ROOT;
    assert Refs(t, INODE_ROOT) == {} && Subdirs(t, INODE_ROOT) == {};
    assert [LOST_FOUND][..0] == [];
    assert Find(t, []) == Some(INODE_ROOT);
    hide Refs, Subdirs;
    assert Find(t, [LOST_FOUND]).None?;
  }

  class Tree {
    var t: Table

    ghost predicate Ok()
      reads this
    {
      Valid(t) && |t| >= INODE_FIRST - 1 && PlainDirs(t) && !Has(t, INODE_JOURNAL)
    }

    /** init: inode 1 unused, the root, unused slots up to 10, then lost+found. */
    constructor ()
      ensures Ok() && forall q :: Find(t, q).Some? <==> q == [] || q == [LOST_FOUND]
      ensures LeadsToDir(t, []) && LeadsToDir(t, [LOST_FOUND])
    {
      t := EmptyTable();
      new;
      EmptyValid();
      ghost var was := t;
      var ok, ino := Create([LOST_FOUND], DirectoryType, true, false);
      hide Valid, Clean, OnlyNameMoved, CanCreate, PlainDirs, Find;
      OnlyRoot();
      FreshHasNoNames(was, t, [LOST_FOUND], ino);
      forall q
        ensures Find(t, q) == if q == [LOST_FOUND] then Some(ino) else Find(was, q)
      {
        FoundAfter(was, t, [LOST_FOUND], ino, q);
      }
      RootIsDir(t);
    }

    method Lookup(parts: seq<Name>, mustExist: bool) returns (ok: bool, d: nat, c: Option<nat>, n: Name)
      requires Ok()
      ensures ok ==> LookedUp(t, Clean(parts), d, c, n)
      ensures ok <==> Reaches(t, Clean(parts)) && (mustExist ==> Find(t, Clean(parts)).Some?)
    {
      var path := CleanPath(parts);
      d, c, n := INODE_ROOT, Some(INODE_ROOT), [];
      if path == [] { return true, d, c, n; }
      n := path[|path| - 1];
      if n == [] || |n| > MAX_NAME { return false, d, c, n; }
      var dir := FindPath(t, path[..|path| - 1]);
      if dir.None? { return false, d, c, n; }
      d := dir.value;
      if !Has(t, d) || !N(t, d).isDir { return false, d, c, n; }
      c := if n in N(t, d).children then Some(N(t, d).children[n]) else None;
      return c.Some? || !mustExist, d, c, n;
    }

    /** make_inode's effect on the table: a fresh slot, or the same one with its children
        and links kept. `fits` stands for the size and xattr checks. */
    method MakeInode(typ: FileType, fits: bool, extents: bool, reuse: Option<nat>) returns (ok: bool, ino: nat)
      modifies this
      ensures !ok ==> t == old(t)
      ensures ok && reuse.None? ==>
        && ino == |old(t)| + 1
        && t == old(t) + [Used(Node(typ == DirectoryType, extents, map[], if typ == DirectoryType then 1 else 0))]
      ensures ok && reuse.Some? ==>
        && ino == reuse.value && Has(old(t), ino)
        && t ==
          old(t)[ino - 1 := Used(Node(typ == DirectoryType, extents, N(old(t), ino).children, N(old(t), ino).links))]
      ensures ok <==>
        typ != InvalidType && fits && (reuse.None? || (Has(old(t), reuse.value) && !N(old(t), reuse.value).extents))
    {
      ino := 0;
      if reuse.Some? && (!Has(t, reuse.value) || N(t, reuse.value).extents) { return false, ino; }
      if typ == InvalidType || !fits { return false, ino; }
      var isDir := typ == DirectoryType;
      if reuse.Some? {
        ino := reuse.value;
        t := t[ino - 1 := Used(Node(isDir, extents, N(t, ino).children, N(t, ino).links))];
      } else {
        ino := |t| + 1;
        t := t + [Used(Node(isDir, extents, map[], if isDir then 1 else 0))];
      }
      return true, ino;
    }

    /** create: afterwards the path leads to an inode of the asked kind and no other name
        has moved. */
    method Create(parts: seq<Name>, typ: FileType, fits: bool, extents: bool) returns (ok: bool, ino: nat)
      requires Ok() && (typ == DirectoryType ==> !extents)
      modifies this
      ensures ok ==> Ok() && Has(t, ino) && (N(t, ino).isDir <==> typ == DirectoryType)
      ensures ok ==> Find(t, Clean(parts)) == Some(ino)
      ensures ok ==> OnlyNameMoved(old(t), t, Clean(parts), ino) && SameKinds(old(t), t)
      ensures ok && Find(old(t), Clean(parts)).None? ==> !Has(old(t), ino)
      ensures ok ==> SameExtents(old(t), t, ino) && N(t, ino).extents == extents
      ensures ok && Find(old(t), Clean(parts)).Some? ==>
        if Has(old(t), ino)
        then Find(old(t), Clean(parts)) == Some(ino) && (N(t, ino).isDir || N(old(t), ino).links < 2)
        else !N(t, ino).isDir
      ensures !ok ==> t == old(t)
      ensures ok <==> typ != InvalidType && fits && CanCreate(old(t), Clean(parts), typ == DirectoryType)
    {
      hide Linked, Shaped, LookedUp, Find, Clean, OnlyNameMoved, Reaches, SameKinds, SameNodes, PlainDirs,
           SameExtents;
      ghost var path := Clean(parts);
      var d, existing, n;
      ino := 0;
      ok, d, existing, n := Lookup(parts, false);
      if !ok { return; }
      LookedHas(t, path, d, existing, n);
      var reuse := None;
      if existing.Some? {
        var node := N(t, existing.value);
        if node.isDir {
          if typ != DirectoryType { return false, ino; }
          reuse := existing;
        } else if typ == DirectoryType {
          return false, ino;
        } else if node.links < 2 {
          reuse := existing;
        }
      } else if typ == DirectoryType && N(t, d).links >= MAX_LINKS {
        return false, ino;
      }
      ok, ino := MakeInode(typ, fits, extents, reuse);
      if !ok { return; }
      ghost var mid := t;
      InodeMade(old(t), mid, ino, reuse, N(mid, ino));
      if existing != Some(ino) {
        Bind(old(t), path, d, existing, n, ino);
      } else {
        ReuseDone(old(t), t, path, ino);
        SameAsSelf(t);
      }
      NodesStay(mid, t);
      KindsOn(old(t), mid, t);
      NodeStays(mid, t, ino);
    }

    /** The end of create for a fresh inode: the name moves, the counts follow. */
    method Bind(ghost was: Table, ghost path: seq<Name>, d: nat, existing: Option<nat>, n: Name, ino: nat)
      requires Valid(was) && |was| >= INODE_FIRST - 1 && path != [] && LookedUp(was, path, d, existing, n)
      requires ino == |was| + 1
      requires |t| == |was| + 1 && t == was + [t[|was|]] && Has(t, ino) && N(t, ino).children == map[]
      requires N(t, ino).links == (if N(t, ino).isDir then 1 else 0)
      requires (N(t, ino).isDir ==> existing.None? && N(was, d).links < MAX_LINKS)
      requires existing.Some? ==> Has(was, existing.value) && !N(was, existing.value).isDir
      requires existing.Some? ==> N(was, existing.value).links >= 2
      modifies this
      ensures Valid(t) && |t| == |old(t)| && Find(t, path) == Some(ino) && OnlyNameMoved(was, t, path, ino)
      ensures SameNodes(old(t), t)
    {
      hide Linked, Shaped, LookedUp, Find, OnlyNameMoved, SameNodes;
      LookedHas(was, path, d, existing, n);
      BindDone(was, t, path, d, existing, n, ino);
      if existing.Some? { t := WithLinks(t, existing.value, N(t, existing.value).links - 1); }
      t := WithName(t, d, n, ino);
      t := WithLinks(t, ino, N(t, ino).links + 1);
      if N(t, ino).isDir { t := WithLinks(t, d, N(t, d).links + 1); }
    }

    /** make_parents: on success every leading directory of the path is there, and nothing else
        has changed. It stops where a name is too long or the place for it cannot take a
        directory, and keeps what it made so far. */
    method MakeParents(parts: seq<Name>) returns (ok: bool)
      requires Ok()
      modifies this
      ensures Ok() && (Clean(parts) == [] ==> ok && t == old(t))
      ensures ok && Clean(parts) != [] ==> Grown(old(t), t, Clean(parts), |Clean(parts)| - 1)
      ensures !ok ==>
        exists k :: 0 <= k < |Clean(parts)| - 1 && NoPlace(t, Clean(parts), k) && Grown(old(t), t, Clean(parts), k)
                                  && Find(t, Clean(parts)[..k + 1]).None?
    {
      hide Valid, OnlyNameMoved, GoodName, CanCreate, NoPlace, Find, Clean, PlainDirs, Grown, SameKinds;
      var path := CleanPath(parts);
      if path == [] { return true; }
      var dirs := path[..|path| - 1];
      var current := INODE_ROOT;
      FindNone(t, dirs);
      NotGrown(t, path);
      for k := 0 to |dirs|
        invariant Ok() && Find(t, dirs[..k]) == Some(current) && Grown(old(t), t, path, k)
      {
        FindNext(t, dirs, k, current);
        assert path[..k + 1] == dirs[..k + 1] && path[..k] == dirs[..k];
        if Has(t, current) && dirs[k] in N(t, current).children {
          current := N(t, current).children[dirs[k]];
          GrownThere(old(t), t, path, k);
          continue;
        }
        CleanPrefix(parts, k + 1);
        PlaceIsFree(t, path, k);
        ghost var before := t;
        var made, ino := Create(dirs[..k + 1], DirectoryType, true, false);
        if !made { return false; }
        GrownMore(old(t), before, t, path, k, ino);
        current := ino;
      }
      return true;
    }

    /** link: a second name for an existing non-directory. */
    method Link(oldParts: seq<Name>, newParts: seq<Name>) returns (ok: bool)
      requires Ok()
      modifies this
      ensures !ok ==> t == old(t)
      ensures ok ==> Ok() && Find(old(t), Clean(oldParts)).Some?
                     && Find(t, Clean(newParts)) == Find(old(t), Clean(oldParts))
                     && OnlyNameMoved(old(t), t, Clean(newParts), Find(old(t), Clean(oldParts)).value)
      ensures ok ==> SameKinds(old(t), t) && SameExtents(old(t), t, 0)
      ensures ok <==> CanLink(old(t), Clean(oldParts), Clean(newParts))
    {
      hide Linked, Shaped, LookedUp, Find, Clean, OnlyNameMoved, Reaches, SameNodes;
      ghost var path := Clean(newParts);
      var d, existing, n;
      ok, d, existing, n := Lookup(newParts, false);
      if !ok { return; }
      LookedHas(t, path, d, existing, n);
      if existing.Some? && (N(t, existing.value).isDir || N(t, existing.value).links < 2) { return false; }
      var d0, source, n0;
      ok, d0, source, n0 := Lookup(oldParts, true);
      if !ok { return; }
      LookedHas(t, Clean(oldParts), d0, source, n0);
      var c := source.value;
      if N(t, c).isDir { return false; }
      if existing != Some(c) && N(t, c).links >= MAX_LINKS { return false; }
      LinkDone(t, path, d, existing, n, c);
      if existing.Some? { t := WithLinks(t, existing.value, N(t, existing.value).links - 1); }
      t := WithLinks(t, c, N(t, c).links + 1);
      t := WithName(t, d, n, c);
      NodesStay(old(t), t);
    }
  }

  /** Only the name at the end of `path` differs, and it leads to `ino`. */
  ghost predicate OnlyNameMoved(t: Table, t2: Table, path: seq<Name>, ino: nat) {
    if path == [] then forall i: nat, m, c: nat :: Binds(t, i, m, c) <==> Binds(t2, i, m, c)
    else
      var d, n := Find(t, path[..|path| - 1]), path[|path| - 1];
      && d.Some? && Binds(t2, d.value, n, ino)
      && forall i: nat, m, c: nat :: (i, m) != (d.value, n) ==> (Binds(t, i, m, c) <==> Binds(t2, i, m, c))
  }

  lemma LookedHas(t: Table, path: seq<Name>, d: nat, c: Option<nat>, n: Name)
    requires Shaped(t) && LookedUp(t, path, d, c, n)
    ensures Has(t, d) && N(t, d).isDir && Find(t, path) == c && (c.Some? ==> Has(t, c.value))
    ensures path == [] ==> c.Some? && N(t, c.value).isDir
    ensures path != [] ==> Find(t, path[..|path| - 1]) == Some(d)
    ensures path != [] && c.Some? ==> Binds(t, d, n, c.value)
    ensures path != [] ==> GoodName(n)
    ensures c.None? ==> path != [] && n !in N(t, d).children
  {
    if path != [] && c.Some? { assert Binds(t, d, n, c.value); }
  }

  /** The `k`-th component cannot be made a directory: its name is too long, or the place for
      it is not a directory or has all its links. */
  ghost predicate NoPlace(t: Table, path: seq<Name>, k: nat)
    requires k < |path|
  {
    var d := Find(t, path[..k]);
    d.Some? && !(GoodName(path[k]) && Has(t, d.value) && N(t, d.value).isDir && N(t, d.value).links < MAX_LINKS)
  }

  lemma PlaceIsFree(t: Table, path: seq<Name>, k: nat)
    requires k < |path| && Find(t, path[..k]).Some? && Valid(t)
    requires !(Has(t, Find(t, path[..k]).value) && path[k] in N(t, Find(t, path[..k]).value).children)
    ensures CanCreate(t, path[..k + 1], true) <==> !NoPlace(t, path, k)
    ensures Find(t, path[..k + 1]).None?
  {
    hide GoodName, Valid;
    assert path[..k + 1][..k] == path[..k];
  }

  /** Same inodes, same kinds, same extents. */
  ghost predicate SameNodes(t: Table, t2: Table) {
    && (forall x: nat :: Has(t2, x) <==> Has(t, x))
    && forall x: nat :: Has(t, x) ==> N(t2, x).isDir == N(t, x).isDir && N(t2, x).extents == N(t, x).extents
  }

  lemma SameAsSelf(t: Table)
    ensures SameNodes(t, t)
  {
  }

  lemma InodeMade(t: Table, t2: Table, ino: nat, reuse: Option<nat>, node: Node)
    requires |t| >= INODE_FIRST - 1 && PlainDirs(t) && !Has(t, INODE_JOURNAL) && (node.isDir ==> !node.extents)
    requires reuse.None? ==> ino == |t| + 1 && t2 == t + [Used(node)]
    requires reuse.Some? ==> ino == reuse.value && Has(t, ino) && t2 == t[ino - 1 := Used(node)]
    requires reuse.Some? ==> N(t, ino).isDir == node.isDir
    ensures SameKinds(t, t2) && PlainDirs(t2) && !Has(t2, INODE_JOURNAL) && (reuse.None? ==> !Has(t, ino))
    ensures SameExtents(t, t2, ino)
  {
    if reuse.None? {
      assert forall x: nat :: x != |t| + 1 ==> (Has(t2, x) <==> Has(t, x)) && (Has(t, x) ==> N(t2, x) == N(t, x));
    }
  }

  lemma KindsOn(a: Table, b: Table, c: Table)
    requires SameKinds(a, b) && SameKinds(b, c)
    ensures SameKinds(a, c)
    ensures forall x: nat :: SameExtents(a, b, x) && SameNodes(b, c) ==> SameExtents(a, c, x)
  {
  }

  lemma NodeStays(t: Table, t2: Table, x: nat)
    requires SameNodes(t, t2) && Has(t, x)
    ensures Has(t2, x) && N(t2, x).isDir == N(t, x).isDir && N(t2, x).extents == N(t, x).extents
  {
  }

  lemma NodesStay(t: Table, t2: Table)
    requires SameNodes(t, t2) && PlainDirs(t)
    ensures SameKinds(t, t2) && SameExtents(t, t2, 0) && PlainDirs(t2)
    ensures (!Has(t, INODE_JOURNAL) ==> !Has(t2, INODE_JOURNAL))
  {
  }

  lemma ReuseDone(t: Table, t2: Table, path: seq<Name>, ino: nat)
    requires Valid(t) && Find(t, path) == Some(ino) && |t2| == |t| && (forall x: nat :: Has(t2, x) <==> Has(t, x))
    requires forall x: nat :: Has(t, x) ==>
      N(t2, x).isDir == N(t, x).isDir && N(t2, x).children == N(t, x).children && N(t2, x).links == N(t, x).links
    ensures Valid(t2) && Find(t2, path) == Some(ino) && OnlyNameMoved(t, t2, path, ino)
  {
    SameTree(t, t2);
    SameFind(t, t2, path);
    if path != [] { SameFind(t, t2, path[..|path| - 1]); }
  }

  lemma DirAtLeastRoot(t: Table, path: seq<Name>)
    requires Shaped(t) && Find(t, path).Some? && Has(t, Find(t, path).value) && N(t, Find(t, path).value).isDir
    ensures Find(t, path).value >= INODE_ROOT
  {
    if path != [] {
      Found(t, path[..|path| - 1]);
      assert Binds(t, Find(t, path[..|path| - 1]).value, path[|path| - 1], Find(t, path).value);
    }
  }

  lemma AllButFresh(t: Table, t1: Table)
    requires Linked(t) && |t1| == |t| + 1 && forall x: nat :: Has(t, x) ==> Has(t1, x) && N(t1, x) == N(t, x)
    requires forall x: nat :: Has(t, x) ==> Refs(t1, x) == Refs(t, x) && Subdirs(t1, x) == Subdirs(t, x)
    requires forall x: nat :: Has(t1, x) && x != |t1| ==> Has(t, x)
    ensures forall x: nat :: Has(t1, x) && x != |t1| ==> LinkedAt(t1, x)
  {
    hide Refs, Subdirs;
    forall x: nat | Has(t1, x) && x != |t1| ensures LinkedAt(t1, x) { assert LinkedAt(t, x); }
  }

  lemma {:induction false} SameFind(t: Table, t2: Table, path: seq<Name>)
    requires forall x: nat :: Has(t2, x) <==> Has(t, x)
    requires forall x: nat :: Has(t, x) ==> N(t2, x).children == N(t, x).children
    ensures Find(t2, path) == Find(t, path)
  {
    if path != [] { SameFind(t, t2, path[..|path| - 1]); }
  }

  lemma {:induction false} FreshFind(t: Table, t1: Table, path: seq<Name>)
    requires Shaped(t) && (forall x: nat :: Has(t, x) ==> Has(t1, x) && N(t1, x) == N(t, x)) && Find(t, path).Some?
    ensures Find(t1, path) == Find(t, path)
  {
    if path != [] {
      FreshFind(t, t1, path[..|path| - 1]);
      Found(t, path[..|path| - 1]);
    }
  }

  lemma PathMoved(t: Table, t1: Table, t2: Table, path: seq<Name>, d: nat, n: Name, c: nat)
    requires Shaped(t) && Shaped(t1) && path != [] && Find(t, path[..|path| - 1]) == Some(d)
    requires n == path[|path| - 1] && Has(t, d) && N(t, d).isDir
    requires |t1| == |t| + 1
    requires (forall x: nat :: x != |t1| ==> (Has(t, x) <==> Has(t1, x)) && (Has(t, x) ==> N(t1, x) == N(t, x)))
    requires Has(t1, |t1|) && N(t1, |t1|).children == map[] && Rebound(t1, t2, d, n, c)
    ensures Find(t2, path) == Some(c) && OnlyNameMoved(t, t2, path, c)
  {
    var up := path[..|path| - 1];
    FreshFind(t, t1, up);
    StillFound(t1, t2, d, n, c, up);
  }

  lemma OnlyRoot()
    ensures forall q :: Find(EmptyTable(), q).Some? <==> q == []
  {
    forall q ensures Find(EmptyTable(), q).Some? <==> q == [] { NothingInRoot(q); }
  }

  lemma {:induction false} NothingInRoot(q: seq<Name>)
    ensures Find(EmptyTable(), q).Some? <==> q == []
  {
    if q != [] { NothingInRoot(q[..|q| - 1]); }
  }

  lemma RootIsDir(t: Table)
    requires Valid(t)
    ensures LeadsToDir(t, [])
  {
  }

  // ---- what a change does to paths ----

  lemma FindBinds(t: Table, q: seq<Name>, c: nat)
    requires q != []
    ensures Find(t, q) == Some(c) <==>
      Find(t, q[..|q| - 1]).Some? && Binds(t, Find(t, q[..|q| - 1]).value, q[|q| - 1], c)
    ensures Find(t, q).Some? ==> Find(t, q[..|q| - 1]).Some?
  {
  }

  /** One path leads to a directory. */
  lemma {:induction false} DirPathUnique(t: Table, p: seq<Name>, q: seq<Name>)
    requires Valid(t) && LeadsToDir(t, p) && Find(t, q) == Find(t, p)
    ensures p == q
    decreases |p|
  {
    hide Valid, Find, Parent;
    var c := Find(t, p).value;
    FindNone(t, p);
    assert p[..0] == [];
    if p == [] && q != [] { FindBinds(t, q, c); RootUnnamed(t, Find(t, q[..|q| - 1]).value, q[|q| - 1]); }
    if p != [] && q == [] { FindBinds(t, p, c); RootUnnamed(t, Find(t, p[..|p| - 1]).value, p[|p| - 1]); }
    if p != [] && q != [] {
      FindBinds(t, p, c);
      FindBinds(t, q, c);
      var d, e := Find(t, p[..|p| - 1]).value, Find(t, q[..|q| - 1]).value;
      ParentIs(t, c, d, p[|p| - 1]);
      ParentIs(t, c, e, q[|q| - 1]);
      DirPathUnique(t, p[..|p| - 1], q[..|q| - 1]);
      assert p == p[..|p| - 1] + [p[|p| - 1]] && q == q[..|q| - 1] + [q[|q| - 1]];
    }
  }

  lemma RootUnnamed(t: Table, d: nat, n: Name)
    requires Valid(t)
    ensures !Binds(t, d, n, INODE_ROOT)
  {
    if Binds(t, d, n, INODE_ROOT) { ParentIs(t, INODE_ROOT, d, n); assert false; }
  }

  ghost predicate NoNames(t: Table, i: nat) { forall m, c: nat :: !Binds(t, i, m, c) }

  lemma FreshHasNoNames(t: Table, t2: Table, path: seq<Name>, ino: nat)
    requires OnlyNameMoved(t, t2, path, ino) && path != [] && LeadsToDir(t, path[..|path| - 1]) && !Has(t, ino)
    ensures NoNames(t2, ino)
  {
    hide Find;
    forall m, c: nat ensures !Binds(t2, ino, m, c) { assert !Binds(t, ino, m, c); }
  }

  lemma FileHasNoNames(t: Table, ino: nat)
    requires Valid(t) && Has(t, ino) && !N(t, ino).isDir
    ensures NoNames(t, ino)
  {
    hide Linked;
  }

  /** Every other path leads where it did. */
  lemma {:induction false} FoundAfter(t: Table, t2: Table, path: seq<Name>, ino: nat, q: seq<Name>)
    requires Valid(t) && path != [] && LeadsToDir(t, path[..|path| - 1]) && OnlyNameMoved(t, t2, path, ino)
    requires NoNames(t2, ino) && !LeadsToDir(t, path)
    ensures Find(t2, q) == if q == path then Some(ino) else Find(t, q)
    decreases |q|
  {
    hide Valid, Find;
    FindNone(t, q);
    FindNone(t2, q);
    if q == [] { assert q[..0] == []; } else {
      var u, m := q[..|q| - 1], q[|q| - 1];
      FoundAfter(t, t2, path, ino, u);
      assert q == u + [m];
      if u == path { AfterPath(t, t2, path, ino, q); } else { AtName(t, t2, path, ino, q); }
    }
  }

  lemma AfterPath(t: Table, t2: Table, path: seq<Name>, ino: nat, q: seq<Name>)
    requires Valid(t) && q != [] && q[..|q| - 1] == path && Find(t2, path) == Some(ino) && NoNames(t2, ino)
    requires !LeadsToDir(t, path)
    ensures Find(t2, q).None? && Find(t, q).None?
  {
    hide Find;
    if Find(t2, q).Some? { FindBinds(t2, q, Find(t2, q).value); }
    if Find(t, q).Some? { FindBinds(t, q, Find(t, q).value); }
  }

  lemma AtName(t: Table, t2: Table, path: seq<Name>, ino: nat, q: seq<Name>)
    requires Valid(t) && path != [] && LeadsToDir(t, path[..|path| - 1]) && OnlyNameMoved(t, t2, path, ino)
    requires q != [] && Find(t2, q[..|q| - 1]) == Find(t, q[..|q| - 1])
    ensures Find(t2, q) == if q == path then Some(ino) else Find(t, q)
  {
    hide Valid, Find;
    var u, m := q[..|q| - 1], q[|q| - 1];
    var d, n := Find(t, path[..|path| - 1]).value, path[|path| - 1];
    if Find(t, u) == Some(d) && m == n {
      DirPathUnique(t, path[..|path| - 1], u);
      assert q == u + [m] && path == path[..|path| - 1] + [n];
      FindBinds(t2, q, ino);
    } else {
      if Find(t2, q).Some? { FindBinds(t2, q, Find(t2, q).value); FindBinds(t, q, Find(t2, q).value); }
      if Find(t, q).Some? { FindBinds(t, q, Find(t, q).value); FindBinds(t2, q, Find(t, q).value); }
    }
  }

  /** A name bound to what it led to changes no path. */
  lemma {:induction false} FoundSame(t: Table, t2: Table, path: seq<Name>, ino: nat, q: seq<Name>)
    requires OnlyNameMoved(t, t2, path, ino) && Find(t, path) == Some(ino)
    ensures Find(t2, q) == Find(t, q)
    decreases |q|
  {
    SameBinds(t, t2, path, ino);
    hide OnlyNameMoved, Find, Binds;
    FindNone(t, q);
    FindNone(t2, q);
    if q == [] { assert q[..0] == []; } else {
      FoundSame(t, t2, path, ino, q[..|q| - 1]);
      if Find(t2, q).Some? { FindBinds(t2, q, Find(t2, q).value); FindBinds(t, q, Find(t2, q).value); }
      if Find(t, q).Some? { FindBinds(t, q, Find(t, q).value); FindBinds(t2, q, Find(t, q).value); }
    }
  }

  lemma SameBinds(t: Table, t2: Table, path: seq<Name>, ino: nat)
    requires OnlyNameMoved(t, t2, path, ino) && Find(t, path) == Some(ino)
    ensures forall i: nat, m, c: nat :: Binds(t, i, m, c) <==> Binds(t2, i, m, c)
  {
    if path != [] {
      FindBinds(t, path, ino);
      hide Find;
    }
  }

  /** The leading directories of the path up to `m` names are there, and nothing else is new. */
  ghost predicate Grown(t: Table, t2: Table, path: seq<Name>, m: nat) {
    && SameKinds(t, t2) && SameExtents(t, t2, 0)
    && (forall q :: Find(t, q).Some? ==> Find(t2, q) == Find(t, q))
    && (forall q :: Find(t2, q).Some? <==> Find(t, q).Some? || (q <= path && |q| <= m))
    && forall q :: Find(t2, q).Some? && Find(t, q).None? ==> LeadsToDir(t2, q)
  }

  lemma NotGrown(t: Table, path: seq<Name>)
    ensures Grown(t, t, path, 0)
  {
    forall q | q <= path && |q| <= 0 ensures Find(t, q).Some? { assert q == []; }
    hide Find;
  }

  lemma GrownThere(t: Table, t2: Table, path: seq<Name>, k: nat)
    requires Grown(t, t2, path, k) && k < |path| && Find(t2, path[..k + 1]).Some?
    ensures Grown(t, t2, path, k + 1)
  {
    hide Find, LeadsToDir, SameKinds;
    forall q | q <= path && |q| == k + 1 ensures q == path[..k + 1] {}
  }

  lemma GrownMore(t: Table, t2: Table, t3: Table, path: seq<Name>, k: nat, ino: nat)
    requires Grown(t, t2, path, k) && k < |path| && Valid(t2) && SameKinds(t2, t3) && SameExtents(t2, t3, ino)
    requires OnlyNameMoved(t2, t3, path[..k + 1], ino)
    requires Find(t2, path[..k + 1]).None? && CanCreate(t2, path[..k + 1], true) && !Has(t2, ino) && Has(t3, ino)
    requires N(t3, ino).isDir
    ensures Grown(t, t3, path, k + 1) && Find(t3, path[..k + 1]) == Some(ino)
  {
    var p := path[..k + 1];
    hide Find, Valid, OnlyNameMoved;
    FreshHasNoNames(t2, t3, p, ino);
    forall q ensures Find(t3, q) == if q == p then Some(ino) else Find(t2, q) { FoundAfter(t2, t3, p, ino, q); }
    forall q | q <= path && |q| == k + 1 ensures q == p {}
    hide CanCreate;
    GrownOn(t, t2, t3, path, k, ino);
  }

  lemma GrownOn(t: Table, t2: Table, t3: Table, path: seq<Name>, k: nat, ino: nat)
    requires Grown(t, t2, path, k) && k < |path| && SameKinds(t2, t3) && Has(t3, ino) && N(t3, ino).isDir
    requires SameExtents(t2, t3, ino) && !Has(t2, ino)
    requires Find(t2, path[..k + 1]).None?
    requires forall q :: Find(t3, q) == if q == path[..k + 1] then Some(ino) else Find(t2, q)
    requires forall q :: q <= path && |q| == k + 1 ==> q == path[..k + 1]
    ensures Grown(t, t3, path, k + 1)
  {
    hide Find;
    KindsOn(t, t2, t3);
    forall q | Find(t3, q).Some? && Find(t, q).None?
      ensures LeadsToDir(t3, q)
    {
      if q != path[..k + 1] { assert LeadsToDir(t2, q); }
    }
  }

  lemma {:induction false} FoundEarlier(t: Table, path: seq<Name>, k: nat)
    requires k <= |path| && Find(t, path).Some?
    ensures Find(t, path[..k]).Some?
  {
    if k == |path| { assert path[..k] == path; } else {
      FoundEarlier(t, path[..|path| - 1], k);
      assert path[..|path| - 1][..k] == path[..k];
    }
  }

  /** Cleaning an already clean path changes nothing. */
  lemma {:induction false} CleanAgain(path: seq<Name>)
    requires forall k :: 0 <= k < |path| ==> Plain(path[k])
    ensures Clean(path) == path
  {
    hide Plain;
    if path != [] {
      CleanAgain(path[..|path| - 1]);
      assert path == path[..|path| - 1] + [path[|path| - 1]];
    }
  }

  lemma CleanPrefix(parts: seq<Name>, k: nat)
    requires k <= |Clean(parts)|
    ensures Clean(Clean(parts)[..k]) == Clean(parts)[..k]
  {
    CleanAgain(Clean(parts)[..k]);
  }

  function BindEdit(t: Table, d: nat, existing: Option<nat>, n: Name, c: nat): Table
    requires Has(t, d) && Has(t, c) && (existing.Some? ==> Has(t, existing.value) && N(t, existing.value).links > 0)
  {
    var a := if existing.Some? then WithLinks(t, existing.value, N(t, existing.value).links - 1) else t;
    var b := WithName(a, d, n, c);
    var e := WithLinks(b, c, N(b, c).links + 1);
    if N(e, c).isDir then WithLinks(e, d, N(e, d).links + 1) else e
  }

  lemma BindEditIs(t: Table, d: nat, existing: Option<nat>, n: Name, c: nat)
    requires Has(t, d) && Has(t, c) && (existing.Some? ==> Has(t, existing.value) && N(t, existing.value).links > 0)
    requires c != d && existing != Some(d) && existing != Some(c)
    ensures var t2 := BindEdit(t, d, existing, n, c);
      && Rebound(t, t2, d, n, c)
      && N(t2, c).links == N(t, c).links + 1
      && N(t2, d).links == N(t, d).links + (if N(t, c).isDir then 1 else 0)
      && (existing.Some? ==> N(t2, existing.value).links == N(t, existing.value).links - 1)
      && forall x: nat :: Has(t, x) && x != c && x != d && existing != Some(x) ==> N(t2, x).links == N(t, x).links
  {
  }

  lemma BindDone(was: Table, t: Table, path: seq<Name>, d: nat, existing: Option<nat>, n: Name, ino: nat)
    requires Valid(was) && |was| >= INODE_FIRST - 1 && path != [] && LookedUp(was, path, d, existing, n)
    requires ino == |was| + 1
    requires |t| == |was| + 1 && t == was + [t[|was|]] && Has(t, ino) && N(t, ino).children == map[]
    requires Has(was, d)
    requires N(t, ino).links == (if N(t, ino).isDir then 1 else 0)
    requires (N(t, ino).isDir ==> existing.None? && N(was, d).links < MAX_LINKS)
    requires existing.Some? ==> Has(was, existing.value) && !N(was, existing.value).isDir
    requires existing.Some? ==> N(was, existing.value).links >= 2
    ensures Has(t, d) && (existing.Some? ==> Has(t, existing.value) && N(t, existing.value).links > 0)
    ensures var t2 := BindEdit(t, d, existing, n, ino);
      Valid(t2) && |t2| == |t| && SameNodes(t, t2) && Find(t2, path) == Some(ino) && OnlyNameMoved(was, t2, path, ino)
  {
    hide Refs, Subdirs, Find, BindEdit, Rebound, OnlyNameMoved;
    LookedHas(was, path, d, existing, n);
    DirAtLeastRoot(was, path[..|path| - 1]);
    Appended(was, N(t, ino));
    hide LookedUp, Shaped, Linked;
    SlotsAgree(was, t);
    var t2 := BindEdit(t, d, existing, n, ino);
    BindEditIs(t, d, existing, n, ino);
    ReboundKinds(t, t2, d, n, ino);
    PathMoved(was, t, t2, path, d, n, ino);
    if existing.Some? {
      AllButFresh(was, t);
      ReplacedValid(t, t2, d, n, existing.value, ino);
    } else {
      NewEntryValid(was, t2, d, n, N(t, ino));
    }
  }

  lemma SlotsAgree(was: Table, t: Table)
    requires |t| == |was| + 1 && t == was + [t[|was|]]
    ensures forall x: nat :: x != |t| ==> (Has(was, x) <==> Has(t, x)) && (Has(was, x) ==> N(t, x) == N(was, x))
  {
    forall x: nat | x != |t| ensures (Has(was, x) <==> Has(t, x)) && (Has(was, x) ==> N(t, x) == N(was, x)) {
      if 1 <= x <= |was| { assert t[x - 1] == was[x - 1]; }
    }
  }

  lemma ReboundKinds(t: Table, t2: Table, d: nat, n: Name, c: nat)
    requires Rebound(t, t2, d, n, c)
    ensures |t2| == |t| && SameNodes(t, t2)
  {
  }

  function LinkEdit(t: Table, d: nat, existing: Option<nat>, n: Name, c: nat): Table
    requires Has(t, d) && Has(t, c) && (existing.Some? ==> Has(t, existing.value) && N(t, existing.value).links > 0)
  {
    var a := if existing.Some? then WithLinks(t, existing.value, N(t, existing.value).links - 1) else t;
    WithName(WithLinks(a, c, N(a, c).links + 1), d, n, c)
  }

  lemma LinkDone(t: Table, path: seq<Name>, d: nat, existing: Option<nat>, n: Name, c: nat)
    requires Valid(t) && |t| >= INODE_FIRST - 1 && LookedUp(t, path, d, existing, n) && Has(t, c)
    requires !N(t, c).isDir && Has(t, d)
    requires existing.Some? ==> Has(t, existing.value) && !N(t, existing.value).isDir && N(t, existing.value).links >= 2
    requires existing != Some(c) ==> N(t, c).links < MAX_LINKS
    ensures var t2 := LinkEdit(t, d, existing, n, c);
      Valid(t2) && |t2| == |t| && SameNodes(t, t2) && Find(t2, path) == Some(c) && OnlyNameMoved(t, t2, path, c)
  {
    var t2 := LinkEdit(t, d, existing, n, c);
    hide Linked, Shaped, Find, LinkEdit, Rebound, OnlyNameMoved;
    LookedHas(t, path, d, existing, n);
    LinkEditIs(t, d, existing, n, c);
    assert path != [];
    LinkMoves(t, t2, path, d, n, c);
    ReboundKinds(t, t2, d, n, c);
    hide LookedUp;
    if existing == Some(c) {
      SameNames(t, t2, d, n, c);
      SameTree(t, t2);
    } else if existing.Some? {
      LinkedNow(t, c);
      ReplacedValid(t, t2, d, n, existing.value, c);
    } else {
      LinkedValid(t, t2, d, n, c);
    }
  }

  lemma SameNames(t: Table, t2: Table, d: nat, n: Name, c: nat)
    requires Rebound(t, t2, d, n, c) && Binds(t, d, n, c)
    ensures |t2| == |t| && (forall x: nat :: Has(t2, x) <==> Has(t, x))
    ensures forall x: nat :: Has(t, x) ==> N(t2, x).isDir == N(t, x).isDir && N(t2, x).children == N(t, x).children
  {
    assert N(t, d).children[n := c] == N(t, d).children;
  }

  lemma LinkEditIs(t: Table, d: nat, existing: Option<nat>, n: Name, c: nat)
    requires Has(t, d) && Has(t, c) && (existing.Some? ==> Has(t, existing.value) && N(t, existing.value).links > 0)
    requires c != d && existing != Some(d)
    ensures var t2 := LinkEdit(t, d, existing, n, c);
      && Rebound(t, t2, d, n, c)
      && N(t2, c).links == N(t, c).links + (if existing == Some(c) then 0 else 1)
      && (existing.Some? && existing != Some(c) ==> N(t2, existing.value).links == N(t, existing.value).links - 1)
      && forall x: nat :: Has(t, x) && x != c && existing != Some(x) ==> N(t2, x).links == N(t, x).links
  {
  }

  lemma LinkedNow(t: Table, c: nat)
    requires Linked(t) && Has(t, c) && !N(t, c).isDir
    ensures N(t, c).links == |Refs(t, c)| && forall x: nat :: Has(t, x) ==> LinkedAt(t, x)
  {
    assert LinkedAt(t, c);
  }

  lemma LinkMoves(t: Table, t2: Table, path: seq<Name>, d: nat, n: Name, c: nat)
    requires Shaped(t) && path != [] && Find(t, path[..|path| - 1]) == Some(d) && n == path[|path| - 1]
    requires Has(t, d) && N(t, d).isDir
    requires Rebound(t, t2, d, n, c)
    ensures d >= INODE_ROOT && Find(t2, path) == Some(c) && OnlyNameMoved(t, t2, path, c)
  {
    var up := path[..|path| - 1];
    DirAtLeastRoot(t, up);
    StillFound(t, t2, d, n, c, up);
  }

  // ---- the tree as a whole ----

  /** No inode is orphaned: some path leads to every one. */
  lemma {:induction false} Reachable(t: Table, ino: nat) returns (path: seq<Name>)
    requires Valid(t) && Has(t, ino)
    ensures Find(t, path) == Some(ino)
    decreases if N(t, ino).isDir then ino else |t| + 1
  {
    if ino == INODE_ROOT { return []; }
    assert LinkedAt(t, ino);
    assert |Refs(t, ino)| > 0;
    var p :| p in Refs(t, ino);
    assert Binds(t, p.0, p.1, ino);
    var up := Reachable(t, p.0);
    path := up + [p.1];
    assert path[..|path| - 1] == up;
  }

  predicate IsDir(t: Table, i: nat) { Has(t, i) && N(t, i).isDir }

  ghost function Parent(t: Table, c: nat): (d: nat)
    requires Valid(t) && IsDir(t, c) && c != INODE_ROOT
    ensures IsDir(t, d) && d < c
  {
    assert LinkedAt(t, c);
    assert Refs(t, c) != {};
    var p :| p in Refs(t, c);
    assert Binds(t, p.0, p.1, c);
    p.0
  }

  /** A directory is in one place only. */
  lemma ParentIs(t: Table, c: nat, d: nat, n: Name)
    requires Valid(t) && IsDir(t, c) && Binds(t, d, n, c)
    ensures c != INODE_ROOT && Parent(t, c) == d
    ensures forall m :: Binds(t, d, m, c) ==> m == n
  {
    assert LinkedAt(t, c);
    RefsHas(t, c, d, n);
    var r := Refs(t, c);
    assert c != INODE_ROOT;
    Single(r, (d, n));
    forall m | Binds(t, d, m, c) ensures m == n { RefsHas(t, c, d, m); }
  }

  lemma Single<T>(r: set<T>, x: T)
    requires x in r && |r| == 1
    ensures r == {x}
  {
    assert |r - {x}| == 0;
  }

  lemma ParentHas(t: Table, c: nat) returns (n: Name)
    requires Valid(t) && IsDir(t, c) && c != INODE_ROOT
    ensures Binds(t, Parent(t, c), n, c)
  {
    assert LinkedAt(t, c);
    assert Refs(t, c) != {};
    var p :| p in Refs(t, c);
    assert Binds(t, p.0, p.1, c);
    ParentIs(t, c, p.0, p.1);
    n := p.1;
  }

  /** `x` is `a` or lies below it. */
  ghost predicate Descends(t: Table, a: nat, x: nat)
    requires Valid(t) && IsDir(t, x)
  {
    x == a || (x != INODE_ROOT && Descends(t, a, Parent(t, x)))
  }

  lemma {:induction false} AllFromRoot(t: Table, x: nat)
    requires Valid(t) && IsDir(t, x)
    ensures Descends(t, INODE_ROOT, x)
  {
    if x != INODE_ROOT { AllFromRoot(t, Parent(t, x)); }
  }

  lemma {:induction false} DescendsUp(t: Table, a: nat, x: nat)
    requires Valid(t) && IsDir(t, x) && Descends(t, a, x)
    ensures a <= x && IsDir(t, a)
  {
    if x != a { DescendsUp(t, a, Parent(t, x)); }
  }

  lemma {:induction false} DescendsChain(t: Table, a: nat, b: nat, x: nat)
    requires Valid(t) && IsDir(t, x) && IsDir(t, a) && IsDir(t, b) && Descends(t, a, x) && Descends(t, b, x)
    ensures Descends(t, a, b) || Descends(t, b, a)
    decreases x
  {
    if x != a && x != b { DescendsChain(t, a, b, Parent(t, x)); }
  }

  /** Subtrees of two children of the same directory share nothing. */
  lemma SubtreesApart(t: Table, d: nat, a: nat, b: nat, x: nat)
    requires Valid(t) && IsDir(t, x) && IsDir(t, a) && IsDir(t, b) && a != INODE_ROOT && b != INODE_ROOT
    requires Parent(t, a) == d && Parent(t, b) == d && Descends(t, a, x) && Descends(t, b, x)
    ensures a == b
  {
    DescendsChain(t, a, b, x);
    hide Valid;
    if a != b && Descends(t, a, b) { DescendsUp(t, a, d); assert false; }
    if a != b && Descends(t, b, a) { DescendsUp(t, b, d); assert false; }
  }

  lemma {:induction false} DescendsVia(t: Table, a: nat, x: nat) returns (c: nat)
    requires Valid(t) && IsDir(t, x) && Descends(t, a, x) && x != a
    ensures IsDir(t, c) && c != INODE_ROOT && Parent(t, c) == a && Descends(t, c, x)
    decreases x
  {
    if Parent(t, x) == a { c := x; } else { c := DescendsVia(t, a, Parent(t, x)); }
  }

  lemma {:induction false} DescendsDown(t: Table, c: nat, x: nat)
    requires Valid(t) && IsDir(t, x) && IsDir(t, c) && c != INODE_ROOT && Descends(t, c, x)
    ensures Descends(t, Parent(t, c), x)
    decreases x
  {
    if x != c { DescendsDown(t, c, Parent(t, x)); }
  }

  // ---- writing the directories out ----

  ghost predicate Increasing(s: seq<nat>) { forall i, j :: 0 <= i < j < |s| ==> s[i] < s[j] }
  ghost predicate NoRepeats(s: seq<nat>) { forall i, j :: 0 <= i < j < |s| ==> s[i] != s[j] }

  method InsertSorted(s: seq<nat>, x: nat) returns (r: seq<nat>)
    requires Increasing(s) && x !in s
    ensures Increasing(r) && forall y :: y in r <==> y in s || y == x
  {
    var i := 0;
    while i < |s| && s[i] < x
      invariant 0 <= i <= |s| && forall k :: 0 <= k < i ==> s[k] < x
    {
      i := i + 1;
    }
    r := s[..i] + [x] + s[i..];
    assert s == s[..i] + s[i..];
    InsertIncreases(s, i, x);
  }

  lemma InsertIncreases(s: seq<nat>, i: nat, x: nat)
    requires Increasing(s) && x !in s && i <= |s| && (forall k :: 0 <= k < i ==> s[k] < x) && (i < |s| ==> s[i] >= x)
    ensures Increasing(s[..i] + [x] + s[i..])
  {
    var r := s[..i] + [x] + s[i..];
    assert i < |s| ==> s[i] in s;
    assert forall k :: 0 <= k < |r| ==> r[k] == if k < i then s[k] else if k == i then x else s[k - 1];
  }

  /** The directories among the children, in inode order. */
  method ChildDirs(t: Table, d: nat) returns (r: seq<nat>)
    requires Valid(t) && IsDir(t, d)
    ensures Increasing(r)
    ensures forall c: nat :: c in r <==> IsDir(t, c) && c != INODE_ROOT && Parent(t, c) == d
  {
    hide Linked, Shaped, Refs, Parent;
    r := [];
    var children := N(t, d).children;
    var names := children.Keys;
    while names != {}
      invariant names <= children.Keys && Increasing(r)
      invariant forall c: nat :: c in r <==> IsDir(t, c) && exists n :: n in children && n !in names && children[n] == c
      decreases |names|
    {
      var n :| n in names;
      names := names - {n};
      var c := children[n];
      if IsDir(t, c) {
        ParentIs(t, c, d, n);
        forall m | m in children && children[m] == c ensures m == n { assert Binds(t, d, m, c); }
        r := InsertSorted(r, c);
      }
    }
    forall c: nat ensures c in r <==> IsDir(t, c) && c != INODE_ROOT && Parent(t, c) == d { ChildOf(t, d, c); }
  }

  lemma ChildOf(t: Table, d: nat, c: nat)
    requires Valid(t) && IsDir(t, d)
    ensures (IsDir(t, c) && exists n :: n in N(t, d).children && N(t, d).children[n] == c)
            <==> (IsDir(t, c) && c != INODE_ROOT && Parent(t, c) == d)
  {
    if IsDir(t, c) && exists n :: n in N(t, d).children && N(t, d).children[n] == c {
      var n :| n in N(t, d).children && N(t, d).children[n] == c;
      ParentIs(t, c, d, n);
    }
    if IsDir(t, c) && c != INODE_ROOT && Parent(t, c) == d { var n := ParentHas(t, c); }
  }

  ghost predicate Under(t: Table, kids: seq<nat>, j: nat, x: nat)
    requires Valid(t) && j <= |kids|
  {
    IsDir(t, x) && exists k :: 0 <= k < j && Descends(t, kids[k], x)
  }

  /** write_directory_recursive: it ends, and writes every directory below `d` once, each
      with the directory that holds it as its parent. */
  method WriteDirectoryRecursive(t: Table, d: nat, parent: nat) returns (order: seq<nat>, parents: seq<nat>)
    requires Valid(t) && IsDir(t, d)
    ensures NoRepeats(order) && forall x :: x in order <==> IsDir(t, x) && Descends(t, d, x)
    ensures ParentsOf(t, d, parent, order, parents)
    decreases |t| - d
  {
    hide Valid, Parent, Descends, ParentsOf;
    var kids := ChildDirs(t, d);
    order, parents := [d], [parent];
    OneParent(t, d, parent);
    for j := 0 to |kids|
      invariant NoRepeats(order) && forall x :: x in order <==> x == d || Under(t, kids, j, x)
      invariant ParentsOf(t, d, parent, order, parents)
    {
      assert kids[j] in kids;
      ParentBelow(t, kids[j]);
      var more, ups := WriteDirectoryRecursive(t, kids[j], d);
      forall x | x in more ensures x !in order { NotYet(t, d, kids, j, x); }
      JoinNoRepeats(order, more);
      JoinParents(t, d, parent, order, parents, kids[j], more, ups);
      order, parents := order + more, parents + ups;
      forall x ensures x in order <==> x == d || Under(t, kids, j + 1, x) { UnderNext(t, kids, j, x); }
    }
    forall x ensures x in order <==> IsDir(t, x) && Descends(t, d, x) { UnderAll(t, d, kids, x); }
  }

  /** The parent of the first is given, that of the others is what holds them. */
  ghost predicate ParentsOf(t: Table, d: nat, parent: nat, order: seq<nat>, parents: seq<nat>)
    requires Valid(t)
  {
    && |parents| == |order| > 0 && order[0] == d && parents[0] == parent
    && forall i :: 0 < i < |order| ==> IsDir(t, order[i]) && order[i] != INODE_ROOT && parents[i] == Parent(t, order[i])
  }

  lemma OneParent(t: Table, d: nat, parent: nat)
    requires Valid(t)
    ensures ParentsOf(t, d, parent, [d], [parent])
  {
  }

  lemma JoinParents(t: Table, d: nat, parent: nat, a: seq<nat>, p: seq<nat>, c: nat, b: seq<nat>, q: seq<nat>)
    requires Valid(t) && ParentsOf(t, d, parent, a, p) && ParentsOf(t, c, d, b, q)
    requires IsDir(t, c) && c != INODE_ROOT && Parent(t, c) == d
    ensures ParentsOf(t, d, parent, a + b, p + q)
  {
    hide Valid, Parent;
  }

  lemma ParentBelow(t: Table, c: nat)
    requires Valid(t) && IsDir(t, c) && c != INODE_ROOT
    ensures Parent(t, c) < c <= |t|
  {
  }

  lemma JoinNoRepeats(a: seq<nat>, b: seq<nat>)
    requires NoRepeats(a) && NoRepeats(b) && forall x :: x in b ==> x !in a
    ensures NoRepeats(a + b)
  {
    var s := a + b;
    forall i, j | 0 <= i < j < |s| ensures s[i] != s[j] {
      if i < |a| <= j { assert s[i] == a[i] && s[j] == b[j - |a|]; assert b[j - |a|] in b; }
    }
  }

  lemma NotYet(t: Table, d: nat, kids: seq<nat>, j: nat, x: nat)
    requires Valid(t) && IsDir(t, d) && j < |kids| && Increasing(kids) && IsDir(t, x) && Descends(t, kids[j], x)
    requires forall c: nat :: c in kids <==> IsDir(t, c) && c != INODE_ROOT && Parent(t, c) == d
    ensures x != d && !Under(t, kids, j, x)
  {
    assert kids[j] in kids;
    hide Valid;
    ParentBelow(t, kids[j]);
    DescendsUp(t, kids[j], x);
    forall k | 0 <= k < j ensures !Descends(t, kids[k], x) {
      assert kids[k] in kids;
      if Descends(t, kids[k], x) { SubtreesApart(t, d, kids[k], kids[j], x); assert false; }
    }
  }

  lemma UnderNext(t: Table, kids: seq<nat>, j: nat, x: nat)
    requires Valid(t) && j < |kids|
    ensures Under(t, kids, j + 1, x) <==> Under(t, kids, j, x) || (IsDir(t, x) && Descends(t, kids[j], x))
  {
    hide Valid, Descends;
  }

  lemma UnderAll(t: Table, d: nat, kids: seq<nat>, x: nat)
    requires Valid(t) && IsDir(t, d)
    requires forall c: nat :: c in kids <==> IsDir(t, c) && c != INODE_ROOT && Parent(t, c) == d
    ensures (x == d || Under(t, kids, |kids|, x)) <==> IsDir(t, x) && Descends(t, d, x)
  {
    hide Valid, Parent;
    if Under(t, kids, |kids|, x) {
      var k :| 0 <= k < |kids| && Descends(t, kids[k], x);
      assert kids[k] in kids;
      DescendsDown(t, kids[k], x);
    }
    if IsDir(t, x) && Descends(t, d, x) && x != d {
      var c := DescendsVia(t, d, x);
      assert c in kids;
    }
  }

  /** From the root, whose parent is itself: every directory of the table exactly once. */
  method WriteAllDirectories(t: Table) returns (order: seq<nat>, parents: seq<nat>)
    requires Valid(t)
    ensures NoRepeats(order) && forall x :: x in order <==> IsDir(t, x)
    ensures ParentsOf(t, INODE_ROOT, INODE_ROOT, order, parents)
  {
    hide ParentsOf;
    order, parents := WriteDirectoryRecursive(t, INODE_ROOT, INODE_ROOT);
    forall x | IsDir(t, x) ensures Descends(t, INODE_ROOT, x) { AllFromRoot(t, x); }
  }
}
