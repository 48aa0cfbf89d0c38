/** From the builder to the image and back: the maps of the tree are read in name order,
    the image is serialized, and a reader that walks it by names finds the builder's tree. */
module ErofsClose {
  import opened Bytes
  import opened ErofsTree
  import opened ErofsImage
  import opened ErofsSerialize
  import ErofsDir
  import ErofsXattr
  import B = ErofsBuilder

  // ---- name order ----

  ghost predicate Ordered(ks: seq<seq<byte>>) { forall i, j :: 0 <= i < j < |ks| ==> Less(ks[i], ks[j]) }

  method Least(s: set<seq<byte>>) returns (k: seq<byte>)
    requires s != {}
    ensures k in s && forall x :: x in s ==> x == k || Less(k, x)
  {
    hide Less;
    k :| k in s;
    var rest := s - {k};
    while rest != {}
      invariant rest <= s && k in s && forall x :: x in s && x !in rest ==> x == k || Less(k, x)
    {
      var y :| y in rest;
      LessTotal(k, y);
      if Less(y, k) {
        forall x | x in s && x !in rest ensures x == y || Less(y, x) { if x != k { LessTrans(y, k, x); } }
        k := y;
      }
      rest := rest - {y};
    }
  }

  /** How a BTreeMap is read: each key once, in order. */
  method InOrder(keys: set<seq<byte>>) returns (ks: seq<seq<byte>>)
    ensures Ordered(ks) && forall k :: k in ks <==> k in keys
  {
    hide Less;
    ks := [];
    var rest := keys;
    while rest != {}
      invariant rest <= keys && Ordered(ks) && forall k :: k in keys <==> k in ks || k in rest
      invariant forall i, x :: 0 <= i < |ks| && x in rest ==> Less(ks[i], x)
    {
      var k := Least(rest);
      ks := ks + [k];
      rest := rest - {k};
    }
  }

  // ---- the finished tree ----

  ghost predicate ChildrenListed(m: map<seq<byte>, nat>, cs: seq<Child>) {
    && (forall i, j :: 0 <= i < j < |cs| ==> Less(cs[i].name, cs[j].name))
    && (forall j :: 0 <= j < |cs| ==> cs[j].name in m && m[cs[j].name] == cs[j].idx)
    && forall k :: k in m ==> exists j :: 0 <= j < |cs| && cs[j].name == k
  }

  ghost predicate AttrsListed(m: B.Attrs, ps: seq<ErofsXattr.Pair>) {
    && (forall i, j :: 0 <= i < j < |ps| ==> Less(ps[i].name, ps[j].name))
    && (forall j :: 0 <= j < |ps| ==> ps[j].name in m && m[ps[j].name] == ps[j].value)
    && forall k :: k in m ==> exists j :: 0 <= j < |ps| && ps[j].name == k
  }

  /** A finished node stands for its draft: same bytes and metadata, every child and every
      attribute once, in name order. */
  ghost predicate Finishes(d: B.Draft, spool: seq<byte>, n: Node) {
    && n.kind == d.kind && n.mode == d.mode && n.uid == d.uid && n.gid == d.gid && n.rdev == d.rdev
    && n.data == B.BytesOf(d, spool) && ChildrenListed(d.children, n.children)
    && exists ps :: AttrsListed(d.xattrs, ps) && n.xattrs == ErofsXattr.Area(ps)
  }

  ghost predicate AllFinish(drafts: seq<B.Draft>, spool: seq<byte>, nodes: seq<Node>) {
    |nodes| == |drafts| && forall i :: 0 <= i < |nodes| ==> Finishes(drafts[i], spool, nodes[i])
  }

  method FinishNode(d: B.Draft, spool: seq<byte>) returns (n: Node)
    ensures Finishes(d, spool, n)
  {
    var ks := InOrder(d.children.Keys);
    var cs := seq(|ks|, j requires 0 <= j < |ks| => Child(ks[j], if ks[j] in d.children then d.children[ks[j]] else 0));
    ListedOnce(ks, d.children, cs);
    var xs := InOrder(d.xattrs.Keys);
    var ps := seq(|xs|, j requires 0 <= j < |xs| =>
      ErofsXattr.Pair(xs[j], if xs[j] in d.xattrs then d.xattrs[xs[j]] else []));
    AttrsOnce(xs, d.xattrs, ps);
    var area := ErofsXattr.EncodeXattrs(ps);
    hide ChildrenListed, AttrsListed, ErofsXattr.Area;
    n := Node(d.kind, d.mode, d.uid, d.gid, d.rdev, area, B.BytesOf(d, spool), cs);
  }

  lemma ListedOnce(ks: seq<seq<byte>>, m: map<seq<byte>, nat>, cs: seq<Child>)
    requires Ordered(ks) && (forall k :: k in ks <==> k in m) && |cs| == |ks|
    requires forall j :: 0 <= j < |ks| ==> cs[j].name == ks[j] && (ks[j] in m ==> cs[j].idx == m[ks[j]])
    ensures ChildrenListed(m, cs)
  {
    hide Less;
    forall k | k in m
      ensures exists j :: 0 <= j < |cs| && cs[j].name == k
    {
      var j :| 0 <= j < |ks| && ks[j] == k;
      assert cs[j].name == k;
    }
    forall j | 0 <= j < |cs| ensures cs[j].name in m { assert ks[j] in ks; }
  }

  lemma AttrsOnce(ks: seq<seq<byte>>, m: B.Attrs, ps: seq<ErofsXattr.Pair>)
    requires Ordered(ks) && (forall k :: k in ks <==> k in m) && |ps| == |ks|
    requires forall j :: 0 <= j < |ks| ==> ps[j].name == ks[j] && (ks[j] in m ==> ps[j].value == m[ks[j]])
    ensures AttrsListed(m, ps)
  {
    hide Less;
    forall k | k in m
      ensures exists j :: 0 <= j < |ps| && ps[j].name == k
    {
      var j :| 0 <= j < |ks| && ks[j] == k;
      assert ps[j].name == k;
    }
    forall j | 0 <= j < |ps| ensures ps[j].name in m { assert ks[j] in ks; }
  }

  /** Names and attributes that the format can hold. */
  ghost predicate Formattable(drafts: seq<B.Draft>) {
    && |drafts| < MAX_NODES
    && (forall i, c :: 0 <= i < |drafts| && c in drafts[i].children ==> NameOk(c))
    && forall i, ps :: 0 <= i < |drafts| && AttrsListed(drafts[i].xattrs, ps) ==> |ErofsXattr.Area(ps)| <= BLOCK - ISLOT
  }

  /** Any run of the builder leaves a tree that serialize accepts, if the format can hold its
      names and attributes. */
  lemma TreeFrom(drafts: seq<B.Draft>, spool: seq<byte>, nodes: seq<Node>)
    requires |drafts| > 0 && (forall i :: 0 <= i < |drafts| ==> B.DraftOk(drafts[i], |drafts|, |spool|))
    requires AllFinish(drafts, spool, nodes) && Formattable(drafts)
    ensures TreeOk(nodes)
  {
    hide NameOk, ErofsXattr.Area, AttrsListed, Typed, AreaSize, Less;
    forall i | 0 <= i < |nodes|
      ensures NodeOk(nodes[i]) && forall j :: 0 <= j < |nodes[i].children| ==> nodes[i].children[j].idx < |nodes|
    {
      assert Finishes(drafts[i], spool, nodes[i]) && B.DraftOk(drafts[i], |nodes|, |spool|);
      var ps :| AttrsListed(drafts[i].xattrs, ps) && nodes[i].xattrs == ErofsXattr.Area(ps);
      AreaShape(ps);
    }
  }

  lemma AreaShape(ps: seq<ErofsXattr.Pair>)
    ensures |ErofsXattr.Area(ps)| <= BLOCK - ISLOT ==> AreaSize(|ErofsXattr.Area(ps)|)
  {
    hide ErofsXattr.Flat;
    assert |ErofsXattr.Flat(ps)| % 4 == 0;
  }

  lemma {:induction false} NamedIn(m: map<seq<byte>, nat>, cs: seq<Child>, name: seq<byte>)
    requires ChildrenListed(m, cs)
    ensures Named(cs, name) == if name in m then Some(m[name]) else None
  {
  }

  /** A path leads to the same node before and after. */
  lemma {:induction false} FollowIsLead(drafts: seq<B.Draft>, spool: seq<byte>, nodes: seq<Node>, comps: seq<seq<byte>>)
    requires AllFinish(drafts, spool, nodes)
    ensures Follow(nodes, comps) == B.Lead(drafts, comps)
  {
    if comps != [] {
      FollowIsLead(drafts, spool, nodes, comps[..|comps| - 1]);
      var d, c := Follow(nodes, comps[..|comps| - 1]), comps[|comps| - 1];
      hide ChildrenListed, AttrsListed, ErofsXattr.Area, Named;
      if d.Some? && d.value < |nodes| && !B.Skipped(c) {
        assert Finishes(drafts[d.value], spool, nodes[d.value]);
        NamedIn(drafts[d.value].children, nodes[d.value].children, c);
      }
    }
  }

  // ---- reading the image by names ----

  function LookUp(es: seq<ErofsDir.Ent>, name: seq<byte>): Option<nat> {
    if es == [] then None else if es[0].name == name then Some(es[0].nid) else LookUp(es[1..], name)
  }

  /** The nid a path leads to from the root's, by the types and directories on disk. */
  function ImageLead(img: seq<byte>, root: nat, comps: seq<seq<byte>>): Option<nat> {
    if comps == [] then Some(root) else
    var d, c := ImageLead(img, root, comps[..|comps| - 1]), comps[|comps| - 1];
    if d.None? || B.Skipped(c) then d
    else if MetaAt(img, d.value).mode / 0x1000 != 4 then None
    else LookUp(ErofsDir.DecodeDir(Decode(img, d.value)), c)
  }

  /** Where a path leads in the builder's tree, through directories only. */
  function Walked(drafts: seq<B.Draft>, comps: seq<seq<byte>>): Option<nat> {
    if comps == [] then Some(0) else
    var d, c := Walked(drafts, comps[..|comps| - 1]), comps[|comps| - 1];
    if d.None? || B.Skipped(c) then d
    else if d.value >= |drafts| || drafts[d.value].kind != Directory then None
    else if c in drafts[d.value].children then Some(drafts[d.value].children[c]) else None
  }

  /** That is where it leads at all, unless something on the way is not a directory. */
  lemma {:induction false} WalkedIsLead(drafts: seq<B.Draft>, comps: seq<seq<byte>>)
    requires |drafts| > 0 && forall i, c :: 0 <= i < |drafts| && c in drafts[i].children ==>
      drafts[i].children[c] < |drafts|
    ensures Walked(drafts, comps).Some? ==> Walked(drafts, comps) == B.Lead(drafts, comps)
    ensures drafts[0].kind == Directory && (comps == [] || !B.Obstructed(drafts, comps, |comps| - 1)) ==>
      Walked(drafts, comps) == B.Lead(drafts, comps)
  {
    B.LeadInRange(drafts, comps);
    if comps != [] {
      var n := |comps| - 1;
      var front, d := comps[..n], B.Lead(drafts, comps[..n]);
      WalkedIsLead(drafts, front);
      B.LeadInRange(drafts, front);
      if drafts[0].kind == Directory && !B.Obstructed(drafts, comps, n) {
        if n > 0 {
          hide B.LeadsToFile;
          assert forall k :: 0 < k <= n - 1 ==> front[..k] == comps[..k] && front[k - 1] == comps[k - 1];
        }
        if d.Some? { DirectoryThere(drafts, comps, n); }
      }
    }
  }

  /** What an unobstructed path leads to is a directory. */
  lemma {:induction false} DirectoryThere(drafts: seq<B.Draft>, comps: seq<seq<byte>>, k: nat)
    requires k <= |comps| && |drafts| > 0 && drafts[0].kind == Directory && !B.Obstructed(drafts, comps, k)
    requires B.Lead(drafts, comps[..k]).Some? && B.Lead(drafts, comps[..k]).value < |drafts|
    ensures drafts[B.Lead(drafts, comps[..k]).value].kind == Directory
  {
    if k > 0 {
      assert comps[..k][..k - 1] == comps[..k - 1];
      if B.Skipped(comps[k - 1]) { DirectoryThere(drafts, comps, k - 1); }
      else { assert !B.LeadsToFile(drafts, comps[..k]); }
    }
  }

  ghost function NidOf(l: Layout, r: Option<nat>): Option<nat> {
    if r.None? || r.value >= |l.nid| then None else Some(l.nid[r.value])
  }

  lemma {:induction false} LookUpLater(es: seq<ErofsDir.Ent>, k: nat, name: seq<byte>)
    requires k <= |es| && forall i :: 0 <= i < k ==> es[i].name != name
    ensures LookUp(es, name) == LookUp(es[k..], name)
  {
    if k > 0 {
      LookUpLater(es[1..], k - 1, name);
      assert es[1..][k - 1..] == es[k..];
    } else {
      assert es[0..] == es;
    }
  }

  /** Looking a child up among directory entries gives its nid. */
  lemma {:induction false} LookUpNamed(cs: seq<Child>, es: seq<ErofsDir.Ent>, nid: seq<nat>, name: seq<byte>)
    requires |es| == |cs| && forall j :: 0 <= j < |cs| ==> cs[j].idx < |nid| && es[j].name == cs[j].name
    requires |es| == |cs| && forall j :: 0 <= j < |cs| ==> es[j].nid == nid[cs[j].idx]
    ensures var r := Named(cs, name);
      LookUp(es, name) == if r.None? || r.value >= |nid| then None else Some(nid[r.value])
  {
    if cs != [] && cs[0].name != name { LookUpNamed(cs[1..], es[1..], nid, name); }
  }

  lemma LookUpEntries(nodes: seq<Node>, x: nat, self: nat, up: nat, nid: seq<nat>, name: seq<byte>)
    requires TreeOk(nodes) && x < |nodes| == |nid| && NidsOk(nid) && self < ErofsDir.U64_LIMIT
    requires up < ErofsDir.U64_LIMIT
    requires name != ErofsDir.DOT && name != ErofsDir.DOTDOT
    ensures var r := Named(nodes[x].children, name);
      LookUp(Entries(nodes, x, self, up, nid), name) == if r.None? || r.value >= |nid| then None else Some(nid[r.value])
  {
    var es, cs := Entries(nodes, x, self, up, nid), nodes[x].children;
    assert es[0].name == ErofsDir.DOT && es[1].name == ErofsDir.DOTDOT;
    LookUpLater(es, 2, name);
    LookUpNamed(cs, es[2..], nid, name);
  }

  /** One step of the walk. */
  lemma StepMatches(drafts: seq<B.Draft>, spool: seq<byte>, nodes: seq<Node>, priority: seq<seq<seq<byte>>>, align: nat,
                    min: nat, img: seq<byte>, l: Layout, end: nat, start: nat, total: nat, prefetch: nat, i: nat,
                    c: seq<byte>)
    requires AllFinish(drafts, spool, nodes) && TreeOk(nodes) && total < U32_LIMIT
    requires Serialized(nodes, priority, align, min, img, l, end, start, total, prefetch)
    requires i < |nodes| && Reach(nodes, 0, i) && l.facts[i].len < U32_LIMIT && !B.Skipped(c) && c != ErofsDir.DOTDOT
    ensures MetaAt(img, l.nid[i]).mode / 0x1000 == 4 <==> drafts[i].kind == Directory
    ensures drafts[i].kind == Directory ==>
      LookUp(ErofsDir.DecodeDir(Decode(img, l.nid[i])), c) ==
        NidOf(l, if c in drafts[i].children then Some(drafts[i].children[c]) else None)
  {
    assert NodeOk(nodes[i]) && Finishes(drafts[i], spool, nodes[i]);
    NamedIn(drafts[i].children, nodes[i].children, c);
    hide Reach, Finishes, TreeOk, NodeOk, Named, Decode, ErofsDir.DecodeDir, LookUp, Serialized, MetaAt, Entries,
         LayoutOk, ChildOf, HeldBelow;
    MetaRead(nodes, priority, align, min, img, l, end, start, total, prefetch, i);
    if drafts[i].kind == Directory {
      DirectoryListed(nodes, priority, align, min, img, l, end, start, total, prefetch, i);
      LayoutHas(nodes, l, end, start, total, i);
      LookUpEntries(nodes, i, l.nid[i], l.nid[l.parent[i]], l.nid, c);
    }
  }

  lemma LayoutHas(nodes: seq<Node>, l: Layout, end: nat, start: nat, total: nat, i: nat)
    requires TreeOk(nodes) && LayoutOk(nodes, l, end, start, total) && i < |nodes|
    ensures |l.nid| == |nodes| && NidsOk(l.nid) && |l.parent| == |nodes| && l.parent[i] < |nodes|
    ensures l.nid[i] < ErofsDir.U64_LIMIT && l.nid[l.parent[i]] < ErofsDir.U64_LIMIT
  {
    hide TreeOk, FactsFor, Slotted, BlocksOk, LinksOf, ParentsBelow;
  }

  /** Walking the image by names finds exactly the builder's tree, whatever was created,
      linked and overridden: same paths, each at its node's nid. A component ".." is the
      builder's own name but the reader's parent, so paths with it are left out. */
  lemma {:induction false} ImageLeads(drafts: seq<B.Draft>, spool: seq<byte>, nodes: seq<Node>,
                                      priority: seq<seq<seq<byte>>>, align: nat, min: nat, img: seq<byte>, l: Layout,
                                      end: nat, start: nat, total: nat, prefetch: nat, comps: seq<seq<byte>>)
    requires AllFinish(drafts, spool, nodes) && TreeOk(nodes) && total < U32_LIMIT
    requires Serialized(nodes, priority, align, min, img, l, end, start, total, prefetch)
    requires (forall x :: 0 <= x < |nodes| ==> l.facts[x].len < U32_LIMIT) && forall k :: 0 <= k < |comps| ==>
      comps[k] != ErofsDir.DOTDOT
    ensures ImageLead(img, l.nid[0], comps) == NidOf(l, Walked(drafts, comps))
    ensures Walked(drafts, comps).Some? ==> Walked(drafts, comps).value < |nodes|
    ensures Walked(drafts, comps).Some? ==> Reach(nodes, 0, Walked(drafts, comps).value)
  {
    hide Reach, Finishes, TreeOk, Decode, ErofsDir.DecodeDir, LookUp, Serialized, MetaAt, LayoutOk;
    WalkedReach(drafts, spool, nodes, comps);
    NidCount(nodes, priority, align, min, img, l, end, start, total, prefetch);
    if comps != [] {
      var n := |comps| - 1;
      var d, c := Walked(drafts, comps[..n]), comps[n];
      ImageLeads(drafts, spool, nodes, priority, align, min, img, l, end, start, total, prefetch, comps[..n]);
      if d.Some? && !B.Skipped(c) {
        StepMatches(drafts, spool, nodes, priority, align, min, img, l, end, start, total, prefetch, d.value, c);
      }
    }
  }

  lemma NidCount(nodes: seq<Node>, priority: seq<seq<seq<byte>>>, align: nat, min: nat, img: seq<byte>, l: Layout,
                 end: nat, start: nat, total: nat, prefetch: nat)
    requires TreeOk(nodes) && Serialized(nodes, priority, align, min, img, l, end, start, total, prefetch)
    ensures |l.nid| == |nodes| > 0
  {
    hide PartIn, PartOf, FactsFor, Slotted, BlocksOk, LinksOf, ParentsBelow, PrefetchOk, GridOk, Mentioned, Reach;
  }

  lemma WalkedReach(drafts: seq<B.Draft>, spool: seq<byte>, nodes: seq<Node>, comps: seq<seq<byte>>)
    requires AllFinish(drafts, spool, nodes) && TreeOk(nodes)
    ensures Walked(drafts, comps).Some? ==> Walked(drafts, comps).value < |nodes|
    ensures Walked(drafts, comps).Some? ==> Reach(nodes, 0, Walked(drafts, comps).value)
  {
    FollowIsLead(drafts, spool, nodes, comps);
    FollowReach(nodes, comps);
    forall i, c | 0 <= i < |drafts| && c in drafts[i].children ensures drafts[i].children[c] < |drafts| {
      assert Finishes(drafts[i], spool, nodes[i]);
      var j :| 0 <= j < |nodes[i].children| && nodes[i].children[j].name == c;
    }
    hide Finishes, Reach;
    WalkedIsLead(drafts, comps);
  }

  /** A component "..", which the builder takes for a name like any other, leads a reader to
      the directory's parent. */
  lemma DotDotIsParent(nodes: seq<Node>, priority: seq<seq<seq<byte>>>, align: nat, min: nat, img: seq<byte>, l: Layout,
                       end: nat, start: nat, total: nat, prefetch: nat, x: nat)
    requires TreeOk(nodes) && total < U32_LIMIT
    requires Serialized(nodes, priority, align, min, img, l, end, start, total, prefetch)
    requires Reach(nodes, 0, x) && x < |nodes| && l.facts[x].len < U32_LIMIT && nodes[x].kind == Directory
    ensures l.parent[x] < |l.nid|
    ensures LookUp(ErofsDir.DecodeDir(Decode(img, l.nid[x])), ErofsDir.DOTDOT) == Some(l.nid[l.parent[x]])
  {
    hide Reach, TreeOk, Decode, ErofsDir.DecodeDir, Serialized, LayoutOk, ChildOf, HeldBelow;
    var k := PlaceOf(nodes, priority, align, min, img, l, end, start, total, prefetch, x);
    DirectoryListed(nodes, priority, align, min, img, l, end, start, total, prefetch, x);
    LayoutHas(nodes, l, end, start, total, x);
    var es := Entries(nodes, x, l.nid[x], l.nid[l.parent[x]], l.nid);
    assert es[0].name == ErofsDir.DOT && es[1].name == ErofsDir.DOTDOT && es[1].nid == l.nid[l.parent[x]];
    LookUpLater(es, 1, ErofsDir.DOTDOT);
  }

  /** And what is found there: a file's bytes, and every node's metadata and attributes. */
  lemma ImageHolds(drafts: seq<B.Draft>, spool: seq<byte>, nodes: seq<Node>, priority: seq<seq<seq<byte>>>, align: nat,
                   min: nat, img: seq<byte>, l: Layout, end: nat, start: nat, total: nat, prefetch: nat, i: nat)
    requires AllFinish(drafts, spool, nodes) && TreeOk(nodes) && total < U32_LIMIT
    requires Serialized(nodes, priority, align, min, img, l, end, start, total, prefetch)
    requires i < |nodes| && Reach(nodes, 0, i) && l.facts[i].len < U32_LIMIT
    ensures drafts[i].kind != Directory ==> Decode(img, l.nid[i]) == B.BytesOf(drafts[i], spool)
    ensures MetaAt(img, l.nid[i]) ==
      Meta(drafts[i].mode, Cut16(LinksOf(nodes, i)), Cut16(drafts[i].uid), Cut16(drafts[i].gid))
    ensures exists ps :: AttrsListed(drafts[i].xattrs, ps)
                         && (ErofsXattr.PairsOk(ps) <==> ErofsXattr.DecodeArea(DecodeArea(img, l.nid[i])) == ps)
  {
    assert Finishes(drafts[i], spool, nodes[i]);
    var ps :| AttrsListed(drafts[i].xattrs, ps) && nodes[i].xattrs == ErofsXattr.Area(ps);
    hide Reach, TreeOk, ErofsXattr.Area, ErofsXattr.DecodeArea, DecodeArea, ErofsXattr.PairsOk, AttrsListed,
         ChildrenListed, Decode, MetaAt, LinksOf, Serialized, LayoutOk, B.BytesOf;
    AttributesRead(nodes, priority, align, min, img, l, end, start, total, prefetch, i, ps);
    MetaRead(nodes, priority, align, min, img, l, end, start, total, prefetch, i);
    FileRead(nodes, priority, align, min, img, l, end, start, total, prefetch, i);
  }

  // ---- close ----

  /** close_with_prefetch, on the builder's nodes as they are. */
  method Close(b: B.Builder, priority: seq<seq<seq<byte>>>, align: nat, min: nat, sb: (nat, nat) -> seq<byte>)
    returns (img: seq<byte>, nodes: seq<Node>, l: Layout, total: nat, prefetch: nat, ghost end: nat, ghost start: nat)
    requires b.Valid() && Formattable(b.nodes) && forall t, r :: |sb(t, r)| == SB_SIZE
    ensures AllFinish(b.nodes, b.spool, nodes) && TreeOk(nodes)
    ensures Serialized(nodes, priority, align / BLOCK, min, img, l, end, start, total, prefetch)
    ensures total < U32_LIMIT ==> ReadAt(img, SUPER_OFFSET, SB_SIZE) == sb(total, l.nid[0])
  {
    hide Finishes, Formattable, Serialized, ReadAt;
    nodes := [];
    for i := 0 to |b.nodes|
      invariant |nodes| == i && forall j :: 0 <= j < i ==> Finishes(b.nodes[j], b.spool, nodes[j])
    {
      var n := FinishNode(b.nodes[i], b.spool);
      nodes := nodes + [n];
    }
    TreeFrom(b.nodes, b.spool, nodes);
    hide TreeOk;
    img, l, total, prefetch, end, start := Serialize(nodes, priority, align, min, sb);
  }
}
