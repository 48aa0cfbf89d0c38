/** serialize (ext4/src/erofs.rs) as a whole: from the tree to an image in which every
    reachable node decodes to its content. */
module ErofsSerialize {
  import opened Arith
  import opened Bytes
  import opened ErofsTree
  import opened ErofsImage
  import ErofsDir
  import ErofsXattr

  const MAX_NODES: nat := U32_LIMIT

  /** What create and link keep true of a tree, with the limits of the format. */
  ghost predicate TreeOk(nodes: seq<Node>) {
    && Linked(nodes) && |nodes| < MAX_NODES
    && forall i :: 0 <= i < |nodes| ==> NodeOk(nodes[i])
  }

  ghost predicate NodeOk(n: Node) {
    && Typed(n.kind, n.mode) && AreaSize(|n.xattrs|) && KindOk(n)
    && forall j :: 0 <= j < |n.children| ==> NameOk(n.children[j].name)
  }

  /** The type bits of the 16-bit mode make a directory exactly of directories. */
  predicate Typed(kind: Kind, mode: nat) { mode < 0x1_0000 && (kind == Directory <==> mode / 0x1000 == 4) }

  ghost predicate NameOk(name: seq<byte>) {
    1 <= |name| <= ErofsDir.MAX_NAME && forall i :: 0 <= i < |name| ==> name[i] != 0
  }

  /** ftype_of, on the type bits of the mode. */
  function Ftype(mode: nat): byte {
    match mode / 0x1000
    case 8 => 1
    case 4 => 2
    case 2 => 3
    case 6 => 4
    case 1 => 5
    case 12 => 6
    case 10 => 7
    case _ => 1
  }

  ghost predicate NidsOk(nid: seq<nat>) { forall i :: 0 <= i < |nid| ==> nid[i] < ErofsDir.U64_LIMIT }

  ghost predicate Parents(nodes: seq<Node>, parent: seq<nat>) {
    |parent| == |nodes| && forall i :: 0 <= i < |parent| ==> parent[i] < |nodes|
  }

  /** A directory's entries: itself, its parent, then its children in order. */
  function Entries(nodes: seq<Node>, idx: nat, self: nat, up: nat, nid: seq<nat>): (es: seq<ErofsDir.Ent>)
    requires TreeOk(nodes) && idx < |nodes| == |nid| && NidsOk(nid) && self < ErofsDir.U64_LIMIT
    requires up < ErofsDir.U64_LIMIT
    ensures ErofsDir.EntsOk(es)
  {
    var cs := nodes[idx].children;
    assert NodeOk(nodes[idx]);
    [ErofsDir.Ent(ErofsDir.DOT, self, FT_DIR), ErofsDir.Ent(ErofsDir.DOTDOT, up, FT_DIR)]
    + seq(|cs|, j requires 0 <= j < |cs| => ErofsDir.Ent(cs[j].name, nid[cs[j].idx], Ftype(nodes[cs[j].idx].mode)))
  }

  /** The logical bytes of a node: an encoded directory, or its file or link data. */
  ghost function Content(nodes: seq<Node>, idx: nat, self: nat, up: nat, nid: seq<nat>): seq<byte>
    requires TreeOk(nodes) && idx < |nodes| == |nid| && NidsOk(nid) && self < ErofsDir.U64_LIMIT
    requires up < ErofsDir.U64_LIMIT
  {
    if nodes[idx].kind == Directory then ErofsDir.Encode(Entries(nodes, idx, self, up, nid)) else nodes[idx].data
  }

  method ContentBytes(nodes: seq<Node>, idx: nat, self: nat, up: nat, nid: seq<nat>) returns (b: seq<byte>)
    requires TreeOk(nodes) && idx < |nodes| == |nid| && NidsOk(nid) && self < ErofsDir.U64_LIMIT
    requires up < ErofsDir.U64_LIMIT
    ensures b == Content(nodes, idx, self, up, nid)
  {
    if nodes[idx].kind == Directory {
      b := ErofsDir.EncodeDir(Entries(nodes, idx, self, up, nid));
    } else {
      b := nodes[idx].data;
    }
  }

  /** The length of a node's content is the same for any nids. */
  lemma ContentLength(nodes: seq<Node>, idx: nat, s1: nat, u1: nat, n1: seq<nat>, s2: nat, u2: nat, n2: seq<nat>)
    requires TreeOk(nodes) && idx < |nodes| == |n1| == |n2| && NidsOk(n1) && NidsOk(n2)
    requires s1 < ErofsDir.U64_LIMIT && u1 < ErofsDir.U64_LIMIT && s2 < ErofsDir.U64_LIMIT && u2 < ErofsDir.U64_LIMIT
    ensures |Content(nodes, idx, s1, u1, n1)| == |Content(nodes, idx, s2, u2, n2)|
  {
    if nodes[idx].kind == Directory {
      ErofsDir.LengthFixed(Entries(nodes, idx, s1, u1, n1), Entries(nodes, idx, s2, u2, n2));
    }
  }

  /** Some node before `a` holds `c`. */
  ghost predicate HeldBelow(nodes: seq<Node>, c: nat, a: nat) { exists b: nat :: b < a && ChildOf(nodes, b, c) }

  /** Of the nodes before `a`: a directory's parent is one that holds it, and is the root if
      none does. */
  ghost predicate ParentsBelow(nodes: seq<Node>, parent: seq<nat>, a: nat) {
    && Parents(nodes, parent)
    && forall c: nat :: c < |nodes| ==>
         if nodes[c].kind == Directory && HeldBelow(nodes, c, a) then ChildOf(nodes, parent[c], c) else parent[c] == 0
  }

  /** The parent map for "..". */
  method ParentMap(nodes: seq<Node>) returns (parent: seq<nat>)
    requires Linked(nodes)
    ensures ParentsBelow(nodes, parent, |nodes|)
  {
    hide ParentsBelow, HeldBelow;
    parent := seq(|nodes|, _ => 0);
    NoParents(nodes, parent);
    for a := 0 to |nodes|
      invariant Parents(nodes, parent) && ParentsBelow(nodes, parent, a)
    {
      ghost var before := parent;
      for j := 0 to |nodes[a].children|
        invariant Parents(nodes, parent)
        invariant forall c :: 0 <= c < |nodes| && parent[c] != before[c] ==>
          nodes[c].kind == Directory && parent[c] == a && ChildOf(nodes, a, c)
        invariant forall k :: 0 <= k < j && nodes[nodes[a].children[k].idx].kind == Directory ==>
          parent[nodes[a].children[k].idx] == a
      {
        var c := nodes[a].children[j].idx;
        if nodes[c].kind == Directory { parent := parent[c := a]; }
        assert ChildOf(nodes, a, c);
      }
      ParentsNext(nodes, before, parent, a);
    }
  }

  lemma NoParents(nodes: seq<Node>, parent: seq<nat>)
    requires |nodes| > 0 && |parent| == |nodes| && forall c :: 0 <= c < |parent| ==> parent[c] == 0
    ensures ParentsBelow(nodes, parent, 0)
  {
  }

  lemma ParentsNext(nodes: seq<Node>, before: seq<nat>, parent: seq<nat>, a: nat)
    requires Linked(nodes) && a < |nodes| && ParentsBelow(nodes, before, a) && Parents(nodes, parent)
    requires forall c :: 0 <= c < |nodes| && parent[c] != before[c] ==>
      nodes[c].kind == Directory && parent[c] == a && ChildOf(nodes, a, c)
    requires forall k :: 0 <= k < |nodes[a].children| && nodes[nodes[a].children[k].idx].kind == Directory ==>
      parent[nodes[a].children[k].idx] == a
    ensures ParentsBelow(nodes, parent, a + 1)
  {
    forall c: nat | c < |nodes|
      ensures if nodes[c].kind == Directory && HeldBelow(nodes, c, a + 1) then ChildOf(nodes, parent[c], c)
        else parent[c] == 0
    {
      assert ChildOf(nodes, a, c) && nodes[c].kind == Directory ==> parent[c] == a;
      hide ChildOf;
      assert HeldBelow(nodes, c, a + 1) <==> HeldBelow(nodes, c, a) || ChildOf(nodes, a, c);
    }
  }

  // ---- link counts ----

  /** Entries of `cs` that name node `x`. */
  function Hits(cs: seq<Child>, x: nat): nat {
    if cs == [] then 0 else Hits(cs[..|cs| - 1], x) + if cs[|cs| - 1].idx == x then 1 else 0
  }

  /** Entries of the first `a` nodes that name `x`. */
  function Refs(nodes: seq<Node>, a: nat, x: nat): nat
    requires a <= |nodes|
  {
    if a == 0 then 0 else Refs(nodes, a - 1, x) + Hits(nodes[a - 1].children, x)
  }

  function Subdirs(nodes: seq<Node>, cs: seq<Child>): nat {
    if cs == [] then 0 else
    var c := cs[|cs| - 1].idx;
    Subdirs(nodes, cs[..|cs| - 1]) + if c < |nodes| && nodes[c].kind == Directory then 1 else 0
  }

  /** 2 and one for each subdirectory, or the number of names. */
  function LinksOf(nodes: seq<Node>, x: nat): nat
    requires x < |nodes|
  {
    if nodes[x].kind == Directory then 2 + Subdirs(nodes, nodes[x].children) else Max(Refs(nodes, |nodes|, x), 1)
  }

  /** The two loops over all entries that count links. */
  method LinkCounts(nodes: seq<Node>) returns (nlink: seq<nat>)
    requires Linked(nodes)
    ensures |nlink| == |nodes| && forall x :: 0 <= x < |nodes| ==> nlink[x] == LinksOf(nodes, x)
  {
    var refs: seq<nat> := seq(|nodes|, _ => 0);
    for a := 0 to |nodes|
      invariant |refs| == |nodes| && forall x :: 0 <= x < |nodes| ==> refs[x] == Refs(nodes, a, x)
    {
      var cs := nodes[a].children;
      assert cs[..|cs|] == cs;
      for j := 0 to |cs|
        invariant |refs| == |nodes| && forall x :: 0 <= x < |nodes| ==> refs[x] == Refs(nodes, a, x) + Hits(cs[..j], x)
      {
        assert cs[..j + 1][..j] == cs[..j];
        refs := refs[cs[j].idx := refs[cs[j].idx] + 1];
      }
    }
    nlink := [];
    for x := 0 to |nodes|
      invariant |nlink| == x && forall y :: 0 <= y < x ==> nlink[y] == LinksOf(nodes, y)
    {
      if nodes[x].kind == Directory {
        var n := CountSubdirs(nodes, nodes[x].children);
        nlink := nlink + [2 + n];
      } else {
        nlink := nlink + [Max(refs[x], 1)];
      }
    }
  }

  method CountSubdirs(nodes: seq<Node>, cs: seq<Child>) returns (n: nat)
    requires forall j :: 0 <= j < |cs| ==> cs[j].idx < |nodes|
    ensures n == Subdirs(nodes, cs)
  {
    n := 0;
    assert cs[..|cs|] == cs;
    for j := 0 to |cs|
      invariant n == Subdirs(nodes, cs[..j])
    {
      assert cs[..j + 1][..j] == cs[..j];
      if nodes[cs[j].idx].kind == Directory { n := n + 1; }
    }
  }

  // ---- facts ----

  ghost predicate FactsFor(nodes: seq<Node>, order: seq<nat>, facts: seq<Fact>)
    requires TreeOk(nodes) && Indexed(order, |nodes|)
  {
    && |facts| == |nodes| && FactsOk(facts)
    && forall k, self: nat, up: nat, nid :: 0 <= k < |order| && |nid| == |nodes| && NidsOk(nid)
                                            && self < ErofsDir.U64_LIMIT && up < ErofsDir.U64_LIMIT ==>
         facts[order[k]] == FactOf(|Content(nodes, order[k], self, up, nid)|, |nodes[order[k]].xattrs|)
  }

  /** layout_facts: computed with placeholder nids, valid for all nids. */
  method LayoutFacts(nodes: seq<Node>, order: seq<nat>, parent: seq<nat>) returns (facts: seq<Fact>)
    requires TreeOk(nodes) && Parents(nodes, parent) && Indexed(order, |nodes|)
    ensures FactsFor(nodes, order, facts)
  {
    hide FactOf, FactOk, ErofsDir.Encode, Content;
    var zero: seq<nat> := seq(|nodes|, _ => 0);
    facts := seq(|nodes|, _ => FactOf(0, 0));
    FactIsOk(0, 0);
    for k := 0 to |order|
      invariant |facts| == |nodes| && FactsOk(facts)
      invariant forall i :: 0 <= i < k ==>
        facts[order[i]] == FactOf(|Content(nodes, order[i], 0, parent[order[i]], zero)|, |nodes[order[i]].xattrs|)
    {
      var idx := order[k];
      assert NodeOk(nodes[idx]);
      var b := ContentBytes(nodes, idx, 0, parent[idx], zero);
      FactIsOk(|b|, |nodes[idx].xattrs|);
      facts := facts[idx := FactOf(|b|, |nodes[idx].xattrs|)];
    }
    forall k, self: nat, up: nat, nid | 0 <= k < |order| && |nid| == |nodes| && NidsOk(nid)
                                        && self < ErofsDir.U64_LIMIT && up < ErofsDir.U64_LIMIT
      ensures facts[order[k]] == FactOf(|Content(nodes, order[k], self, up, nid)|, |nodes[order[k]].xattrs|)
    {
      ContentLength(nodes, order[k], 0, parent[order[k]], zero, self, up, nid);
    }
  }

  // ---- the parts of an image ----

  /** A finished layout. */
  datatype Layout = Layout(order: seq<nat>, facts: seq<Fact>, nid: seq<nat>, blk: seq<nat>, parent: seq<nat>,
                           nlink: seq<nat>)

  ghost predicate LayoutOk(nodes: seq<Node>, l: Layout, end: nat, start: nat, next: nat)
    requires TreeOk(nodes)
  {
    && Parents(nodes, l.parent) && ParentsBelow(nodes, l.parent, |nodes|) && Indexed(l.order, |nodes|)
    && |l.nid| == |l.blk| == |l.nlink| == |l.facts| == |nodes| && NidsOk(l.nid)
    && FactsFor(nodes, l.order, l.facts) && (forall x :: 0 <= x < |nodes| ==> l.nlink[x] == LinksOf(nodes, x))
    && Slotted(l.order, l.facts, l.nid, |l.order|, end) && end <= start * BLOCK
    && BlocksOk(l.order, l.facts, l.blk, |l.order|, start, next)
  }

  ghost function ContentOf(nodes: seq<Node>, l: Layout, idx: nat): seq<byte>
    requires TreeOk(nodes) && Parents(nodes, l.parent) && idx < |nodes| == |l.nid| && NidsOk(l.nid)
  {
    Content(nodes, idx, l.nid[idx], l.nid[l.parent[idx]], l.nid)
  }

  lemma ContentFits(nodes: seq<Node>, l: Layout, end: nat, start: nat, next: nat, k: nat)
    requires TreeOk(nodes) && LayoutOk(nodes, l, end, start, next) && k < |l.order|
    ensures var f := l.facts[l.order[k]];
      FactOk(f) && f.len == |ContentOf(nodes, l, l.order[k])| && f.xlen == |nodes[l.order[k]].xattrs|
    ensures NodeOk(nodes[l.order[k]])
  {
    hide Slotted, BlocksOk, FactOk, FactOf, Content;
    var idx := l.order[k];
    assert NodeOk(nodes[idx]);
    assert l.facts[idx] == FactOf(|Content(nodes, idx, l.nid[idx], l.nid[l.parent[idx]], l.nid)|, |nodes[idx].xattrs|);
    FactIsOk(|ContentOf(nodes, l, idx)|, |nodes[idx].xattrs|);
  }

  /** The writes of the `k`-th node in layout order. */
  ghost function PartOf(nodes: seq<Node>, l: Layout, end: nat, start: nat, next: nat, k: nat): Part
    requires TreeOk(nodes) && LayoutOk(nodes, l, end, start, next) && k < |l.order|
  {
    ContentFits(nodes, l, end, start, next, k);
    var idx := l.order[k];
    var f, c := l.facts[idx], ContentOf(nodes, l, idx);
    Part(Off(l.nid, idx), Slot(nodes[idx], f, InodeBytes(nodes[idx], f, l.nid[idx], l.blk[idx], l.nlink[idx]), c),
         Cut32(l.blk[idx]) * BLOCK, Full(f, c))
  }

  /** Where a node's writes lie: its slot inside its own stretch of the metadata region,
      its data inside its own blocks of the data region, with the address cut to 32 bits. */
  ghost predicate PartAt(p: Part, off: nat, need: nat, base: nat, nfull: nat, end: nat, start: nat, next: nat) {
    && p.off == off && |p.slot| == need && FIRST_INODE <= off && off + need <= end <= start * BLOCK
    && (p.data != [] ==> p.base == Cut32(base) * BLOCK && |p.data| <= nfull * BLOCK)
    && (p.data != [] ==> start <= base && base + nfull <= next && nfull > 0)
  }

  lemma PartPlace(nodes: seq<Node>, l: Layout, end: nat, start: nat, next: nat, k: nat)
    requires TreeOk(nodes) && LayoutOk(nodes, l, end, start, next) && k < |l.order|
    ensures var idx := l.order[k];
      PartAt(PartOf(nodes, l, end, start, next, k), Off(l.nid, idx), Need(l.facts[idx]), l.blk[idx],
             l.facts[idx].nfull, end, start, next)
  {
    ContentFits(nodes, l, end, start, next, k);
    hide FactsFor, FactOk, InodeBytes, Content;
    assert SlotOk(l.order, l.facts, l.nid, k, end);
    var x := l.order[k];
    SlotSize(nodes[x], l.facts[x], InodeBytes(nodes[x], l.facts[x], l.nid[x], l.blk[x], l.nlink[x]),
             ContentOf(nodes, l, x));
  }

  lemma SlotSize(n: Node, f: Fact, inode: seq<byte>, content: seq<byte>)
    requires FactOk(f) && |content| == f.len && |n.xattrs| == f.xlen && |inode| == ISLOT
    ensures |Slot(n, f, inode, content)| == Need(f)
  {
  }

  lemma ApartFrom(p: Part, q: Part, o1: nat, n1: nat, b1: nat, f1: nat, o2: nat, n2: nat, b2: nat, f2: nat, end: nat,
                  start: nat, next: nat)
    requires PartAt(p, o1, n1, b1, f1, end, start, next) && PartAt(q, o2, n2, b2, f2, end, start, next)
    requires o1 + n1 <= o2 && (f1 > 0 && f2 > 0 ==> b1 + f1 <= b2) && next < U32_LIMIT
    ensures PartsApart(p, q) && PartsApart(q, p)
  {
  }

  /** No write of pass 3 overlaps another. */
  lemma AllApart(nodes: seq<Node>, l: Layout, end: nat, start: nat, next: nat, i: nat, j: nat)
    requires TreeOk(nodes) && LayoutOk(nodes, l, end, start, next) && i < j < |l.order| && next < U32_LIMIT
    ensures var p, q := PartOf(nodes, l, end, start, next, i), PartOf(nodes, l, end, start, next, j);
      PartsApart(p, q) && PartsApart(q, p)
  {
    hide FactsFor, PartOf, PartAt, PartsApart, SlotOk, Need;
    PartPlace(nodes, l, end, start, next, i);
    PartPlace(nodes, l, end, start, next, j);
    var a, b := l.order[i], l.order[j];
    ApartFrom(PartOf(nodes, l, end, start, next, i), PartOf(nodes, l, end, start, next, j),
              Off(l.nid, a), Need(l.facts[a]), l.blk[a], l.facts[a].nfull,
              Off(l.nid, b), Need(l.facts[b]), l.blk[b], l.facts[b].nfull, end, start, next);
  }

  // ---- streaming ----

  /** After `k` nodes: nothing is beyond the end of the data and, where addresses are 32-bit,
      the superblock and their writes are in place. */
  ghost predicate Streamed(nodes: seq<Node>, l: Layout, end: nat, start: nat, next: nat, d: seq<byte>, sb: seq<byte>,
                           k: nat)
    requires TreeOk(nodes) && LayoutOk(nodes, l, end, start, next) && k <= |l.order|
  {
    && |d| <= next * BLOCK && (next < U32_LIMIT ==> ReadAt(d, SUPER_OFFSET, SB_SIZE) == sb)
    && (next < U32_LIMIT ==> forall i :: 0 <= i < k ==> PartIn(d, PartOf(nodes, l, end, start, next, i)))
  }

  lemma NextStreamed(nodes: seq<Node>, l: Layout, end: nat, start: nat, next: nat, d: seq<byte>, sb: seq<byte>, k: nat)
    requires TreeOk(nodes) && LayoutOk(nodes, l, end, start, next) && k < |l.order| && |sb| == SB_SIZE
    requires Streamed(nodes, l, end, start, next, d, sb, k)
    ensures Streamed(nodes, l, end, start, next, WritePart(d, PartOf(nodes, l, end, start, next, k)), sb, k + 1)
  {
    hide FactsFor, Slotted, TreeOk, PartOf, PartIn, PartAt, PartsApart, WritePart, ReadAt;
    var q := PartOf(nodes, l, end, start, next, k);
    forall i | 0 <= i < k + 1 && next < U32_LIMIT
      ensures PartIn(WritePart(d, q), PartOf(nodes, l, end, start, next, i))
    {
      if i < k {
        AllApart(nodes, l, end, start, next, i, k);
        PartKept(d, PartOf(nodes, l, end, start, next, i), q);
      } else {
        PartPlace(nodes, l, end, start, next, k);
        SelfApart(q, Off(l.nid, l.order[k]), Need(l.facts[l.order[k]]), l.blk[l.order[k]], l.facts[l.order[k]].nfull,
                  end, start, next);
        PartWritten(d, q);
      }
    }
    PartPlace(nodes, l, end, start, next, k);
    SuperKept(d, q, Off(l.nid, l.order[k]), Need(l.facts[l.order[k]]), l.blk[l.order[k]], l.facts[l.order[k]].nfull,
              end, start, next);
  }

  lemma SelfApart(p: Part, off: nat, need: nat, base: nat, nfull: nat, end: nat, start: nat, next: nat)
    requires PartAt(p, off, need, base, nfull, end, start, next) && next < U32_LIMIT
    ensures Apart(p.off, |p.slot|, p.base, |p.data|)
  {
  }

  lemma SuperKept(d: seq<byte>, p: Part, off: nat, need: nat, base: nat, nfull: nat, end: nat, start: nat, next: nat)
    requires PartAt(p, off, need, base, nfull, end, start, next) && |d| <= next * BLOCK && start <= next
    ensures next < U32_LIMIT ==> ReadAt(WritePart(d, p), SUPER_OFFSET, SB_SIZE) == ReadAt(d, SUPER_OFFSET, SB_SIZE)
    ensures |WritePart(d, p)| <= next * BLOCK
  {
    hide Put, ReadAt;
    if next < U32_LIMIT {
      ReadApart(d, p.off, p.slot, SUPER_OFFSET, SB_SIZE);
      ReadApart(Put(d, p.off, p.slot), p.base, p.data, SUPER_OFFSET, SB_SIZE);
    }
    MulMonotone(start, next, BLOCK);
    if p.data != [] { MulMonotone(base + nfull, next, BLOCK); assert Cut32(base) <= base; }
  }

  // ---- the whole image ----

  /** Every reachable node: what its nid decodes to. */
  ghost predicate Decodes(nodes: seq<Node>, l: Layout, img: seq<byte>)
    requires TreeOk(nodes) && Parents(nodes, l.parent) && |l.nid| == |l.facts| == |nodes| && NidsOk(l.nid)
  {
    forall x: nat :: Reach(nodes, 0, x) && x < |nodes| && l.facts[x].len < U32_LIMIT ==>
      Decode(img, l.nid[x]) == ContentOf(nodes, l, x)
  }

  /** Streaming and the final padding, after the layout is fixed. `sb` is the superblock. */
  method Stream(nodes: seq<Node>, l: Layout, end: nat, start: nat, next: nat, sb: seq<byte>) returns (img: seq<byte>)
    requires TreeOk(nodes) && LayoutOk(nodes, l, end, start, next) && |sb| == SB_SIZE && FIRST_INODE <= end
    ensures |img| == next * BLOCK && (next < U32_LIMIT ==> ReadAt(img, SUPER_OFFSET, SB_SIZE) == sb)
    ensures next < U32_LIMIT ==> forall k :: 0 <= k < |l.order| ==> PartIn(img, PartOf(nodes, l, end, start, next, k))
  {
    hide FactsFor, Slotted, PartOf, PartIn, ReadAt, WriteAt, TreeOk, Streamed, InodeBytes, Full, Slot, FactOk,
         ContentOf;
    img := Put([], SUPER_OFFSET, sb);
    SuperWritten(nodes, l, end, start, next, sb);
    for k := 0 to |l.order|
      invariant Streamed(nodes, l, end, start, next, img, sb, k)
    {
      img := StreamNode(nodes, l, end, start, next, img, k, sb);
    }
    StreamedAll(nodes, l, end, start, next, img, sb);
    ghost var short := img;
    if |img| < next * BLOCK { img := Put(img, |img|, Zeros(next * BLOCK - |img|)); }
    PaddedReads(short, img, next * BLOCK);
    forall k | 0 <= k < |l.order| && next < U32_LIMIT ensures PartIn(img, PartOf(nodes, l, end, start, next, k)) {
      SameReads(short, img, PartOf(nodes, l, end, start, next, k));
    }
  }

  lemma StreamedAll(nodes: seq<Node>, l: Layout, end: nat, start: nat, next: nat, d: seq<byte>, sb: seq<byte>)
    requires TreeOk(nodes) && LayoutOk(nodes, l, end, start, next)
    requires Streamed(nodes, l, end, start, next, d, sb, |l.order|)
    ensures |d| <= next * BLOCK && (next < U32_LIMIT ==> ReadAt(d, SUPER_OFFSET, SB_SIZE) == sb)
    ensures next < U32_LIMIT ==> forall i :: 0 <= i < |l.order| ==> PartIn(d, PartOf(nodes, l, end, start, next, i))
  {
  }

  lemma SuperWritten(nodes: seq<Node>, l: Layout, end: nat, start: nat, next: nat, sb: seq<byte>)
    requires TreeOk(nodes) && LayoutOk(nodes, l, end, start, next) && |sb| == SB_SIZE && FIRST_INODE <= end
    ensures Streamed(nodes, l, end, start, next, Put([], SUPER_OFFSET, sb), sb, 0)
  {
    ReadPut([], SUPER_OFFSET, sb);
    MulMonotone(start, next, BLOCK);
  }

  lemma PaddedReads(a: seq<byte>, b: seq<byte>, n: nat)
    requires |a| <= n && b == if |a| < n then Put(a, |a|, Zeros(n - |a|)) else a
    ensures |b| == n && forall p, k {:trigger ReadAt(b, p, k)} :: ReadAt(b, p, k) == ReadAt(a, p, k)
  {
    assert forall i: nat :: At(b, i) == At(a, i);
    forall p: nat, k: nat ensures ReadAt(b, p, k) == ReadAt(a, p, k) {
      assert forall i :: 0 <= i < k ==> ReadAt(b, p, k)[i] == At(b, p + i) && ReadAt(a, p, k)[i] == At(a, p + i);
    }
  }

  lemma SameReads(a: seq<byte>, b: seq<byte>, p: Part)
    requires PartIn(a, p) && forall q, k {:trigger ReadAt(b, q, k)} :: ReadAt(b, q, k) == ReadAt(a, q, k)
    ensures PartIn(b, p)
  {
  }

  /** One turn of pass 3: inode, attributes, inline tail, then the full blocks. */
  method StreamNode(nodes: seq<Node>, l: Layout, end: nat, start: nat, next: nat, d: seq<byte>, k: nat,
                    ghost sb: seq<byte>) returns (r: seq<byte>)
    requires TreeOk(nodes) && LayoutOk(nodes, l, end, start, next) && k < |l.order| && |sb| == SB_SIZE
    requires Streamed(nodes, l, end, start, next, d, sb, k)
    ensures Streamed(nodes, l, end, start, next, r, sb, k + 1)
  {
    hide FactsFor, Slotted, BlocksOk, TreeOk, Streamed, InodeBytes, FactOk, Put, Content, ParentsBelow, LinksOf;
    var idx := l.order[k];
    ContentFits(nodes, l, end, start, next, k);
    var f, n, off := l.facts[idx], nodes[idx], l.nid[idx] * ISLOT;
    NidOf(l, idx);
    var inode := InodeBytes(n, f, l.nid[idx], l.blk[idx], l.nlink[idx]);
    r := Put(d, off, inode);
    r := Put(r, off + ISLOT, n.xattrs);
    var content := ContentBytes(nodes, idx, l.nid[idx], l.nid[l.parent[idx]], l.nid);
    TailFits(f);
    var tail := if f.tail > 0 then content[f.nfull * BLOCK..] else [];
    r := Put(r, off + ISLOT + f.xlen, tail);
    PutSplit(d, off, inode, n.xattrs);
    PutSplit(d, off, inode + n.xattrs, tail);
    r := CopyBlocks(r, Cut32(l.blk[idx]) * BLOCK, Full(f, content));
    NextStreamed(nodes, l, end, start, next, d, sb, k);
  }

  lemma NidOf(l: Layout, idx: nat)
    requires idx < |l.nid| && NidsOk(l.nid) && |l.parent| == |l.nid| && l.parent[idx] < |l.nid|
    ensures l.nid[idx] < ErofsDir.U64_LIMIT && l.nid[l.parent[idx]] < ErofsDir.U64_LIMIT
  {
  }

  lemma TailFits(f: Fact)
    requires FactOk(f)
    ensures f.tail > 0 ==> f.nfull * BLOCK <= f.len
  {
  }

  /** With 32-bit block addresses, every node of the order decodes. */
  lemma OrderDecodes(nodes: seq<Node>, l: Layout, end: nat, start: nat, next: nat, img: seq<byte>, k: nat)
    requires TreeOk(nodes) && LayoutOk(nodes, l, end, start, next) && k < |l.order| && next < U32_LIMIT
    requires PartIn(img, PartOf(nodes, l, end, start, next, k)) && l.facts[l.order[k]].len < U32_LIMIT
    ensures Decode(img, l.nid[l.order[k]]) == ContentOf(nodes, l, l.order[k])
  {
    ContentFits(nodes, l, end, start, next, k);
    hide FactsFor, Slotted, PartIn, InodeBytes, Slot, Full, FactOk, Decode, Content;
    var idx := l.order[k];
    PartDecodes(img, nodes[idx], l.facts[idx], l.nid[idx], l.blk[idx], l.nlink[idx], ContentOf(nodes, l, idx));
  }

  ghost predicate Gridded(nodes: seq<Node>, priority: seq<seq<seq<byte>>>, l: Layout, min: nat, x: nat)
    requires x < |l.facts| == |nodes|
  {
    l.facts[x].nfull > 0 && Large(nodes[x], l.facts[x], min) && !Prioritized(nodes, priority, x)
  }

  /** Large reachable files that no priority path leads to start on the grid. */
  ghost predicate GridOk(nodes: seq<Node>, priority: seq<seq<seq<byte>>>, l: Layout, align: nat, min: nat)
    requires |l.facts| == |l.blk| == |nodes|
  {
    align > 1 ==> forall x: nat :: x < |nodes| && x in l.order && Gridded(nodes, priority, l, min, x) ==>
                    l.blk[x] % align == 0
  }

  /** Without priority nodes there is no prefetch; otherwise it ends with the last of their
      data, or with the metadata if they have none. */
  ghost predicate PrefetchOk(nodes: seq<Node>, priority: seq<seq<seq<byte>>>, l: Layout, start: nat, prefetch: nat)
    requires |l.facts| == |l.blk| == |nodes| && Indexed(l.order, |nodes|)
  {
    if forall x: nat :: !Prioritized(nodes, priority, x) then prefetch == 0
    else
      && start * BLOCK <= prefetch && prefetch % BLOCK == 0
      && (forall x: nat :: x < |nodes| && Prioritized(nodes, priority, x) && l.facts[x].nfull > 0 ==>
          l.blk[x] + l.facts[x].nfull <= prefetch / BLOCK)
      && (prefetch == start * BLOCK
          || exists x: nat :: x < |nodes| && Prioritized(nodes, priority, x) && EndsAt(l, x, prefetch / BLOCK))
      && (nodes[0].kind == Directory ==>
          forall b: nat :: start <= b < prefetch / BLOCK ==> PriorityBlock(nodes, priority, l, b))
  }

  ghost predicate EndsAt(l: Layout, x: nat, e: nat)
    requires x < |l.facts| == |l.blk|
  {
    l.facts[x].nfull > 0 && l.blk[x] + l.facts[x].nfull == e
  }

  /** Block `b` holds data of the root or of a priority node. */
  ghost predicate PriorityBlock(nodes: seq<Node>, priority: seq<seq<seq<byte>>>, l: Layout, b: nat)
    requires |l.facts| == |l.blk| == |nodes|
  {
    exists x: nat :: x < |nodes| && (x == 0 || Prioritized(nodes, priority, x))
                     && l.blk[x] <= b < l.blk[x] + l.facts[x].nfull
  }

  /** What serialize leaves: every reachable node laid out once, the root first, then what
      the priority paths lead to in order of first mention, and everything in place. */
  ghost predicate Serialized(nodes: seq<Node>, priority: seq<seq<seq<byte>>>, align: nat, min: nat, img: seq<byte>,
                             l: Layout, end: nat, start: nat, total: nat, prefetch: nat)
    requires TreeOk(nodes)
  {
    && LayoutOk(nodes, l, end, start, total) && |img| == total * BLOCK
    && (forall x :: x in l.order <==> Reach(nodes, 0, x)) && [0] + Mentioned(nodes, priority) <= l.order
    && (total < U32_LIMIT ==> forall k :: 0 <= k < |l.order| ==> PartIn(img, PartOf(nodes, l, end, start, total, k)))
    && GridOk(nodes, priority, l, align, min) && PrefetchOk(nodes, priority, l, start, prefetch)
  }

  /** serialize: for every tree, alignment and priority list, an image of whole blocks in
      which every reachable node decodes at its nid to its content; the root's nid is 36
      or 128, and grid and prefetch extent are what the priority paths say. */
  method Serialize(nodes: seq<Node>, priority: seq<seq<seq<byte>>>, align: nat, min: nat, sb: (nat, nat) -> seq<byte>)
    returns (img: seq<byte>, l: Layout, total: nat, prefetch: nat, ghost end: nat, ghost start: nat)
    requires TreeOk(nodes) && forall t, r :: |sb(t, r)| == SB_SIZE
    ensures Serialized(nodes, priority, align / BLOCK, min, img, l, end, start, total, prefetch)
    ensures (total < U32_LIMIT ==> ReadAt(img, SUPER_OFFSET, SB_SIZE) == sb(total, l.nid[0]))
    ensures (l.nid[0] == 36 || l.nid[0] == 128)
    ensures total < U32_LIMIT ==> Decodes(nodes, l, img)
  {
    hide Linked, Reach, NoRepeats, FactsFor, Slotted, BlocksOk, Snapped, PriorityData, PriorityFirst, FactsOk, PartIn,
         PartOf, ReadAt, Decode, ContentOf, NodeOk, ParentsBelow, LinksOf, Filled, Leading, GridOk, PrefetchOk,
         LayoutOk, Mentioned, Serialized;
    var order, prio := LayoutOrder(nodes, priority);
    OrderIndexed(nodes, order);
    var parent := ParentMap(nodes);
    ParentsThen(nodes, parent);
    var nlink := LinkCounts(nodes);
    var facts := LayoutFacts(nodes, order, parent);
    FactsAre(nodes, order, facts);
    var nid, metaEnd := AssignSlots(order, facts);
    NidsFit(order, nid, metaEnd, |nodes|);
    var firstBlock := CeilDiv(metaEnd, BLOCK);
    var blk, pend;
    ghost var m := Leads(nodes, priority, order, prio);
    blk, total, pend := AssignBlocks(nodes, order, facts, firstBlock, align / BLOCK, min, prio, m);
    prefetch := if prio == {} then 0 else pend * BLOCK;
    l := Layout(order, facts, nid, blk, parent, nlink);
    end, start := metaEnd, firstBlock;
    LayoutIsOk(nodes, l, end, start, total);
    img := Stream(nodes, l, metaEnd, firstBlock, total, sb(total, nid[0]));
    if total < U32_LIMIT {
      forall x: nat | Reach(nodes, 0, x) && x < |nodes| && facts[x].len < U32_LIMIT
        ensures Decode(img, l.nid[x]) == ContentOf(nodes, l, x)
      {
        var k :| 0 <= k < |order| && order[k] == x;
        OrderDecodes(nodes, l, end, start, total, img, k);
      }
    }
    PriorityThen(nodes, priority, order, prio);
    GridFrom(nodes, priority, l, align / BLOCK, min, prio);
    PrefetchFrom(nodes, priority, l, start, total, min, prio, pend, m, prefetch);
    SerializedFrom(nodes, priority, align / BLOCK, min, img, l, end, start, total, prefetch, prio);
  }

  lemma ParentsThen(nodes: seq<Node>, parent: seq<nat>)
    requires ParentsBelow(nodes, parent, |nodes|)
    ensures Parents(nodes, parent)
  {
  }

  lemma PriorityThen(nodes: seq<Node>, priority: seq<seq<seq<byte>>>, order: seq<nat>, prio: set<nat>)
    requires PriorityFirst(nodes, priority, order, prio)
    ensures forall x :: x in prio <==> Prioritized(nodes, priority, x)
  {
  }

  /** The nodes from the root to the last one mentioned. */
  lemma Leads(nodes: seq<Node>, priority: seq<seq<seq<byte>>>, order: seq<nat>, prio: set<nat>) returns (m: nat)
    requires Linked(nodes) && PriorityFirst(nodes, priority, order, prio) && NoRepeats(order)
    ensures 0 < m <= |order| && order[0] == 0 && (forall i :: 1 <= i < m ==> order[i] in prio)
    ensures forall i :: m <= i < |order| ==> order[i] !in prio
  {
    hide Prioritized;
    var ms := Mentioned(nodes, priority);
    m := 1 + |ms|;
    MentionedAre(nodes, priority);
    assert forall i :: 0 <= i < m ==> order[i] == ([0] + ms)[i];
    forall i | 1 <= i < m ensures order[i] in prio { assert ms[i - 1] in ms; }
    forall i | m <= i < |order| ensures order[i] !in prio {
      forall j | 0 <= j < |ms| ensures ms[j] != order[i] { assert order[j + 1] == ms[j]; }
    }
  }

  lemma LayoutIsOk(nodes: seq<Node>, l: Layout, end: nat, start: nat, next: nat)
    requires TreeOk(nodes) && ParentsBelow(nodes, l.parent, |nodes|) && Indexed(l.order, |nodes|)
    requires |l.nid| == |l.blk| == |l.nlink| == |l.facts| == |nodes| && NidsOk(l.nid)
    requires FactsFor(nodes, l.order, l.facts)
    requires (forall x :: 0 <= x < |nodes| ==> l.nlink[x] == LinksOf(nodes, x)) && start == CeilDiv(end, BLOCK)
    requires Slotted(l.order, l.facts, l.nid, |l.order|, end)
    requires BlocksOk(l.order, l.facts, l.blk, |l.order|, start, next)
    ensures LayoutOk(nodes, l, end, start, next)
  {
    hide TreeOk, FactsFor, LinksOf, Slotted, BlocksOk, NoRepeats;
  }

  lemma GridFrom(nodes: seq<Node>, priority: seq<seq<seq<byte>>>, l: Layout, align: nat, min: nat, prio: set<nat>)
    requires Indexed(l.order, |nodes|) && |l.blk| == |l.facts| == |nodes|
    requires Snapped(nodes, l.order, l.facts, l.blk, |l.order|, align, min, prio)
    requires forall x :: x in prio <==> Prioritized(nodes, priority, x)
    ensures GridOk(nodes, priority, l, align, min)
  {
    hide Prioritized, Large;
  }

  lemma PrefetchFrom(nodes: seq<Node>, priority: seq<seq<seq<byte>>>, l: Layout, start: nat, total: nat, min: nat,
                     prio: set<nat>, pend: nat, m: nat, prefetch: nat)
    requires Linked(nodes) && Indexed(l.order, |nodes|) && |l.blk| == |l.facts| == |nodes| && start <= pend
    requires (forall x :: x in l.order <==> Reach(nodes, 0, x))
    requires (forall x :: x in prio <==> Prioritized(nodes, priority, x))
    requires PriorityData(l.order, l.facts, l.blk, |l.order|, prio, start, pend)
    requires 0 < m <= |l.order| && l.order[0] == 0 && (forall i :: 1 <= i < m ==> l.order[i] in prio)
    requires forall i :: m <= i < |l.order| ==> l.order[i] !in prio
    requires Leading(nodes, l.order, l.facts, min, prio, m) ==> Filled(l.order, l.facts, l.blk, m, start, pend)
    requires prefetch == if prio == {} then 0 else pend * BLOCK
    ensures PrefetchOk(nodes, priority, l, start, prefetch)
  {
    hide Reach, Prioritized, NoRepeats, Linked;
    if prio != {} {
      forall x: nat | Prioritized(nodes, priority, x) ensures x in l.order { PrioritizedListed(nodes, priority, x); }
      var y :| y in prio;
      assert Prioritized(nodes, priority, y);
      assert prefetch / BLOCK == pend && prefetch % BLOCK == 0;
      if pend != start {
        var i :| 0 <= i < |l.order| && EndsPriority(l.order, l.facts, l.blk, i, prio, pend);
        assert EndsAt(l, l.order[i], pend);
      }
      if nodes[0].kind == Directory {
        forall b: nat | start <= b < pend ensures PriorityBlock(nodes, priority, l, b) {
          assert Holds(l.order, l.facts, l.blk, m, b);
          var i :| 0 <= i < m && InData(l.order, l.facts, l.blk, i, b);
          var x := l.order[i];
          assert x == 0 || Prioritized(nodes, priority, x);
        }
      }
    }
  }

  lemma PrioritizedListed(nodes: seq<Node>, priority: seq<seq<seq<byte>>>, x: nat)
    requires Linked(nodes) && Prioritized(nodes, priority, x)
    ensures Reach(nodes, 0, x)
  {
    var i :| 0 <= i < |priority| && Follow(nodes, priority[i]) == Some(x);
    FollowReach(nodes, priority[i]);
  }

  lemma SerializedFrom(nodes: seq<Node>, priority: seq<seq<seq<byte>>>, align: nat, min: nat, img: seq<byte>,
                       l: Layout, end: nat, start: nat, total: nat, prefetch: nat, prio: set<nat>)
    requires TreeOk(nodes) && LayoutOk(nodes, l, end, start, total) && |img| == total * BLOCK
    requires (forall x :: x in l.order <==> Reach(nodes, 0, x)) && PriorityFirst(nodes, priority, l.order, prio)
    requires total < U32_LIMIT ==>
      forall k :: 0 <= k < |l.order| ==> PartIn(img, PartOf(nodes, l, end, start, total, k))
    requires GridOk(nodes, priority, l, align, min) && PrefetchOk(nodes, priority, l, start, prefetch)
    ensures Serialized(nodes, priority, align, min, img, l, end, start, total, prefetch)
  {
    hide Reach, Mentioned, PartIn, PartOf, GridOk, PrefetchOk, LayoutOk;
  }

  lemma OrderIndexed(nodes: seq<Node>, order: seq<nat>)
    requires Linked(nodes) && NoRepeats(order) && forall x :: x in order <==> Reach(nodes, 0, x)
    ensures Indexed(order, |nodes|)
  {
    forall k | 0 <= k < |order| ensures order[k] < |nodes| {
      assert order[k] in order;
      var p :| Path(nodes, p) && p[0] == 0 && p[|p| - 1] == order[k];
      if |p| > 1 { assert ChildOf(nodes, p[|p| - 2], p[|p| - 2 + 1]); }
    }
  }

  lemma FactsAre(nodes: seq<Node>, order: seq<nat>, facts: seq<Fact>)
    requires TreeOk(nodes) && Indexed(order, |nodes|) && FactsFor(nodes, order, facts)
    ensures |facts| == |nodes| && FactsOk(facts)
  {
  }

  /** Each node takes at most two blocks of metadata, so nids stay far below 64 bits. */
  lemma NidsFit(order: seq<nat>, nid: seq<nat>, end: nat, n: nat)
    requires Indexed(order, n) && n < MAX_NODES && end <= FIRST_INODE + |order| * 2 * BLOCK
    requires forall i :: 0 <= i < |nid| ==> nid[i] <= end
    ensures NidsOk(nid)
  {
    Distinct(order, n);
  }

  lemma {:induction false} Distinct(s: seq<nat>, n: nat)
    requires NoRepeats(s) && forall k :: 0 <= k < |s| ==> s[k] < n
    ensures |s| <= n
    decreases n
  {
    if s != [] {
      assert s[0] < n;
      if exists k :: 0 <= k < |s| && s[k] == n - 1 {
        var k :| 0 <= k < |s| && s[k] == n - 1;
        var t := s[..k] + s[k + 1..];
        assert forall i :: 0 <= i < |t| ==> t[i] == (if i < k then s[i] else s[i + 1]);
        Distinct(t, n - 1);
      } else {
        Distinct(s, n - 1);
      }
    }
  }

  // ---- what the image is for ----

  /** A directory read from the image lists itself, its parent and its children, each with
      its nid and type, in order. The parent is a node that holds it; the root's is itself
      unless some node holds it. */
  lemma DirectoryListed(nodes: seq<Node>, priority: seq<seq<seq<byte>>>, align: nat, min: nat, img: seq<byte>,
                        l: Layout, end: nat, start: nat, total: nat, prefetch: nat, x: nat)
    requires TreeOk(nodes) && Serialized(nodes, priority, align, min, img, l, end, start, total, prefetch)
    requires total < U32_LIMIT
    requires Reach(nodes, 0, x) && x < |nodes| && l.facts[x].len < U32_LIMIT && nodes[x].kind == Directory
    ensures l.parent[x] < |nodes|
    ensures ErofsDir.DecodeDir(Decode(img, l.nid[x])) == Entries(nodes, x, l.nid[x], l.nid[l.parent[x]], l.nid)
    ensures x != 0 || HeldBelow(nodes, 0, |nodes|) ==> ChildOf(nodes, l.parent[x], x)
    ensures x == 0 && !HeldBelow(nodes, 0, |nodes|) ==> l.parent[x] == 0
  {
    if x != 0 { ReachedIsHeld(nodes, x); }
    hide Decode, Reach, ErofsDir.DecodeDir, ErofsDir.Encode, TreeOk, PartIn, PartOf, PrefetchOk, GridOk, FactsFor,
         Slotted, BlocksOk, LinksOf, ChildOf;
    var k := PlaceOf(nodes, priority, align, min, img, l, end, start, total, prefetch, x);
    OrderDecodes(nodes, l, end, start, total, img, k);
    ErofsDir.DirRoundTrip(Entries(nodes, x, l.nid[x], l.nid[l.parent[x]], l.nid));
  }

  lemma PlaceOf(nodes: seq<Node>, priority: seq<seq<seq<byte>>>, align: nat, min: nat, img: seq<byte>,
                l: Layout, end: nat, start: nat, total: nat, prefetch: nat, x: nat) returns (k: nat)
    requires TreeOk(nodes) && Serialized(nodes, priority, align, min, img, l, end, start, total, prefetch)
    requires Reach(nodes, 0, x)
    ensures LayoutOk(nodes, l, end, start, total) && k < |l.order| && l.order[k] == x < |nodes|
    ensures total < U32_LIMIT ==> PartIn(img, PartOf(nodes, l, end, start, total, k))
  {
    hide Reach, PartIn, PartOf, PrefetchOk, GridOk, TreeOk, FactsFor, Slotted, BlocksOk, LinksOf, Mentioned;
    k :| 0 <= k < |l.order| && l.order[k] == x;
  }

  lemma ReachedIsHeld(nodes: seq<Node>, x: nat)
    requires Linked(nodes) && Reach(nodes, 0, x) && x != 0
    ensures HeldBelow(nodes, x, |nodes|)
  {
    hide ChildOf;
    var p :| Path(nodes, p) && p[0] == 0 && p[|p| - 1] == x;
    var b := p[|p| - 2];
    assert ChildOf(nodes, b, p[|p| - 2 + 1]);
    HolderInTable(nodes, b, x);
  }

  lemma HolderInTable(nodes: seq<Node>, b: nat, x: nat)
    requires ChildOf(nodes, b, x)
    ensures b < |nodes|
  {
  }

  /** All bytes of a node that a priority path leads to lie inside the prefetch extent. */
  lemma PriorityCovered(nodes: seq<Node>, priority: seq<seq<seq<byte>>>, align: nat, min: nat, img: seq<byte>,
                        l: Layout, end: nat, start: nat, total: nat, prefetch: nat, i: nat, x: nat) returns (k: nat)
    requires TreeOk(nodes) && Serialized(nodes, priority, align, min, img, l, end, start, total, prefetch)
    requires i < |priority| && Follow(nodes, priority[i]) == Some(x) && x != 0
    ensures LayoutOk(nodes, l, end, start, total) && k < |l.order| && l.order[k] == x
    ensures var p := PartOf(nodes, l, end, start, total, k);
      p.off + |p.slot| <= prefetch && (p.data != [] ==> p.base + |p.data| <= prefetch)
  {
    FollowReach(nodes, priority[i]);
    assert Prioritized(nodes, priority, x);
    hide PartOf, FactsFor, Slotted, BlocksOk, TreeOk, Reach, Prioritized, ParentsBelow, LinksOf, PartIn, GridOk,
         Mentioned;
    k := PlaceOf(nodes, priority, align, min, img, l, end, start, total, prefetch, x);
    PartPlace(nodes, l, end, start, total, k);
    hide Serialized, LayoutOk, Cut32;
    PrefetchHas(nodes, priority, l, start, prefetch, x);
    PartEnds(PartOf(nodes, l, end, start, total, k), Off(l.nid, x), Need(l.facts[x]), l.blk[x], l.facts[x].nfull, end,
             start, total, prefetch);
  }

  lemma PrefetchHas(nodes: seq<Node>, priority: seq<seq<seq<byte>>>, l: Layout, start: nat, prefetch: nat, x: nat)
    requires |l.facts| == |l.blk| == |nodes| && Indexed(l.order, |nodes|)
    requires PrefetchOk(nodes, priority, l, start, prefetch)
    requires x < |nodes| && Prioritized(nodes, priority, x)
    ensures start * BLOCK <= prefetch && (l.facts[x].nfull > 0 ==> (l.blk[x] + l.facts[x].nfull) * BLOCK <= prefetch)
  {
    hide Prioritized, PriorityBlock;
    if l.facts[x].nfull > 0 { MulMonotone(l.blk[x] + l.facts[x].nfull, prefetch / BLOCK, BLOCK); }
  }

  lemma PartEnds(p: Part, off: nat, need: nat, base: nat, nfull: nat, end: nat, start: nat, next: nat, limit: nat)
    requires PartAt(p, off, need, base, nfull, end, start, next)
    requires start * BLOCK <= limit && (nfull > 0 ==> (base + nfull) * BLOCK <= limit)
    ensures p.off + |p.slot| <= limit && (p.data != [] ==> p.base + |p.data| <= limit)
  {
    assert Cut32(base) <= base;
  }

  /** A regular file of the minimum size that no priority path leads to: each grid block of
      `w` bytes inside its full blocks is a grid block of the image and holds the same
      stretch of content in every image. */
  lemma GridBlock(nodes: seq<Node>, priority: seq<seq<seq<byte>>>, align: nat, min: nat, img: seq<byte>,
                  l: Layout, end: nat, start: nat, total: nat, prefetch: nat, x: nat, w: nat, p: nat)
    requires TreeOk(nodes) && Serialized(nodes, priority, align, min, img, l, end, start, total, prefetch)
    requires Reach(nodes, 0, x) && x < |nodes| && nodes[x].kind == Regular && |nodes[x].data| >= min
    requires forall i :: 0 <= i < |priority| ==> Follow(nodes, priority[i]) != Some(x)
    requires align > 1 && w == align * BLOCK && p % w == 0 && p + w <= l.facts[x].nfull * BLOCK
    requires p + w <= |nodes[x].data| && total < U32_LIMIT
    ensures (l.blk[x] * BLOCK + p) % w == 0
    ensures ReadAt(img, l.blk[x] * BLOCK + p, w) == nodes[x].data[p..p + w]
  {
    hide ReadAt, PartIn, PartOf, FactsFor, Slotted, BlocksOk, TreeOk, Reach, LinksOf, ParentsBelow, PrefetchOk,
         Mentioned, Follow;
    var k := PlaceOf(nodes, priority, align, min, img, l, end, start, total, prefetch, x);
    ContentFits(nodes, l, end, start, total, k);
    DataIsPrefix(nodes, l, end, start, total, k);
    BlockBelow(l, start, total, k);
    PartGrid(img, PartOf(nodes, l, end, start, total, k), nodes[x].data, w, p);
    OnGrid(l.blk[x], align, w, p);
  }

  /** The attributes of a reachable node, read from the area behind its inode, are the pairs
      its area was encoded from. */
  lemma AttributesRead(nodes: seq<Node>, priority: seq<seq<seq<byte>>>, align: nat, min: nat, img: seq<byte>,
                       l: Layout, end: nat, start: nat, total: nat, prefetch: nat, x: nat, ps: seq<ErofsXattr.Pair>)
    requires TreeOk(nodes) && Serialized(nodes, priority, align, min, img, l, end, start, total, prefetch)
    requires Reach(nodes, 0, x) && x < |nodes| && nodes[x].xattrs == ErofsXattr.Area(ps) && total < U32_LIMIT
    ensures ErofsXattr.DecodeArea(DecodeArea(img, l.nid[x])) == ps <==> ErofsXattr.PairsOk(ps)
  {
    hide Reach, ReadAt, PartIn, FactsFor, Slotted, BlocksOk, TreeOk, LinksOf, ParentsBelow, PrefetchOk, GridOk,
         Mentioned, InodeBytes, Slot, Full, FactOk, Content, DecodeArea, ErofsXattr.DecodeArea, ErofsXattr.Area;
    var k := PlaceOf(nodes, priority, align, min, img, l, end, start, total, prefetch, x);
    ContentFits(nodes, l, end, start, total, k);
    PartArea(img, nodes[x], l.facts[x], l.nid[x], l.blk[x], l.nlink[x], ContentOf(nodes, l, x));
    ErofsXattr.AreaRoundTrip(ps);
  }

  /** The inode of a reachable node says its mode, links and owners. */
  lemma MetaRead(nodes: seq<Node>, priority: seq<seq<seq<byte>>>, align: nat, min: nat, img: seq<byte>,
                 l: Layout, end: nat, start: nat, total: nat, prefetch: nat, x: nat)
    requires TreeOk(nodes) && Serialized(nodes, priority, align, min, img, l, end, start, total, prefetch)
    requires Reach(nodes, 0, x) && x < |nodes| && total < U32_LIMIT
    ensures MetaAt(img, l.nid[x]) ==
      Meta(nodes[x].mode, Cut16(LinksOf(nodes, x)), Cut16(nodes[x].uid), Cut16(nodes[x].gid))
  {
    hide Reach, ReadAt, PartIn, FactsFor, Slotted, BlocksOk, TreeOk, LinksOf, ParentsBelow, PrefetchOk, GridOk,
         Mentioned, InodeBytes, Slot, Full, FactOk, Content, MetaAt, Cut16;
    var k := PlaceOf(nodes, priority, align, min, img, l, end, start, total, prefetch, x);
    ContentFits(nodes, l, end, start, total, k);
    PartMeta(img, nodes[x], l.facts[x], l.nid[x], l.blk[x], l.nlink[x], ContentOf(nodes, l, x));
  }

  /** A reachable file or link decodes to its bytes. */
  lemma FileRead(nodes: seq<Node>, priority: seq<seq<seq<byte>>>, align: nat, min: nat, img: seq<byte>,
                 l: Layout, end: nat, start: nat, total: nat, prefetch: nat, x: nat)
    requires TreeOk(nodes) && Serialized(nodes, priority, align, min, img, l, end, start, total, prefetch)
    requires Reach(nodes, 0, x) && x < |nodes| && l.facts[x].len < U32_LIMIT && total < U32_LIMIT
    ensures nodes[x].kind != Directory ==> Decode(img, l.nid[x]) == nodes[x].data
  {
    hide Reach, Decode, PartIn, PartOf, FactsFor, Slotted, BlocksOk, TreeOk, LinksOf, ParentsBelow, PrefetchOk,
         GridOk, Mentioned;
    var k := PlaceOf(nodes, priority, align, min, img, l, end, start, total, prefetch, x);
    OrderDecodes(nodes, l, end, start, total, img, k);
  }

  lemma DataIsPrefix(nodes: seq<Node>, l: Layout, end: nat, start: nat, next: nat, k: nat)
    requires TreeOk(nodes) && LayoutOk(nodes, l, end, start, next) && k < |l.order|
    ensures var p, f, c := PartOf(nodes, l, end, start, next, k), l.facts[l.order[k]], ContentOf(nodes, l, l.order[k]);
      p.base == Cut32(l.blk[l.order[k]]) * BLOCK && p.data <= c && |p.data| == Min(f.nfull * BLOCK, |c|)
  {
    ContentFits(nodes, l, end, start, next, k);
    hide FactsFor, Slotted, BlocksOk, TreeOk, InodeBytes, Slot, ContentOf, Cut32, LayoutOk;
    FullIs(l.facts[l.order[k]], ContentOf(nodes, l, l.order[k]));
    hide Full, FactOk;
  }

  lemma FullIs(f: Fact, c: seq<byte>)
    requires FactOk(f) && |c| == f.len
    ensures Full(f, c) <= c && |Full(f, c)| == Min(f.nfull * BLOCK, |c|)
  {
  }

  lemma BlockBelow(l: Layout, start: nat, next: nat, k: nat)
    requires |l.facts| == |l.blk| && Indexed(l.order, |l.facts|) && k < |l.order|
    requires BlocksOk(l.order, l.facts, l.blk, |l.order|, start, next)
    ensures l.facts[l.order[k]].nfull > 0 ==> l.blk[l.order[k]] < next
  {
  }

  lemma PartGrid(img: seq<byte>, part: Part, c: seq<byte>, w: nat, p: nat)
    requires PartIn(img, part) && part.data <= c && p + w <= |part.data|
    ensures ReadAt(img, part.base + p, w) == c[p..p + w]
  {
    hide ReadAt;
    ReadInside(img, part.base, part.data, p, p + w);
    assert c[p..p + w] == part.data[p..p + w];
  }

  lemma OnGrid(b: nat, align: nat, w: nat, p: nat)
    requires align > 0 && b % align == 0 && w == align * BLOCK && p % w == 0
    ensures (b * BLOCK + p) % w == 0
  {
    var s, t := b / align, p / w;
    assert b == s * align && p == t * w;
    assert b * BLOCK == s * w;
    assert b * BLOCK + p == (s + t) * w;
    DivUnique(b * BLOCK + p, w, s + t, 0);
  }

  lemma ReadInside(d: seq<byte>, base: nat, data: seq<byte>, p: nat, q: nat)
    requires ReadAt(d, base, |data|) == data && p <= q <= |data|
    ensures ReadAt(d, base + p, q - p) == data[p..q]
  {
    var r := ReadAt(d, base, |data|);
    forall i | 0 <= i < q - p
      ensures ReadAt(d, base + p, q - p)[i] == data[p..q][i]
    {
      assert r[p + i] == At(d, base + (p + i));
    }
  }
}
