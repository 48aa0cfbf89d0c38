/** Building the EROFS tree: ensure_dir, create, link and the spool behind `write`
    (ext4/src/erofs.rs). File contents live in one append-only spool; each file's bytes
    stay one contiguous range of it. */
module ErofsBuilder {
  import opened Bytes
  import opened ErofsTree
  import opened ErofsSerialize

  datatype Range = Range(off: nat, len: nat)

  type Attrs = map<seq<byte>, seq<byte>>

  /** A node under construction: `target` is a symlink's text, `spooled` a file's bytes. */
  datatype Draft = Draft(kind: Kind, mode: nat, uid: nat, gid: nat, rdev: nat, xattrs: Attrs, target: seq<byte>,
                         spooled: Option<Range>, children: map<seq<byte>, nat>)

  /** What a caller passes to create. */
  datatype File = File(kind: Kind, mode: nat, uid: nat, gid: nat, rdev: nat, xattrs: Attrs, linkname: seq<byte>)

  const NEW_DIR_MODE: nat := 0x41ed

  function NewDir(): Draft { Draft(Directory, NEW_DIR_MODE, 0, 0, 0, map[], [], None, map[]) }

  /** The node's logical bytes. */
  function BytesOf(d: Draft, spool: seq<byte>): seq<byte> {
    if d.spooled.None? then d.target else
    var r := d.spooled.value;
    if r.off + r.len <= |spool| then spool[r.off..r.off + r.len] else []
  }

  ghost predicate DraftOk(d: Draft, n: nat, spool: nat) {
    && (forall c :: c in d.children ==> d.children[c] < n)
    && (d.spooled.Some? ==> d.spooled.value.off + d.spooled.value.len <= spool)
    && (d.kind == Device || d.kind == Pipe ==> d.spooled.None? && d.target == []) && Typed(d.kind, d.mode)
  }

  ghost predicate Growing(d: Draft, spool: nat) {
    d.kind == Regular && d.target == [] && (d.spooled.Some? ==> d.spooled.value.off + d.spooled.value.len == spool)
  }

  predicate Skipped(c: seq<byte>) { c == [] || c == DOT }

  /** Where a path leads from the root; empty components and "." are skipped. */
  function Lead(nodes: seq<Draft>, comps: seq<seq<byte>>): Option<nat> {
    if comps == [] then Some(0) else
    var d, c := Lead(nodes, comps[..|comps| - 1]), comps[|comps| - 1];
    if d.None? || d.value >= |nodes| then None
    else if Skipped(c) then d
    else if c in nodes[d.value].children then Some(nodes[d.value].children[c]) else None
  }

  /** Names that lead somewhere still lead there. */
  ghost predicate NamesKept(a: seq<Draft>, b: seq<Draft>) {
    && |a| <= |b|
    && forall i, c :: 0 <= i < |a| && c in a[i].children ==>
         c in b[i].children && b[i].children[c] == a[i].children[c]
  }

  /** Only children were added. */
  ghost predicate Extends(a: seq<Draft>, b: seq<Draft>) {
    NamesKept(a, b) && SameBut(a, b, |a|)
  }

  /** All nodes of `a` but `x` differ at most in their children. */
  ghost predicate SameBut(a: seq<Draft>, b: seq<Draft>, x: nat) {
    |a| <= |b| && forall i :: 0 <= i < |a| && i != x ==> b[i] == a[i].(children := b[i].children)
  }

  lemma {:induction false} LeadKept(a: seq<Draft>, b: seq<Draft>, comps: seq<seq<byte>>)
    requires NamesKept(a, b) && Lead(a, comps).Some?
    ensures Lead(b, comps) == Lead(a, comps)
  {
    if comps != [] { LeadKept(a, b, comps[..|comps| - 1]); }
  }

  lemma {:induction false} LeadStops(nodes: seq<Draft>, comps: seq<seq<byte>>, k: nat)
    requires k <= |comps| && Lead(nodes, comps[..k]).None?
    ensures Lead(nodes, comps).None?
  {
    if k == |comps| { assert comps[..k] == comps; } else {
      assert comps[..|comps| - 1][..k] == comps[..k];
      LeadStops(nodes, comps[..|comps| - 1], k);
    }
  }

  ghost predicate LeadsToFile(nodes: seq<Draft>, comps: seq<seq<byte>>) {
    var r := Lead(nodes, comps);
    r.Some? && r.value < |nodes| && nodes[r.value].kind != Directory
  }

  /** Some component within the first `n` names something that is not a directory. */
  ghost predicate Obstructed(nodes: seq<Draft>, comps: seq<seq<byte>>, n: nat)
    requires n <= |comps|
  {
    exists k :: 0 < k <= n && !Skipped(comps[k - 1]) && LeadsToFile(nodes, comps[..k])
  }

  /** The way to the parent already goes through its entry of the new name. */
  ghost predicate Crosses(nodes: seq<Draft>, comps: seq<seq<byte>>)
    requires comps != []
  {
    var n := |comps| - 1;
    exists k :: 0 <= k < n && comps[k] == comps[n] && SameLead(nodes, comps[..k], comps[..n])
  }

  ghost predicate SameLead(nodes: seq<Draft>, p: seq<seq<byte>>, q: seq<seq<byte>>) {
    Lead(nodes, p).Some? && Lead(nodes, p) == Lead(nodes, q)
  }

  /** The nodes with one entry bound anew. */
  function Rebound(nodes: seq<Draft>, p: nat, name: seq<byte>, x: nat): seq<Draft>
    requires p < |nodes|
  {
    nodes[p := nodes[p].(children := nodes[p].children[name := x])]
  }

  /** A path that does not use the bound entry leads where it did. */
  lemma {:induction false} LeadAround(nodes: seq<Draft>, p: nat, name: seq<byte>, x: nat, comps: seq<seq<byte>>)
    requires p < |nodes| && forall k :: 0 <= k < |comps| && comps[k] == name ==> Lead(nodes, comps[..k]) != Some(p)
    ensures Lead(Rebound(nodes, p, name, x), comps) == Lead(nodes, comps)
  {
    if comps != [] {
      var n := |comps| - 1;
      forall k | 0 <= k < n && comps[..n][k] == name ensures Lead(nodes, comps[..n][..k]) != Some(p) {
        assert comps[..n][..k] == comps[..k];
      }
      LeadAround(nodes, p, name, x, comps[..n]);
      assert comps[n] == name ==> Lead(nodes, comps[..n]) != Some(p);
    }
  }

  class Builder {
    var nodes: seq<Draft>
    var spool: seq<byte>
    var current: Option<nat>

    /** The file being written is regular, and its bytes end where the spool ends. */
    ghost predicate Valid()
      reads this
    {
      && |nodes| > 0 && (forall i :: 0 <= i < |nodes| ==> DraftOk(nodes[i], |nodes|, |spool|))
      && (current.Some? ==> current.value < |nodes| && Growing(nodes[current.value], |spool|))
    }

    constructor ()
      ensures Valid() && nodes == [NewDir()] && current.None?
    {
      nodes, spool, current := [NewDir()], [], None;
    }

    /** ensure_dir: missing components become directories; it fails exactly if some
        component is there and is not a directory, and then nothing has changed. */
    method EnsureDir(comps: seq<seq<byte>>) returns (ok: bool, idx: nat)
      requires Valid()
      modifies `nodes
      ensures Valid() && idx < |nodes| && Extends(old(nodes), nodes)
      ensures ok <==> !Obstructed(old(nodes), comps, |comps|)
      ensures ok ==> Lead(nodes, comps) == Some(idx) && (nodes == old(nodes) || idx >= |old(nodes)|)
      ensures ok && nodes != old(nodes) && (forall k :: 0 <= k < |comps| ==> !Skipped(comps[k])) ==>
        forall k :: 0 <= k < |comps| ==> Lead(nodes, comps[..k]) != Some(idx)
      ensures !ok ==> nodes == old(nodes)
    {
      hide LeadsToFile, Extends, Lead, NamesKept, SameBut;
      ok, idx := true, 0;
      ExtendsSelf(nodes);
      RootLeads(nodes);
      assert comps[..|comps|] == comps;
      ghost var was := nodes;
      for k := 0 to |comps|
        invariant Valid() && idx < |nodes| && Extends(was, nodes) && Lead(nodes, comps[..k]) == Some(idx)
        invariant !Obstructed(was, comps, k)
        invariant nodes != was ==> idx >= |was| && nodes[idx].children == map[] && Lead(was, comps[..k]).None?
        invariant nodes != was && (forall j :: 0 <= j < k ==> !Skipped(comps[j])) ==> forall j :: 0 <= j < k ==>
          Lead(nodes, comps[..j]) != Some(idx)
      {
        assert comps[..k + 1][..k] == comps[..k];
        ObstructedNext(was, comps, k);
        if Skipped(comps[k]) { SkipStep(nodes, comps[..k + 1]); SkipStep(was, comps[..k + 1]); continue; }
        StopStep(was, comps[..k + 1]);
        if comps[k] in nodes[idx].children {
          assert DraftOk(nodes[idx], |nodes|, |spool|);
          LastStep(nodes, comps[..k + 1], idx);
          var c := nodes[idx].children[comps[k]];
          LeadsTo(nodes, comps[..k + 1], c);
          if nodes[c].kind != Directory { ObstructedThen(was, comps, k + 1, |comps|); return false, idx; }
          idx := c;
        } else {
          ghost var before, parent := nodes, idx;
          idx := AddChild(idx, comps[k], NewDir());
          Extended(before, nodes);
          ExtendsOn(was, before, nodes);
          ExtendsLead(before, nodes, comps[..k]);
          LastStep(nodes, comps[..k + 1], parent);
          forall j | 0 <= j < k + 1
            ensures Lead(nodes, comps[..j]) != Some(idx)
          {
            NewNode(before, nodes, comps, j, k);
          }
          if before == was { NoStep(was, comps[..k + 1], parent); }
          LeadStopped(was, comps[..k + 1]);
        }
      }
    }

    method AddChild(parent: nat, name: seq<byte>, d: Draft) returns (idx: nat)
      requires Valid() && parent < |nodes| && name !in nodes[parent].children && d.children == map[] && d.spooled.None?
      requires (d.kind == Device || d.kind == Pipe ==> d.target == []) && Typed(d.kind, d.mode)
      modifies `nodes
      ensures Valid() && idx == |old(nodes)| && |nodes| == idx + 1 && nodes[idx] == d
      ensures nodes[parent] == old(nodes)[parent].(children := old(nodes)[parent].children[name := idx])
      ensures forall i :: 0 <= i < idx && i != parent ==> nodes[i] == old(nodes)[i]
      ensures NamesKept(old(nodes), nodes) && SameBut(old(nodes), nodes, idx)
    {
      idx := |nodes|;
      nodes := nodes + [d];
      nodes := nodes[parent := nodes[parent].(children := nodes[parent].children[name := idx])];
      forall i | 0 <= i < |nodes| ensures DraftOk(nodes[i], |nodes|, |spool|) {
        if i < idx { assert DraftOk(old(nodes)[i], idx, |spool|); }
      }
    }

    /** create: the path leads to a node with the caller's metadata, a link with its target,
        a file with nothing written yet; every other node keeps its bytes. It fails exactly
        if the parent path is obstructed, and then nothing has changed. */
    method Create(comps: seq<seq<byte>>, f: File) returns (ok: bool, idx: nat)
      requires Valid() && Typed(f.kind, f.mode) && forall k :: 0 <= k < |comps| ==> !Skipped(comps[k])
      modifies `nodes, `current
      ensures Valid() && idx < |nodes| && |old(nodes)| <= |nodes|
      ensures ok <==> comps == [] || !Obstructed(old(nodes), comps, |comps| - 1)
      ensures !ok ==> nodes == old(nodes)
      ensures ok ==>
        && Lead(nodes, comps) == Some(idx)
        && forall p :: Lead(old(nodes), p).Some? ==> Lead(nodes, p) == Lead(old(nodes), p)
      ensures ok && comps != [] ==> Describes(f, nodes[idx])
      ensures ok && comps != [] ==>
        (f.kind != Directory ==> BytesOf(nodes[idx], spool) == if f.kind == Symlink then f.linkname else [])
      ensures ok ==> current == if comps != [] && f.kind == Regular then Some(idx) else None
      ensures SameBut(old(nodes), nodes, idx)
    {
      hide Obstructed, Lead, Extends, NamesKept, SameBut;
      BothKept(nodes, nodes, nodes, 0);
      current, idx := None, 0;
      if comps == [] { RootLeads(nodes); return true, 0; }
      var base := comps[|comps| - 1];
      var parent;
      ObstructedFront(nodes, comps);
      ok, parent := EnsureDir(comps[..|comps| - 1]);
      if !ok { return; }
      ghost var mid := nodes;
      var target := if f.kind == Symlink then f.linkname else [];
      if base in nodes[parent].children {
        idx := nodes[parent].children[base];
        assert DraftOk(nodes[parent], |nodes|, |spool|);
        Override(idx, f, target);
      } else {
        idx := AddChild(parent, base, Draft(f.kind, f.mode, f.uid, f.gid, f.rdev, f.xattrs, target, None, map[]));
      }
      BothKept(old(nodes), mid, nodes, idx);
      LeadKept(mid, nodes, comps[..|comps| - 1]);
      LastStep(nodes, comps, parent);
      forall p | Lead(old(nodes), p).Some?
        ensures Lead(nodes, p) == Lead(old(nodes), p)
      {
        LeadKept(old(nodes), nodes, p);
      }
      if f.kind == Regular { current := Some(idx); }
    }

    /** A node that is already there takes the caller's metadata; unless it becomes a
        directory, what it held is dropped. */
    method Override(idx: nat, f: File, target: seq<byte>)
      requires Valid() && current.None? && idx < |nodes| && Typed(f.kind, f.mode)
      requires (f.kind != Symlink ==> target == [])
      modifies `nodes
      ensures Valid() && |nodes| == |old(nodes)| && Describes(f, nodes[idx])
      ensures nodes[idx].children == old(nodes)[idx].children
      ensures if f.kind == Directory
              then nodes[idx].target == old(nodes)[idx].target && nodes[idx].spooled == old(nodes)[idx].spooled
              else nodes[idx].target == target && nodes[idx].spooled.None?
      ensures NamesKept(old(nodes), nodes) && SameBut(old(nodes), nodes, idx)
    {
      var d := nodes[idx].(kind := f.kind, mode := f.mode, uid := f.uid, gid := f.gid, rdev := f.rdev,
                           xattrs := f.xattrs);
      if f.kind != Directory { d := d.(target := target, spooled := None); }
      assert DraftOk(nodes[idx], |nodes|, |spool|);
      nodes := nodes[idx := d];
    }

    /** link: one more name for an existing node. It fails exactly if the old path leads
        nowhere, the new parent path is obstructed, or the new name has no component, where
        the source splits an empty list; afterwards the new path leads to the old node, unless
        the way there uses the entry that was bound. */
    method Link(source: seq<seq<byte>>, comps: seq<seq<byte>>) returns (ok: bool)
      requires Valid() && forall k :: 0 <= k < |comps| ==> !Skipped(comps[k])
      modifies `nodes, `current
      ensures Valid() && |old(nodes)| <= |nodes| && current.None?
      ensures ok <==> comps != [] && Lead(old(nodes), source).Some? && !Obstructed(old(nodes), comps, |comps| - 1)
      ensures !ok ==> nodes == old(nodes)
      ensures ok && !Crosses(old(nodes), comps) ==> Lead(nodes, comps) == Lead(old(nodes), source)
      ensures ok ==> HeldUnder(nodes, comps[|comps| - 1], Lead(old(nodes), source).value)
      ensures forall i :: 0 <= i < |old(nodes)| ==> nodes[i] == old(nodes)[i].(children := nodes[i].children)
    {
      hide Obstructed, Lead, Crosses;
      current := None;
      var src := Resolve(source);
      if src.None? || comps == [] { return false; }
      var parent;
      ObstructedFront(nodes, comps);
      ok, parent := EnsureDir(comps[..|comps| - 1]);
      if !ok { return; }
      assert DraftOk(nodes[parent], |nodes|, |spool|);
      var name := comps[|comps| - 1];
      ghost var mid := nodes;
      nodes := Rebound(nodes, parent, name, src.value);
      assert name in nodes[parent].children && nodes[parent].children[name] == src.value;
      if !Crosses(old(nodes), comps) {
        var n := |comps| - 1;
        assert forall k :: 0 <= k < n ==> comps[..n][..k] == comps[..k];
        NewPath(old(nodes), mid, comps, parent, src.value);
      }
    }

    method Resolve(comps: seq<seq<byte>>) returns (r: Option<nat>)
      requires Valid()
      ensures r == Lead(nodes, comps) && (r.Some? ==> r.value < |nodes|)
    {
      var cur: nat := 0;
      assert comps[..|comps|] == comps;
      for k := 0 to |comps|
        invariant cur < |nodes| && Lead(nodes, comps[..k]) == Some(cur)
      {
        assert comps[..k + 1][..k] == comps[..k];
        if Skipped(comps[k]) { continue; }
        if comps[k] !in nodes[cur].children { LeadStops(nodes, comps, k + 1); return None; }
        assert DraftOk(nodes[cur], |nodes|, |spool|);
        cur := nodes[cur].children[comps[k]];
      }
      return Some(cur);
    }

    /** write: the chunk is appended to the current file, whatever was created or written
        before; no other node's bytes change. */
    method Write(buf: seq<byte>)
      requires Valid()
      modifies `nodes, `spool
      ensures Valid() && |nodes| == |old(nodes)|
      ensures forall i :: 0 <= i < |nodes| ==> nodes[i] == old(nodes)[i].(spooled := nodes[i].spooled)
      ensures forall i :: 0 <= i < |nodes| && current != Some(i) ==>
        BytesOf(nodes[i], spool) == BytesOf(old(nodes)[i], old(spool))
      ensures current.Some? ==>
        BytesOf(nodes[current.value], spool) == BytesOf(old(nodes)[current.value], old(spool)) + buf
    {
      if current.None? || buf == [] { NothingAdded(nodes, spool, current, buf); return; }
      var i, start := current.value, |spool|;
      spool := spool + buf;
      var was := nodes[i].spooled;
      var range := if was.Some? then Range(was.value.off, was.value.len + |buf|) else Range(start, |buf|);
      nodes := nodes[i := nodes[i].(spooled := Some(range))];
      hide BytesOf;
      forall j | 0 <= j < |nodes|
        ensures DraftOk(nodes[j], |nodes|, |spool|)
        ensures j != i ==> BytesOf(nodes[j], spool) == BytesOf(old(nodes)[j], old(spool))
      {
        assert DraftOk(old(nodes)[j], |nodes|, start);
        BytesStay(old(nodes)[j], |nodes|, old(spool), buf);
      }
      BytesAppended(old(nodes)[i], |nodes|, old(spool), buf, range);
    }
  }

  lemma NothingAdded(nodes: seq<Draft>, spool: seq<byte>, current: Option<nat>, buf: seq<byte>)
    requires buf == [] || current.None?
    ensures current.Some? ==> forall b: seq<byte> :: b + buf == b
    ensures forall i :: 0 <= i < |nodes| ==> nodes[i] == nodes[i].(spooled := nodes[i].spooled)
  {
  }

  lemma BytesStay(d: Draft, n: nat, spool: seq<byte>, more: seq<byte>)
    requires DraftOk(d, n, |spool|)
    ensures BytesOf(d, spool + more) == BytesOf(d, spool)
  {
  }

  lemma BytesAppended(d: Draft, n: nat, spool: seq<byte>, buf: seq<byte>, range: Range)
    requires DraftOk(d, n, |spool|) && Growing(d, |spool|)
    requires range == if d.spooled.Some? then Range(d.spooled.value.off, d.spooled.value.len + |buf|)
                      else Range(|spool|, |buf|)
    ensures BytesOf(d.(spooled := Some(range)), spool + buf) == BytesOf(d, spool) + buf
  {
  }

  ghost predicate Describes(f: File, d: Draft) {
    d.kind == f.kind && d.mode == f.mode && d.uid == f.uid && d.gid == f.gid && d.rdev == f.rdev && d.xattrs == f.xattrs
  }

  ghost predicate HeldUnder(nodes: seq<Draft>, name: seq<byte>, idx: nat) {
    exists p :: 0 <= p < |nodes| && name in nodes[p].children && nodes[p].children[name] == idx
  }

  // ---- steps along a path ----

  lemma ObstructedNext(nodes: seq<Draft>, comps: seq<seq<byte>>, k: nat)
    requires k < |comps| && !Obstructed(nodes, comps, k)
    ensures Obstructed(nodes, comps, k + 1) <==> !Skipped(comps[k]) && LeadsToFile(nodes, comps[..k + 1])
  {
    hide LeadsToFile;
    if !Skipped(comps[k]) && LeadsToFile(nodes, comps[..k + 1]) { assert !Skipped(comps[k + 1 - 1]); }
  }

  lemma ObstructedThen(nodes: seq<Draft>, comps: seq<seq<byte>>, k: nat, n: nat)
    requires k <= n <= |comps| && Obstructed(nodes, comps, k)
    ensures Obstructed(nodes, comps, n)
  {
    hide LeadsToFile;
  }

  lemma ObstructedFront(nodes: seq<Draft>, comps: seq<seq<byte>>)
    requires comps != []
    ensures var n := |comps| - 1; Obstructed(nodes, comps[..n], n) <==> Obstructed(nodes, comps, n)
  {
    hide LeadsToFile;
    var n := |comps| - 1;
    assert forall k :: 0 < k <= n ==> comps[..n][..k] == comps[..k] && comps[..n][k - 1] == comps[k - 1];
  }

  lemma LeadsTo(nodes: seq<Draft>, comps: seq<seq<byte>>, c: nat)
    requires Lead(nodes, comps) == Some(c) && c < |nodes|
    ensures LeadsToFile(nodes, comps) <==> nodes[c].kind != Directory
  {
  }

  lemma {:induction false} LeadInRange(nodes: seq<Draft>, comps: seq<seq<byte>>)
    requires |nodes| > 0 && forall i, c :: 0 <= i < |nodes| && c in nodes[i].children ==> nodes[i].children[c] < |nodes|
    ensures Lead(nodes, comps).Some? ==> Lead(nodes, comps).value < |nodes|
  {
    if comps != [] { LeadInRange(nodes, comps[..|comps| - 1]); }
  }

  /** A node that was just added is not on the way to its parent. */
  lemma NewNode(before: seq<Draft>, after: seq<Draft>, comps: seq<seq<byte>>, j: nat, k: nat)
    requires |before| > 0 && forall i, c :: 0 <= i < |before| && c in before[i].children ==>
      before[i].children[c] < |before|
    requires |before| < |after| && j <= k <= |comps| && Lead(before, comps[..k]).Some? && Extends(before, after)
    ensures Lead(after, comps[..j]) != Some(|before|)
  {
    hide Lead;
    assert comps[..k][..j] == comps[..j];
    if Lead(before, comps[..j]).None? { LeadStops(before, comps[..k], j); assert false; }
    LeadInRange(before, comps[..j]);
    hide Extends;
    ExtendsLead(before, after, comps[..j]);
  }

  lemma Extended(a: seq<Draft>, b: seq<Draft>)
    requires NamesKept(a, b) && SameBut(a, b, |a|)
    ensures Extends(a, b)
  {
  }

  lemma BothKept(a: seq<Draft>, b: seq<Draft>, c: seq<Draft>, x: nat)
    ensures Extends(a, b) && NamesKept(b, c) && SameBut(b, c, x) ==> NamesKept(a, c) && SameBut(a, c, x)
    ensures SameBut(a, a, x)
  {
  }

  lemma ExtendsSelf(a: seq<Draft>)
    ensures Extends(a, a)
  {
  }

  lemma ExtendsOn(a: seq<Draft>, b: seq<Draft>, c: seq<Draft>)
    requires Extends(a, b) && Extends(b, c)
    ensures Extends(a, c)
  {
  }

  lemma ExtendsLead(a: seq<Draft>, b: seq<Draft>, comps: seq<seq<byte>>)
    requires Extends(a, b) && Lead(a, comps).Some?
    ensures Lead(b, comps) == Lead(a, comps)
  {
    hide Lead, NamesKept;
    LeadKept(a, b, comps);
  }

  lemma SkipStep(nodes: seq<Draft>, comps: seq<seq<byte>>)
    requires comps != [] && Skipped(comps[|comps| - 1])
    ensures var d := Lead(nodes, comps[..|comps| - 1]);
      && (d.Some? && d.value < |nodes| ==> Lead(nodes, comps) == d) && (d.None? ==> Lead(nodes, comps).None?)
  {
  }

  lemma StopStep(nodes: seq<Draft>, comps: seq<seq<byte>>)
    requires comps != []
    ensures Lead(nodes, comps[..|comps| - 1]).None? ==> Lead(nodes, comps).None?
  {
  }

  lemma NoStep(nodes: seq<Draft>, comps: seq<seq<byte>>, parent: nat)
    requires comps != [] && Lead(nodes, comps[..|comps| - 1]) == Some(parent) && parent < |nodes|
    requires !Skipped(comps[|comps| - 1]) && comps[|comps| - 1] !in nodes[parent].children
    ensures Lead(nodes, comps).None?
  {
  }

  lemma LeadStopped(nodes: seq<Draft>, comps: seq<seq<byte>>)
    requires Lead(nodes, comps).None?
    ensures !LeadsToFile(nodes, comps)
  {
  }

  lemma RootLeads(nodes: seq<Draft>)
    ensures Lead(nodes, []) == Some(0)
  {
  }

  lemma LastStep(nodes: seq<Draft>, comps: seq<seq<byte>>, parent: nat)
    requires comps != [] && Lead(nodes, comps[..|comps| - 1]) == Some(parent) && parent < |nodes|
    requires !Skipped(comps[|comps| - 1]) && comps[|comps| - 1] in nodes[parent].children
    ensures Lead(nodes, comps) == Some(nodes[parent].children[comps[|comps| - 1]])
  {
  }

  /** After link the new path leads to the bound node. */
  lemma NewPath(was: seq<Draft>, mid: seq<Draft>, comps: seq<seq<byte>>, parent: nat, x: nat)
    requires comps != [] && !Skipped(comps[|comps| - 1]) && Extends(was, mid) && parent < |mid|
    requires Lead(mid, comps[..|comps| - 1]) == Some(parent) && !Crosses(was, comps)
    requires mid != was ==> forall k :: 0 <= k < |comps| - 1 ==> Lead(mid, comps[..k]) != Some(parent)
    ensures Lead(Rebound(mid, parent, comps[|comps| - 1], x), comps) == Some(x)
  {
    var n := |comps| - 1;
    hide Lead;
    forall k | 0 <= k < n && comps[..n][k] == comps[n] ensures Lead(mid, comps[..n][..k]) != Some(parent) {
      assert comps[..n][..k] == comps[..k];
    }
    LeadAround(mid, parent, comps[n], x, comps[..n]);
    LastStep(Rebound(mid, parent, comps[n], x), comps, parent);
  }
}
