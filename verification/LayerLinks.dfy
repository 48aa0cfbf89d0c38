/** Hard links in merged layers (ext4/src/tar_convert.rs): each kept link names a target, and
    whether that is streamed before the link follows from the layers. */
module LayerLinks {
  import opened Bytes
  import opened LayerMerge

  /** Entry `j` of layer `k` is streamed into the sink, as path `p`. */
  ghost predicate Emits(layers: seq<Layer>, k: nat, j: nat, p: string) {
    && k < |layers| && j < |layers[k]| && Classify(layers[k][j].name) == Regular(p)
    && Owns(layers, p, k) && !WhitedAnywhere(layers, p) && !OpaqueOver(layers, p, k)
  }

  ghost predicate Precedes(k: nat, j: nat, k2: nat, j2: nat) { k < k2 || (k == k2 && j < j2) }

  /** Something was streamed as `p` before entry `j` of layer `k`. */
  ghost predicate Earlier(layers: seq<Layer>, k: nat, j: nat, p: string) {
    exists k2: nat, j2: nat :: Precedes(k2, j2, k, j) && Emits(layers, k2, j2, p)
  }

  /** A kept hard link names a path streamed before it. */
  ghost predicate LinkOk(layers: seq<Layer>, k: nat, j: nat)
    requires k < |layers| && j < |layers[k]|
  {
    var e := layers[k][j];
    Emits(layers, k, j, Trim(e.name)) && e.target.Some? ==> Earlier(layers, k, j, Trim(e.target.value))
  }

  ghost predicate LinksOk(layers: seq<Layer>) {
    forall k: nat, j: nat :: k < |layers| && j < |layers[k]| ==> LinkOk(layers, k, j)
  }

  ghost predicate ProvidedBefore(l: Layer, j: nat, p: string) {
    exists i :: 0 <= i < j && i < |l| && Classify(l[i].name) == Regular(p)
  }

  /** The target is there exactly if the merge shows it, and its highest provider is a lower
      layer, or this one with an earlier entry. A target that a higher layer replaces, or
      that a whiteout anywhere deletes, is not. */
  lemma EarlierExactly(layers: seq<Layer>, k: nat, j: nat, p: string)
    requires k < |layers|
    ensures Earlier(layers, k, j, p) <==>
      exists o: nat :: Owns(layers, p, o) && !WhitedAnywhere(layers, p) && !OpaqueOver(layers, p, o)
                       && (o < k || (o == k && ProvidedBefore(layers[k], j, p)))
  {
    hide Classify, WhitedAnywhere, OpaqueOver;
    if Earlier(layers, k, j, p) {
      var k2: nat, j2: nat :| Precedes(k2, j2, k, j) && Emits(layers, k2, j2, p);
      assert k2 == k ==> ProvidedBefore(layers[k], j, p);
    }
    if o: nat :| Owns(layers, p, o) && !WhitedAnywhere(layers, p) && !OpaqueOver(layers, p, o)
                 && (o < k || (o == k && ProvidedBefore(layers[k], j, p))) {
      var i :| 0 <= i < |layers[o]| && Classify(layers[o][i].name) == Regular(p) && (o == k ==> i < j);
      assert Precedes(o, i, k, j) && Emits(layers, o, i, p);
    }
  }

  lemma KeptIsEmitted(layers: seq<Layer>, owner: map<string, nat>, deleted: set<string>, k: nat, j: nat)
    requires Mapped(layers, owner, deleted) && k < |layers| && j < |layers[k]|
    ensures var name := layers[k][j].name;
      !IsWhiteout(name) && Keeps(Trim(name), k, owner, deleted) <==> Emits(layers, k, j, Trim(name))
    ensures forall p :: Emits(layers, k, j, p) ==> p == Trim(layers[k][j].name)
  {
    var name := layers[k][j].name;
    WhiteoutsAreMarkers(name);
    hide Classify, IsWhiteout, Trim, WhitedAnywhere, OpaqueOver;
    if Classify(name).Regular? {
      var p := Trim(name);
      assert Provides(layers[k], p);
      ProvidedOwned(layers, p, k, owner, deleted);
      if Emits(layers, k, j, p) { OneOwner(layers, p, k, owner[p]); }
    }
  }

  /** What the sink holds before entry `j` of layer `k`. */
  ghost predicate Present(layers: seq<Layer>, k: nat, j: nat, paths: set<string>) {
    forall p :: p in paths <==> Earlier(layers, k, j, p)
  }

  lemma PresentNext(layers: seq<Layer>, k: nat, j: nat, paths: set<string>, name: string, more: set<string>)
    requires k < |layers| && j < |layers[k]| && Present(layers, k, j, paths)
    requires forall p :: Emits(layers, k, j, p) ==> p == name
    requires more == if Emits(layers, k, j, name) then paths + {name} else paths
    ensures Present(layers, k, j + 1, more)
  {
    hide Emits;
    forall p ensures p in more <==> Earlier(layers, k, j + 1, p) {
      if Earlier(layers, k, j, p) {
        var k2: nat, j2: nat :| Precedes(k2, j2, k, j) && Emits(layers, k2, j2, p);
        assert Precedes(k2, j2, k, j + 1);
      }
      if Emits(layers, k, j, p) { assert Precedes(k, j, k, j + 1); }
      if Earlier(layers, k, j + 1, p) {
        var k2: nat, j2: nat :| Precedes(k2, j2, k, j + 1) && Emits(layers, k2, j2, p);
        assert Precedes(k2, j2, k, j) || (k2 == k && j2 == j);
      }
    }
  }

  lemma PresentLayer(layers: seq<Layer>, k: nat, paths: set<string>)
    requires k < |layers| && Present(layers, k, |layers[k]|, paths)
    ensures Present(layers, k + 1, 0, paths)
  {
    forall p ensures Earlier(layers, k, |layers[k]|, p) <==> Earlier(layers, k + 1, 0, p) {
      hide Classify, Owns, WhitedAnywhere, OpaqueOver;
      if Earlier(layers, k, |layers[k]|, p) {
        var k2: nat, j2: nat :| Precedes(k2, j2, k, |layers[k]|) && Emits(layers, k2, j2, p);
        assert Precedes(k2, j2, k + 1, 0);
      }
      if Earlier(layers, k + 1, 0, p) {
        var k2: nat, j2: nat :| Precedes(k2, j2, k + 1, 0) && Emits(layers, k2, j2, p);
        assert Precedes(k2, j2, k, |layers[k]|);
      }
    }
  }

  lemma NothingYet(layers: seq<Layer>)
    ensures Present(layers, 0, 0, {})
  {
  }

  /** Whether every kept link names a path streamed before it. What a sink makes of the stream
      depends on more than that. */
  method MergeLinks(layers: seq<Layer>) returns (ok: bool)
    ensures ok <==> LinksOk(layers)
  {
    hide Emits, LinkOk, Present, Trim, IsWhiteout, Keeps, Mapped;
    if layers == [] { return true; }
    var owner, deleted := BuildOwnershipMap(layers);
    var paths: set<string> := {};
    NothingYet(layers);
    for k := 0 to |layers|
      invariant Present(layers, k, 0, paths)
      invariant forall k2: nat, j2: nat :: k2 < k && j2 < |layers[k2]| ==> LinkOk(layers, k2, j2)
    {
      for j := 0 to |layers[k]|
        invariant Present(layers, k, j, paths)
        invariant forall k2: nat, j2: nat :: k2 < |layers| && j2 < |layers[k2]| && (k2 < k || (k2 == k && j2 < j)) ==>
          LinkOk(layers, k2, j2)
      {
        var e := layers[k][j];
        KeptIsEmitted(layers, owner, deleted, k, j);
        LinkIs(layers, k, j, paths);
        ghost var before := paths;
        if !IsWhiteout(e.name) && Keeps(Trim(e.name), k, owner, deleted) {
          if e.target.Some? && Trim(e.target.value) !in paths { return false; }
          paths := paths + {Trim(e.name)};
        }
        PresentNext(layers, k, j, before, Trim(e.name), paths);
      }
      PresentLayer(layers, k, paths);
    }
    return true;
  }

  lemma LinkIs(layers: seq<Layer>, k: nat, j: nat, paths: set<string>)
    requires k < |layers| && j < |layers[k]| && Present(layers, k, j, paths)
    ensures var e := layers[k][j];
      LinkOk(layers, k, j) <==> (Emits(layers, k, j, Trim(e.name)) && e.target.Some? ==> Trim(e.target.value) in paths)
  {
    hide Emits, Earlier, Trim;
  }

  /** A link and its target in one layer, the target replaced above: each layer is in order
      by itself, and in the merged stream the link comes before its target. */
  lemma ReplacedTarget(a: seq<byte>, b: seq<byte>)
    ensures var low := [Entry("a", false, a, None), Entry("b", false, [], Some("a"))];
      LinksOk([low]) && !LinksOk([low, [Entry("a", false, b, None)]])
  {
    var e0, e1, e2 := Entry("a", false, a, None), Entry("b", false, [], Some("a")), Entry("a", false, b, None);
    var low, high := [e0, e1], [e2];
    SimpleNames();
    TrimmedA();
    hide Classify, Trim;
    TwoEntries(e0, e1, "a", "b");
    OneEntries(e2, "a");
    AloneOk(low);
    ReplacedFails(low, high);
  }

  lemma TrimmedA()
    ensures Trim("a") == "a" && Trim("b") == "b"
  {
  }

  lemma TwoEntries(x: Entry, y: Entry, p: string, q: string)
    requires Classify(x.name) == Regular(p) && Classify(y.name) == Regular(q)
    ensures forall r :: (Provides([x, y], r) <==> r == p || r == q) && !Whites([x, y], r) && !Opaques([x, y], r)
  {
    hide Classify;
    var l := [x, y];
    assert l[0] == x && l[1] == y;
    forall r ensures (Provides(l, r) <==> r == p || r == q) && !Whites(l, r) && !Opaques(l, r) {
      assert Provides(l, p) by { assert Classify(l[0].name) == Regular(p); }
      assert Provides(l, q) by { assert Classify(l[1].name) == Regular(q); }
    }
  }

  lemma OneEntries(x: Entry, p: string)
    requires Classify(x.name) == Regular(p)
    ensures forall r :: (Provides([x], r) <==> r == p) && !Whites([x], r) && !Opaques([x], r)
  {
    forall r ensures (Provides([x], r) <==> r == p) && !Whites([x], r) && !Opaques([x], r) { OneEntry(x, r); }
  }

  lemma AloneOk(low: Layer)
    requires |low| == 2 && low[0].target.None? && low[1].target == Some("a") && Trim("a") == "a"
    requires Classify(low[0].name) == Regular("a")
    requires forall r :: (Provides(low, r) <==> r == "a" || r == "b") && !Whites(low, r) && !Opaques(low, r)
    ensures LinksOk([low])
  {
    hide Classify, Trim, Provides, Whites, Opaques;
    var layers := [low];
    assert Owns(layers, "a", 0) && !WhitedAnywhere(layers, "a") && !OpaqueOver(layers, "a", 0);
    assert Emits(layers, 0, 0, "a") && Precedes(0, 0, 0, 1);
    forall k: nat, j: nat | k < |layers| && j < |layers[k]| ensures LinkOk(layers, k, j) {
      if j == 1 { assert Earlier(layers, 0, 1, "a"); }
    }
  }

  lemma ReplacedFails(low: Layer, high: Layer)
    requires |low| == 2 && low[1].target == Some("a") && low[1].name == "b" && Trim("a") == "a" && Trim("b") == "b"
    requires Classify("b") == Regular("b")
    requires forall r :: (Provides(low, r) <==> r == "a" || r == "b") && !Whites(low, r) && !Opaques(low, r)
    requires forall r :: (Provides(high, r) <==> r == "a") && !Whites(high, r) && !Opaques(high, r)
    ensures !LinksOk([low, high])
  {
    hide Classify, Trim, Provides, Whites, Opaques;
    var layers := [low, high];
    assert layers[0] == low && layers[1] == high;
    assert "b" != "a";
    assert Owns(layers, "b", 0) && !WhitedAnywhere(layers, "b") && !OpaqueOver(layers, "b", 0);
    assert Emits(layers, 0, 1, "b");
    EarlierExactly(layers, 0, 1, "a");
    assert Owns(layers, "a", 1);
    forall o: nat | Owns(layers, "a", o) ensures o == 1 { OneOwner(layers, "a", o, 1); }
    assert !Earlier(layers, 0, 1, "a");
    assert !LinkOk(layers, 0, 1);
  }
}
