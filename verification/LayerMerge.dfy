/** Merging OCI layers through an ownership map (ext4/src/tar_convert.rs), against
    applying them one after another, bottom to top, under the whiteout rules of the OCI
    image specification ("Whiteouts" in layer.md). */
module LayerMerge {
  import opened Bytes

  const WHITEOUT: string := ".wh."
  const OPAQUE: string := ".wh..wh..opq"

  /** A tar entry. A hard link has a target, and its body stands for the link itself. */
  datatype Entry = Entry(name: string, isDir: bool, body: seq<byte>, target: Option<string>)
  type Layer = seq<Entry>

  // ---- names ----

  function Trim(s: string): (r: string)
    ensures r <= s && (r == [] || r[|r| - 1] != '/')
    ensures forall i :: |r| <= i < |s| ==> s[i] == '/'
  {
    if s != [] && s[|s| - 1] == '/' then Trim(s[..|s| - 1]) else s
  }

  /** One past the last '/', 0 when there is none. */
  function AfterSlash(s: string): (r: nat)
    ensures r <= |s| && (r > 0 ==> s[r - 1] == '/') && forall i :: r <= i < |s| ==> s[i] != '/'
  {
    if s == [] then 0 else if s[|s| - 1] == '/' then |s| else AfterSlash(s[..|s| - 1])
  }

  datatype Marker = Opaque(dir: string) | Whiteout(target: string) | Regular(path: string)

  /** What an entry's name means: split into directory and file, then tested for the
      opaque marker and the whiteout prefix. */
  function Classify(name: string): Marker {
    var t := Trim(name);
    var n := AfterSlash(t);
    var dir, file := t[..n], t[n..];
    if t == [] then Regular(t) else ClassifyParts(dir, file)
  }

  function ClassifyParts(dir: string, file: string): Marker {
    if file == OPAQUE then Opaque(Trim(dir))
    else if WHITEOUT <= file then Whiteout(Trim(dir + file[|WHITEOUT|..]))
    else Regular(dir + file)
  }

  predicate IsWhiteout(name: string) {
    var t := Trim(name);
    t != [] && WHITEOUT <= t[AfterSlash(t)..]
  }

  lemma WhiteoutsAreMarkers(name: string)
    ensures IsWhiteout(name) <==> !Classify(name).Regular?
    ensures Classify(name).Regular? ==> Classify(name).path == Trim(name)
  {
    var t := Trim(name);
    assert t == t[..AfterSlash(t)] + t[AfterSlash(t)..];
    assert OPAQUE[..4] == WHITEOUT;
  }

  predicate IsChildOf(path: string, dir: string) {
    dir <= path && |path| > |dir| && path[|dir|] == '/'
  }

  /** Strictly below a directory; everything is below the root. */
  predicate Below(path: string, dir: string) { IsChildOf(path, dir) || (dir == "" && path != "") }

  // ---- what a layer says ----

  ghost predicate Provides(l: Layer, p: string) { exists i :: 0 <= i < |l| && Classify(l[i].name) == Regular(p) }
  ghost predicate Whites(l: Layer, p: string) { exists i :: 0 <= i < |l| && Classify(l[i].name) == Whiteout(p) }
  ghost predicate Opaques(l: Layer, d: string) { exists i :: 0 <= i < |l| && Classify(l[i].name) == Opaque(d) }
  ghost predicate Files(l: Layer, p: string) {
    exists i :: 0 <= i < |l| && Classify(l[i].name) == Regular(p) && !l[i].isDir
  }

  /** A layer hides a lower layer's path: whited out, inside a whited-out or opaque
      directory, or below something that is now not a directory. */
  ghost predicate Hides(l: Layer, p: string) {
    || Whites(l, p)
    || (exists t :: Whites(l, t) && Below(p, t))
    || (exists d :: Opaques(l, d) && Below(p, d))
    || (exists q :: Files(l, q) && Below(p, q))
  }

  /** The layer's own paths; a later entry replaces an earlier one. */
  function Contents(l: Layer): map<string, seq<byte>> {
    if l == [] then map[] else
    var rest, e := Contents(l[..|l| - 1]), l[|l| - 1];
    if Classify(e.name).Regular? then rest[Classify(e.name).path := e.body] else rest
  }

  lemma {:induction false} ContentsKeys(l: Layer, p: string)
    ensures p in Contents(l) <==> Provides(l, p)
  {
    hide Classify;
    if l != [] {
      var n := |l| - 1;
      ContentsKeys(l[..n], p);
      OneMore(l, n, p);
      assert l[..n + 1] == l;
    }
  }

  // ---- the reference: apply the layers in order ----

  ghost function Overlay(layers: seq<Layer>): map<string, seq<byte>> {
    if layers == [] then map[] else
    var n := |layers| - 1;
    var low := Overlay(layers[..n]);
    (map p | p in low && !Hides(layers[n], p) :: low[p]) + Contents(layers[n])
  }

  /** `k` is the highest layer providing `p`. */
  ghost predicate Owns(layers: seq<Layer>, p: string, k: nat) {
    k < |layers| && Provides(layers[k], p) && forall m :: k < m < |layers| ==> !Provides(layers[m], p)
  }

  ghost predicate HiddenAbove(layers: seq<Layer>, p: string, k: nat) {
    exists m :: k < m < |layers| && Hides(layers[m], p)
  }

  /** The overlay shows a path from its highest provider unless something above hides it. */
  lemma {:induction false} OverlayAt(layers: seq<Layer>, p: string)
    ensures p in Overlay(layers) <==> exists k: nat :: Owns(layers, p, k) && !HiddenAbove(layers, p, k)
    ensures forall k: nat :: p in Overlay(layers) && Owns(layers, p, k) ==>
      p in Contents(layers[k]) && Overlay(layers)[p] == Contents(layers[k])[p]
  {
    if layers != [] {
      var n := |layers| - 1;
      var low := layers[..n];
      OverlayAt(low, p);
      ContentsKeys(layers[n], p);
      if Provides(layers[n], p) {
        assert Owns(layers, p, n) && !HiddenAbove(layers, p, n);
        forall k: nat | Owns(layers, p, k) ensures k == n {}
      } else {
        forall k: nat ensures Owns(layers, p, k) <==> Owns(low, p, k) { OwnsBelow(layers, p, k); }
        forall k: nat | Owns(low, p, k)
          ensures HiddenAbove(layers, p, k) <==> HiddenAbove(low, p, k) || Hides(layers[n], p)
        {
          HiddenBelow(layers, p, k);
        }
      }
    }
  }

  lemma OwnsBelow(layers: seq<Layer>, p: string, k: nat)
    requires layers != [] && !Provides(layers[|layers| - 1], p)
    ensures Owns(layers, p, k) <==> Owns(layers[..|layers| - 1], p, k)
  {
    var low := layers[..|layers| - 1];
    assert forall m :: 0 <= m < |low| ==> low[m] == layers[m];
    if Owns(low, p, k) {
      forall m | k < m < |layers| ensures !Provides(layers[m], p) { if m < |low| { assert !Provides(low[m], p); } }
    }
    if Owns(layers, p, k) { forall m | k < m < |low| ensures !Provides(low[m], p) { assert !Provides(layers[m], p); } }
  }

  lemma HiddenBelow(layers: seq<Layer>, p: string, k: nat)
    requires k < |layers| - 1
    ensures HiddenAbove(layers, p, k) <==> HiddenAbove(layers[..|layers| - 1], p, k) || Hides(layers[|layers| - 1], p)
  {
    hide Hides;
    var low := layers[..|layers| - 1];
    if HiddenAbove(low, p, k) { var m :| k < m < |low| && Hides(low[m], p); assert Hides(layers[m], p); }
    if HiddenAbove(layers, p, k) {
      var m :| k < m < |layers| && Hides(layers[m], p);
      if m < |low| { assert Hides(low[m], p); }
    }
  }

  // ---- the ownership map ----

  /** What the scan knows once exactly the entries of `layers` have been read. */
  ghost predicate Scanned(layers: seq<Layer>, owner: map<string, nat>, whited: set<string>, opaques: map<string, nat>) {
    && (forall k, p {:trigger Provides(layers[k], p)} :: 0 <= k < |layers| && Provides(layers[k], p) ==> p in owner)
    && (forall p :: p in owner ==> Owns(layers, p, owner[p]))
    && (forall k, p {:trigger Whites(layers[k], p)} :: 0 <= k < |layers| && Whites(layers[k], p) ==> p in whited)
    && (forall p :: p in whited ==> exists k :: 0 <= k < |layers| && Whites(layers[k], p))
    && (forall k, d {:trigger Opaques(layers[k], d)} :: 0 <= k < |layers| && Opaques(layers[k], d) ==>
        d in opaques && k <= opaques[d])
    && (forall d :: d in opaques ==> opaques[d] < |layers| && Opaques(layers[opaques[d]], d))
  }

  /** The part read so far: layers above `k`, and the first `j` entries of layer `k`. */
  ghost function ReadSoFar(layers: seq<Layer>, k: nat, j: nat): seq<Layer>
    requires k < |layers| && j <= |layers[k]|
  {
    seq(|layers|, i requires 0 <= i < |layers| => if i < k then [] else if i == k then layers[k][..j] else layers[i])
  }

  lemma OneMore(l: Layer, j: nat, p: string)
    requires j < |l|
    ensures Provides(l[..j + 1], p) <==> Provides(l[..j], p) || Classify(l[j].name) == Regular(p)
    ensures Whites(l[..j + 1], p) <==> Whites(l[..j], p) || Classify(l[j].name) == Whiteout(p)
    ensures Opaques(l[..j + 1], p) <==> Opaques(l[..j], p) || Classify(l[j].name) == Opaque(p)
  {
    hide Classify;
    var a, b := l[..j], l[..j + 1];
    assert b == a + [l[j]];
    if Provides(a, p) {
      var i :| 0 <= i < |a| && Classify(a[i].name) == Regular(p);
      assert Classify(b[i].name) == Regular(p);
    }
    if Whites(a, p) {
      var i :| 0 <= i < |a| && Classify(a[i].name) == Whiteout(p);
      assert Classify(b[i].name) == Whiteout(p);
    }
    if Opaques(a, p) {
      var i :| 0 <= i < |a| && Classify(a[i].name) == Opaque(p);
      assert Classify(b[i].name) == Opaque(p);
    }
    assert b[j] == l[j];
  }

  lemma ScanStep(layers: seq<Layer>, k: nat, j: nat, owner: map<string, nat>, whited: set<string>,
                 opaques: map<string, nat>,
                 owner2: map<string, nat>, whited2: set<string>, opaques2: map<string, nat>)
    requires k < |layers| && j < |layers[k]| && Scanned(ReadSoFar(layers, k, j), owner, whited, opaques)
    requires match Classify(layers[k][j].name)
      case Opaque(d) =>
        owner2 == owner && whited2 == whited && opaques2 == (if d in opaques then opaques else opaques[d := k])
      case Whiteout(t) => owner2 == owner && whited2 == whited + {t} && opaques2 == opaques
      case Regular(p) =>
        owner2 == (if p in owner then owner else owner[p := k]) && whited2 == whited && opaques2 == opaques
    ensures Scanned(ReadSoFar(layers, k, j + 1), owner2, whited2, opaques2)
  {
    hide Classify, Provides, Whites, Opaques;
    var a, b, m := ReadSoFar(layers, k, j), ReadSoFar(layers, k, j + 1), Classify(layers[k][j].name);
    forall p: string
      ensures Provides(b[k], p) <==> Provides(a[k], p) || m == Regular(p)
      ensures Whites(b[k], p) <==> Whites(a[k], p) || m == Whiteout(p)
      ensures Opaques(b[k], p) <==> Opaques(a[k], p) || m == Opaque(p)
    {
      OneMore(layers[k], j, p);
    }
    forall i, p: string | 0 <= i < k
      ensures !Provides(b[i], p) && !Whites(b[i], p) && !Opaques(b[i], p)
    {
      NothingIn(p);
    }
    assert forall i :: 0 <= i < |layers| && i != k ==> a[i] == b[i];
    ScanOwners(a, b, k, m, owner, owner2);
    ScanWhited(a, b, k, m, whited, whited2);
    ScanOpaques(a, b, k, m, opaques, opaques2);
  }

  lemma NothingIn(p: string)
    ensures !Provides([], p) && !Whites([], p) && !Opaques([], p)
  {
  }

  /** `b` is `a` with one more entry, meaning `m`, in layer `k`. */
  ghost predicate SameBut(a: seq<Layer>, b: seq<Layer>, k: nat) {
    |a| == |b| && k < |a| && forall i :: 0 <= i < |a| && i != k ==> a[i] == b[i]
  }

  lemma ScanOwners(a: seq<Layer>, b: seq<Layer>, k: nat, m: Marker, owner: map<string, nat>, owner2: map<string, nat>)
    requires SameBut(a, b, k)
    requires forall p :: Provides(b[k], p) <==> Provides(a[k], p) || m == Regular(p)
    requires forall i, p {:trigger Provides(b[i], p)} :: 0 <= i < k ==> !Provides(b[i], p)
    requires forall i, p {:trigger Provides(a[i], p)} :: 0 <= i < |a| && Provides(a[i], p) ==> p in owner
    requires forall p :: p in owner ==> Owns(a, p, owner[p])
    requires owner2 == (if m.Regular? && m.path !in owner then owner[m.path := k] else owner)
    ensures forall i, p {:trigger Provides(b[i], p)} :: 0 <= i < |b| && Provides(b[i], p) ==> p in owner2
    ensures forall p :: p in owner2 ==> Owns(b, p, owner2[p])
  {
    hide Provides;
    forall p | p in owner2 ensures Owns(b, p, owner2[p]) {
      if p in owner {
        assert Owns(a, p, owner[p]);
      } else {
        forall i | k < i < |b| ensures !Provides(b[i], p) { assert !Provides(a[i], p); }
      }
    }
    forall i, p | 0 <= i < |b| && Provides(b[i], p) ensures p in owner2 { if i != k { assert Provides(a[i], p); } }
  }

  lemma ScanWhited(a: seq<Layer>, b: seq<Layer>, k: nat, m: Marker, whited: set<string>, whited2: set<string>)
    requires SameBut(a, b, k)
    requires forall p :: Whites(b[k], p) <==> Whites(a[k], p) || m == Whiteout(p)
    requires forall i, p {:trigger Whites(a[i], p)} :: 0 <= i < |a| && Whites(a[i], p) ==> p in whited
    requires forall p :: p in whited ==> exists i :: 0 <= i < |a| && Whites(a[i], p)
    requires whited2 == (if m.Whiteout? then whited + {m.target} else whited)
    ensures forall i, p {:trigger Whites(b[i], p)} :: 0 <= i < |b| && Whites(b[i], p) ==> p in whited2
    ensures forall p :: p in whited2 ==> exists i :: 0 <= i < |b| && Whites(b[i], p)
  {
    hide Whites;
    forall p | p in whited2 ensures exists i :: 0 <= i < |b| && Whites(b[i], p) {
      if p in whited {
        var i :| 0 <= i < |a| && Whites(a[i], p);
        assert Whites(b[i], p);
      } else {
        assert Whites(b[k], p);
      }
    }
    forall i, p | 0 <= i < |b| && Whites(b[i], p) ensures p in whited2 { if i != k { assert Whites(a[i], p); } }
  }

  lemma ScanOpaques(a: seq<Layer>, b: seq<Layer>, k: nat, m: Marker, opaques: map<string, nat>,
                    opaques2: map<string, nat>)
    requires SameBut(a, b, k)
    requires forall p :: Opaques(b[k], p) <==> Opaques(a[k], p) || m == Opaque(p)
    requires forall i, p {:trigger Opaques(b[i], p)} :: 0 <= i < k ==> !Opaques(b[i], p)
    requires forall i, d {:trigger Opaques(a[i], d)} :: 0 <= i < |a| && Opaques(a[i], d) ==>
      d in opaques && i <= opaques[d]
    requires forall d :: d in opaques ==> opaques[d] < |a| && Opaques(a[opaques[d]], d)
    requires opaques2 == (if m.Opaque? && m.dir !in opaques then opaques[m.dir := k] else opaques)
    ensures forall i, d {:trigger Opaques(b[i], d)} :: 0 <= i < |b| && Opaques(b[i], d) ==>
      d in opaques2 && i <= opaques2[d]
    ensures forall d :: d in opaques2 ==> opaques2[d] < |b| && Opaques(b[opaques2[d]], d)
  {
    hide Opaques;
    forall d | d in opaques2 ensures opaques2[d] < |b| && Opaques(b[opaques2[d]], d) {
      if d in opaques { assert Opaques(a[opaques[d]], d); }
    }
    forall i, d | 0 <= i < |b| && Opaques(b[i], d) ensures d in opaques2 && i <= opaques2[d] {
      if i != k { assert Opaques(a[i], d); }
      else if d in opaques { assert Opaques(a[opaques[d]], d); }
    }
  }

  lemma ReadNext(layers: seq<Layer>, k: nat)
    requires k < |layers|
    ensures k + 1 < |layers| ==> ReadSoFar(layers, k, 0) == ReadSoFar(layers, k + 1, |layers[k + 1]|)
    ensures ReadSoFar(layers, 0, |layers[0]|) == layers
  {
    var all := ReadSoFar(layers, 0, |layers[0]|);
    assert forall i :: 0 <= i < |layers| ==> all[i] == layers[i];
    if k + 1 < |layers| {
      var a, b := ReadSoFar(layers, k, 0), ReadSoFar(layers, k + 1, |layers[k + 1]|);
      assert forall i :: 0 <= i < |layers| ==> a[i] == b[i];
    }
  }

  /** Nothing has been read: every layer looks empty. */
  lemma ReadNothing(layers: seq<Layer>)
    requires |layers| > 0
    ensures Scanned(ReadSoFar(layers, |layers| - 1, 0), map[], {}, map[])
  {
    hide Provides, Whites, Opaques;
    var a := ReadSoFar(layers, |layers| - 1, 0);
    forall i, p: string | 0 <= i < |a| ensures !Provides(a[i], p) && !Whites(a[i], p) && !Opaques(a[i], p) {
      assert a[i] == [];
      NothingIn(p);
    }
  }

  /** A path that an opaque directory in a layer above its owner takes away. */
  ghost predicate UnderOpaque(p: string, k: nat, opaques: map<string, nat>) {
    exists d :: d in opaques && k < opaques[d] && IsChildOf(p, d)
  }

  /** The top-to-bottom scan: the first insert for a path or a directory wins. */
  method ScanLayers(layers: seq<Layer>) returns (owner: map<string, nat>, whited: set<string>,
                    opaques: map<string, nat>)
    requires |layers| > 0
    ensures Scanned(layers, owner, whited, opaques)
  {
    hide Scanned, Classify, ReadSoFar;
    owner, whited, opaques := map[], {}, map[];
    ReadNothing(layers);
    var k := |layers|;
    while k > 0
      invariant 0 <= k <= |layers|
      invariant k == |layers| ==> Scanned(ReadSoFar(layers, |layers| - 1, 0), owner, whited, opaques)
      invariant k < |layers| ==> Scanned(ReadSoFar(layers, k, |layers[k]|), owner, whited, opaques)
    {
      k := k - 1;
      ReadNext(layers, k);
      for j := 0 to |layers[k]|
        invariant Scanned(ReadSoFar(layers, k, j), owner, whited, opaques)
      {
        ghost var o, w, q := owner, whited, opaques;
        match Classify(layers[k][j].name) {
          case Opaque(d) => if d !in opaques { opaques := opaques[d := k]; }
          case Whiteout(t) => whited := whited + {t};
          case Regular(p) => if p !in owner { owner := owner[p := k]; }
        }
        ScanStep(layers, k, j, o, w, q, owner, whited, opaques);
      }
    }
    ReadNext(layers, 0);
  }

  /** Some opaque directory takes `p` away from layer `k`. */
  method HitByOpaque(p: string, k: nat, opaques: map<string, nat>) returns (hit: bool)
    ensures hit <==> UnderOpaque(p, k, opaques)
  {
    var dirs := opaques.Keys;
    while dirs != {}
      invariant dirs <= opaques.Keys
      invariant forall d :: d in opaques && d !in dirs ==> !(k < opaques[d] && IsChildOf(p, d))
      decreases |dirs|
    {
      var d :| d in dirs;
      if k < opaques[d] && IsChildOf(p, d) { return true; }
      dirs := dirs - {d};
    }
    return false;
  }

  ghost predicate WhitedAnywhere(layers: seq<Layer>, p: string) {
    exists k :: 0 <= k < |layers| && Whites(layers[k], p)
  }

  ghost predicate OpaqueOver(layers: seq<Layer>, p: string, k: nat) {
    exists m :: k < m < |layers| && OpaqueIn(layers[m], p)
  }

  ghost predicate OpaqueIn(l: Layer, p: string) { exists d :: Opaques(l, d) && IsChildOf(p, d) }

  /** The finished map: the highest provider of every path, and which paths are dropped. */
  ghost predicate Mapped(layers: seq<Layer>, owner: map<string, nat>, deleted: set<string>) {
    && (forall k: nat, p :: Owns(layers, p, k) ==> p in owner)
    && (forall p :: p in owner ==> Owns(layers, p, owner[p]))
    && (forall p :: p in owner ==> (p in deleted <==> WhitedAnywhere(layers, p) || OpaqueOver(layers, p, owner[p])))
  }

  /** build_ownership_map: scan, then add what opaque directories delete. */
  method BuildOwnershipMap(layers: seq<Layer>) returns (owner: map<string, nat>, deleted: set<string>)
    requires |layers| > 0
    ensures Mapped(layers, owner, deleted)
  {
    hide Scanned, IsChildOf, UnderOpaque;
    var opaques;
    owner, deleted, opaques := ScanLayers(layers);
    ghost var whited := deleted;
    var paths := owner.Keys;
    while paths != {}
      invariant paths <= owner.Keys
      invariant forall p :: p in owner ==>
        (p in deleted <==> p in whited || (p !in paths && UnderOpaque(p, owner[p], opaques)))
      decreases |paths|
    {
      var p :| p in paths;
      paths := paths - {p};
      var hit := HitByOpaque(p, owner[p], opaques);
      if hit { deleted := deleted + {p}; }
    }
    forall p | p in owner
      ensures Owns(layers, p, owner[p])
      ensures (p in deleted <==> WhitedAnywhere(layers, p) || OpaqueOver(layers, p, owner[p]))
    {
      ScanMeans(layers, owner, whited, opaques, p);
    }
    forall k: nat, p | Owns(layers, p, k) ensures p in owner { ScanFinds(layers, owner, whited, opaques, p, k); }
  }

  lemma ScanFinds(layers: seq<Layer>, owner: map<string, nat>, whited: set<string>, opaques: map<string, nat>,
                  p: string, k: nat)
    requires Scanned(layers, owner, whited, opaques) && Owns(layers, p, k)
    ensures p in owner
  {
  }

  lemma ScanMeans(layers: seq<Layer>, owner: map<string, nat>, whited: set<string>, opaques: map<string, nat>,
                  p: string)
    requires Scanned(layers, owner, whited, opaques) && p in owner
    ensures Owns(layers, p, owner[p])
    ensures p in whited <==> WhitedAnywhere(layers, p)
    ensures UnderOpaque(p, owner[p], opaques) <==> OpaqueOver(layers, p, owner[p])
  {
    hide Whites, Provides, Opaques, IsChildOf;
    if UnderOpaque(p, owner[p], opaques) {
      var d :| d in opaques && owner[p] < opaques[d] && IsChildOf(p, d);
      assert OpaqueIn(layers[opaques[d]], p);
    }
    if OpaqueOver(layers, p, owner[p]) {
      var m :| owner[p] < m < |layers| && OpaqueIn(layers[m], p);
      var d :| Opaques(layers[m], d) && IsChildOf(p, d);
      assert m <= opaques[d];
    }
  }

  // ---- the second pass ----

  datatype Out = Out(path: string, body: seq<byte>)

  predicate Keeps(p: string, k: nat, owner: map<string, nat>, deleted: set<string>) {
    p !in deleted && (p in owner ==> owner[p] == k)
  }

  function Meaning(out: seq<Out>): map<string, seq<byte>> {
    if out == [] then map[] else Meaning(out[..|out| - 1])[out[|out| - 1].path := out[|out| - 1].body]
  }

  lemma {:induction false} MeaningJoin(a: seq<Out>, b: seq<Out>)
    ensures Meaning(a + b) == Meaning(a) + Meaning(b)
  {
    if b == [] { assert a + b == a; } else {
      var n := |b| - 1;
      MeaningJoin(a, b[..n]);
      assert (a + b)[..|a| + n] == a + b[..n];
      assert Meaning(a + b) == Meaning(a + b[..n])[b[n].path := b[n].body];
      assert Meaning(b) == Meaning(b[..n])[b[n].path := b[n].body];
      hide Meaning;
    }
  }

  ghost function Kept(m: map<string, seq<byte>>, k: nat, owner: map<string, nat>,
                      deleted: set<string>): map<string, seq<byte>> {
    map p | p in m && Keeps(p, k, owner, deleted) :: m[p]
  }

  /** write_layer_entries: what the layer adds is its own contents, kept by owner. */
  method WriteLayerEntries(layer: Layer, k: nat, owner: map<string, nat>, deleted: set<string>) returns (out: seq<Out>)
    ensures Meaning(out) == Kept(Contents(layer), k, owner, deleted)
  {
    hide Classify, IsWhiteout, Contents, Meaning, Kept, Keeps;
    out := [];
    NothingWritten(k, owner, deleted);
    assert layer[..0] == [];
    for j := 0 to |layer|
      invariant Meaning(out) == Kept(Contents(layer[..j]), k, owner, deleted)
    {
      var e := layer[j];
      EntryWritten(layer, j, k, owner, deleted, out);
      WhiteoutsAreMarkers(e.name);
      if !IsWhiteout(e.name) && Keeps(Trim(e.name), k, owner, deleted) { out := out + [Out(Trim(e.name), e.body)]; }
    }
    assert layer[..|layer|] == layer;
  }

  lemma NothingWritten(k: nat, owner: map<string, nat>, deleted: set<string>)
    ensures Meaning([]) == Kept(Contents([]), k, owner, deleted)
  {
  }

  lemma KeptUpdate(m: map<string, seq<byte>>, p: string, b: seq<byte>, k: nat, owner: map<string, nat>,
                   deleted: set<string>)
    ensures Kept(m[p := b], k, owner, deleted) ==
      if Keeps(p, k, owner, deleted) then Kept(m, k, owner, deleted)[p := b] else Kept(m, k, owner, deleted)
  {
    hide Keeps;
  }

  lemma EntryWritten(layer: Layer, j: nat, k: nat, owner: map<string, nat>, deleted: set<string>, out: seq<Out>)
    requires j < |layer| && Meaning(out) == Kept(Contents(layer[..j]), k, owner, deleted)
    ensures var m := Classify(layer[j].name);
      Kept(Contents(layer[..j + 1]), k, owner, deleted) ==
        if m.Regular? && Keeps(m.path, k, owner, deleted) then Meaning(out + [Out(m.path, layer[j].body)])
        else Meaning(out)
  {
    var a, b, m := layer[..j], layer[..j + 1], Classify(layer[j].name);
    assert b[..|b| - 1] == a && b[|b| - 1] == layer[j];
    hide Classify, Keeps;
    if m.Regular? {
      var o := Out(m.path, layer[j].body);
      assert Contents(b) == Contents(a)[m.path := o.body];
      assert (out + [o])[..|out|] == out;
      assert Meaning(out + [o]) == Meaning(out)[o.path := o.body];
      hide Contents, Meaning, Kept;
      KeptUpdate(Contents(a), m.path, o.body, k, owner, deleted);
    } else {
      assert Contents(b) == Contents(a);
    }
  }

  ghost function Merged(layers: seq<Layer>, n: nat, owner: map<string, nat>,
                        deleted: set<string>): map<string, seq<byte>>
    requires n <= |layers| && Mapped(layers, owner, deleted)
  {
    map p | p in owner && owner[p] < n && p !in deleted :: OwnContents(layers, owner, deleted, p)
  }

  ghost function OwnContents(layers: seq<Layer>, owner: map<string, nat>, deleted: set<string>, p: string): seq<byte>
    requires Mapped(layers, owner, deleted) && p in owner
  {
    ContentsKeys(layers[owner[p]], p);
    Contents(layers[owner[p]])[p]
  }

  lemma MergeLayer(layers: seq<Layer>, k: nat, owner: map<string, nat>, deleted: set<string>)
    requires k < |layers| && Mapped(layers, owner, deleted)
    ensures Merged(layers, k, owner, deleted) + Kept(Contents(layers[k]), k, owner, deleted) ==
      Merged(layers, k + 1, owner, deleted)
  {
    hide Mapped, Contents, OwnContents, Kept;
    var a, c := Merged(layers, k, owner, deleted), Merged(layers, k + 1, owner, deleted);
    var b := Kept(Contents(layers[k]), k, owner, deleted);
    forall p ensures p in c <==> p in a + b { LayerKeys(layers, k, owner, deleted, p); }
    forall p | p in c ensures c[p] == (a + b)[p] { LayerKeys(layers, k, owner, deleted, p); }
  }

  lemma LayerKeys(layers: seq<Layer>, k: nat, owner: map<string, nat>, deleted: set<string>, p: string)
    requires k < |layers| && Mapped(layers, owner, deleted)
    ensures p in Kept(Contents(layers[k]), k, owner, deleted) <==> p in owner && owner[p] == k && p !in deleted
    ensures p in Kept(Contents(layers[k]), k, owner, deleted) ==>
      p in owner && Kept(Contents(layers[k]), k, owner, deleted)[p] == OwnContents(layers, owner, deleted, p)
  {
    ContentsKeys(layers[k], p);
    if Provides(layers[k], p) { ProvidedOwned(layers, p, k, owner, deleted); }
    if p in owner && owner[p] == k { assert Owns(layers, p, k); }
    hide Contents, Mapped, Provides;
  }

  lemma ProvidedOwned(layers: seq<Layer>, p: string, k: nat, owner: map<string, nat>, deleted: set<string>)
    requires k < |layers| && Provides(layers[k], p) && Mapped(layers, owner, deleted)
    ensures p in owner
    decreases |layers| - k
  {
    if forall m :: k < m < |layers| ==> !Provides(layers[m], p) { assert Owns(layers, p, k); } else {
      var m :| k < m < |layers| && Provides(layers[m], p);
      ProvidedOwned(layers, p, m, owner, deleted);
    }
  }

  /** merge_layers: the entries streamed into the sink, bottom layer first. */
  method MergeLayers(layers: seq<Layer>) returns (out: seq<Out>)
    ensures forall p :: p in Meaning(out) <==> MergeShows(layers, p)
    ensures forall p, k: nat :: p in Meaning(out) && Owns(layers, p, k) ==>
      p in Contents(layers[k]) && Meaning(out)[p] == Contents(layers[k])[p]
    ensures forall p :: (p in Meaning(out) <==> p in Overlay(layers)) <==> !Disagrees(layers, p)
    ensures Clean(layers) ==> Meaning(out) == Overlay(layers)
  {
    out := MergeEntries(layers);
    forall p ensures (p in Meaning(out) <==> p in Overlay(layers)) <==> !Disagrees(layers, p) { MergeExact(layers, p); }
    if Clean(layers) { MergeOfClean(layers, Meaning(out)); }
  }

  method MergeEntries(layers: seq<Layer>) returns (out: seq<Out>)
    ensures forall p :: p in Meaning(out) <==> MergeShows(layers, p)
    ensures forall p, k: nat :: p in Meaning(out) && Owns(layers, p, k) ==>
      p in Contents(layers[k]) && Meaning(out)[p] == Contents(layers[k])[p]
  {
    out := [];
    if layers == [] { return; }
    var owner, deleted := BuildOwnershipMap(layers);
    hide Mapped, Keeps;
    assert Meaning(out) == Merged(layers, 0, owner, deleted);
    for k := 0 to |layers|
      invariant Meaning(out) == Merged(layers, k, owner, deleted)
    {
      var more := WriteLayerEntries(layers[k], k, owner, deleted);
      MeaningJoin(out, more);
      MergeLayer(layers, k, owner, deleted);
      out := out + more;
    }
    MergedMeans(layers, owner, deleted);
  }

  /** The paths the merge emits, read off the layers. */
  ghost predicate MergeShows(layers: seq<Layer>, p: string) {
    exists k: nat :: Owns(layers, p, k) && !WhitedAnywhere(layers, p) && !OpaqueOver(layers, p, k)
  }

  lemma MergedMeans(layers: seq<Layer>, owner: map<string, nat>, deleted: set<string>)
    requires Mapped(layers, owner, deleted)
    ensures var m := Merged(layers, |layers|, owner, deleted);
      && (forall p :: p in m <==> MergeShows(layers, p))
      && (forall p, k: nat :: p in m && Owns(layers, p, k) ==>
          p in Contents(layers[k]) && m[p] == Contents(layers[k])[p])
  {
    var m := Merged(layers, |layers|, owner, deleted);
    forall p ensures p in m <==> MergeShows(layers, p) {
      if MergeShows(layers, p) {
        var k: nat :| Owns(layers, p, k) && !WhitedAnywhere(layers, p) && !OpaqueOver(layers, p, k);
        OneOwner(layers, p, k, owner[p]);
      }
    }
    forall p, k: nat | p in m && Owns(layers, p, k) ensures p in Contents(layers[k]) && m[p] == Contents(layers[k])[p] {
      OneOwner(layers, p, k, owner[p]);
      ContentsKeys(layers[k], p);
    }
  }

  lemma OneOwner(layers: seq<Layer>, p: string, j: nat, k: nat)
    requires Owns(layers, p, j) && Owns(layers, p, k)
    ensures j == k
  {
  }

  // ---- when the merge is the overlay ----

  /** Hidden by a layer in a way the map does not see: through an ancestor's whiteout,
      an opaque root, or an ancestor that became a file. */
  ghost predicate HidesUnseen(l: Layer, p: string) {
    || (exists t :: Whites(l, t) && Below(p, t))
    || (Opaques(l, "") && p != "")
    || (exists q :: Files(l, q) && Below(p, q))
  }

  ghost predicate HiddenUnseen(layers: seq<Layer>, p: string, k: nat) {
    exists m :: k < m < |layers| && HidesUnseen(layers[m], p)
  }

  /** The two families where merge and overlay part: a whiteout that is not above the
      owner still deletes the path, or the path survives its directory. */
  ghost predicate Disagrees(layers: seq<Layer>, p: string) {
    exists k: nat :: Owns(layers, p, k) &&
      if WhitedAnywhere(layers, p) then !HiddenAbove(layers, p, k)
      else !OpaqueOver(layers, p, k) && HiddenUnseen(layers, p, k)
  }

  lemma HidesSplit(l: Layer, p: string)
    ensures Hides(l, p) <==> Whites(l, p) || OpaqueIn(l, p) || HidesUnseen(l, p)
  {
    hide Classify, IsChildOf, Whites, Opaques, Files;
    if exists d :: Opaques(l, d) && Below(p, d) {
      var d :| Opaques(l, d) && Below(p, d);
      assert OpaqueIn(l, p) || HidesUnseen(l, p);
    }
    if OpaqueIn(l, p) {
      var d :| Opaques(l, d) && IsChildOf(p, d);
      assert Opaques(l, d) && Below(p, d);
    }
    if Opaques(l, "") && p != "" { assert Below(p, ""); }
  }

  lemma HiddenSplit(layers: seq<Layer>, p: string, k: nat)
    ensures OpaqueOver(layers, p, k) ==> HiddenAbove(layers, p, k)
    ensures !WhitedAnywhere(layers, p) ==>
      (HiddenAbove(layers, p, k) <==> OpaqueOver(layers, p, k) || HiddenUnseen(layers, p, k))
  {
    hide Hides, HidesUnseen, OpaqueIn, Whites;
    forall m | k < m < |layers|
      ensures Hides(layers[m], p) <==> Whites(layers[m], p) || OpaqueIn(layers[m], p) || HidesUnseen(layers[m], p)
    {
      HidesSplit(layers[m], p);
    }
    if OpaqueOver(layers, p, k) { var m :| k < m < |layers| && OpaqueIn(layers[m], p); assert Hides(layers[m], p); }
    if HiddenUnseen(layers, p, k) {
      var m :| k < m < |layers| && HidesUnseen(layers[m], p);
      assert Hides(layers[m], p);
    }
    if HiddenAbove(layers, p, k) && !WhitedAnywhere(layers, p) {
      var m :| k < m < |layers| && Hides(layers[m], p);
      assert !Whites(layers[m], p);
    }
  }

  /** For every stack and path: the merge shows the path exactly as the overlay does,
      if and only if it is in neither family. */
  lemma MergeExact(layers: seq<Layer>, p: string)
    ensures (MergeShows(layers, p) <==> p in Overlay(layers)) <==> !Disagrees(layers, p)
  {
    OverlayAt(layers, p);
    hide Overlay, HiddenAbove, OpaqueOver, HiddenUnseen, WhitedAnywhere;
    if exists k: nat :: Owns(layers, p, k) {
      var k: nat :| Owns(layers, p, k);
      HiddenSplit(layers, p, k);
      forall j: nat | Owns(layers, p, j) ensures j == k { OneOwner(layers, p, j, k); }
      hide Owns;
    }
  }

  /** What a well-behaved stack looks like: whiteouts name lower paths without provided
      descendants, the root is not opaque, and no file takes a directory's place. */
  ghost predicate Clean(layers: seq<Layer>) {
    && (forall m, k, p {:trigger Whites(layers[m], p), Provides(layers[k], p)} ::
          0 <= m <= k < |layers| && Whites(layers[m], p) ==> !Provides(layers[k], p))
    && (forall k, m, p, t {:trigger Whites(layers[m], t), Provides(layers[k], p)} ::
          0 <= k < m < |layers| && Whites(layers[m], t) && Provides(layers[k], p) ==> !Below(p, t))
    && (forall m :: 0 <= m < |layers| ==> !Opaques(layers[m], ""))
    && (forall k, m, p, q {:trigger Files(layers[m], q), Provides(layers[k], p)} ::
          0 <= k < m < |layers| && Files(layers[m], q) && Provides(layers[k], p) ==> !Below(p, q))
  }

  lemma CleanAgrees(layers: seq<Layer>, p: string)
    requires Clean(layers)
    ensures !Disagrees(layers, p)
  {
    hide Whites, Provides, Opaques, Files, Below;
    forall k: nat | Owns(layers, p, k)
      ensures if WhitedAnywhere(layers, p) then HiddenAbove(layers, p, k) else !HiddenUnseen(layers, p, k)
    {
      if WhitedAnywhere(layers, p) {
        var m :| 0 <= m < |layers| && Whites(layers[m], p);
        assert k < m && Hides(layers[m], p);
      }
    }
  }

  lemma MergeOfClean(layers: seq<Layer>, m: map<string, seq<byte>>)
    requires Clean(layers) && forall p :: p in m <==> MergeShows(layers, p)
    requires forall p, k: nat :: p in m && Owns(layers, p, k) ==>
      p in Contents(layers[k]) && m[p] == Contents(layers[k])[p]
    ensures m == Overlay(layers)
  {
    var v := Overlay(layers);
    forall p ensures p in m <==> p in v { CleanAgrees(layers, p); MergeExact(layers, p); }
    forall p | p in m ensures m[p] == v[p] {
      OverlayAt(layers, p);
      var k: nat :| Owns(layers, p, k);
    }
  }

  /** A whiteout in a lower layer deletes a path that a higher layer adds again. */
  lemma ReaddedPathLost(body: seq<byte>)
    ensures var layers := [[Entry(".wh.a", false, [], None)], [Entry("a", false, body, None)]];
      Disagrees(layers, "a") && "a" in Overlay(layers) && !MergeShows(layers, "a")
  {
    var l0, l1 := [Entry(".wh.a", false, [], None)], [Entry("a", false, body, None)];
    var layers := [l0, l1];
    SimpleNames();
    assert Whites(l0, "a") by { assert Classify(l0[0].name) == Whiteout("a"); }
    assert Provides(l1, "a") by { assert Classify(l1[0].name) == Regular("a"); }
    assert Owns(layers, "a", 1) && Whites(layers[0], "a");
    assert !HiddenAbove(layers, "a", 1);
    OverlayAt(layers, "a");
  }

  /** A whiteout of a directory leaves what was inside it. */
  lemma DirectoryContentsKept(body: seq<byte>)
    ensures var layers := [[Entry("a/b", false, body, None)], [Entry(".wh.a", false, [], None)]];
      Disagrees(layers, "a/b") && "a/b" !in Overlay(layers) && MergeShows(layers, "a/b")
  {
    hide *;
    var e0, e1 := Entry("a/b", false, body, None), Entry(".wh.a", false, [], None);
    var layers := [[e0], [e1]];
    SimpleNames();
    forall p ensures !Whites(layers[0], p) && (Provides(layers[0], p) <==> p == "a/b") { OneEntry(e0, p); }
    forall p
      ensures (Whites(layers[1], p) <==> p == "a") && !Provides(layers[1], p) && !Opaques(layers[1], p)
    {
      OneEntry(e1, p);
    }
    SurvivesDirectory(layers);
  }

  lemma SurvivesDirectory(layers: seq<Layer>)
    requires |layers| == 2 && forall p :: !Whites(layers[0], p) && (Provides(layers[0], p) <==> p == "a/b")
    requires forall p :: (Whites(layers[1], p) <==> p == "a") && !Provides(layers[1], p) && !Opaques(layers[1], p)
    ensures Disagrees(layers, "a/b") && "a/b" !in Overlay(layers) && MergeShows(layers, "a/b")
  {
    MergeExact(layers, "a/b");
    hide Classify, Whites, Provides, Opaques, Overlay;
    assert Owns(layers, "a/b", 0);
    assert Below("a/b", "a");
    assert HidesUnseen(layers[1], "a/b");
    assert !WhitedAnywhere(layers, "a/b") && !OpaqueOver(layers, "a/b", 0);
  }

  lemma OneEntry(e: Entry, p: string)
    ensures Provides([e], p) <==> Classify(e.name) == Regular(p)
    ensures Whites([e], p) <==> Classify(e.name) == Whiteout(p)
    ensures Opaques([e], p) <==> Classify(e.name) == Opaque(p)
  {
    hide Classify;
    assert [e][0] == e;
  }

  lemma SimpleNames()
    ensures Classify("a") == Regular("a") && Classify("b") == Regular("b")
    ensures Classify("a/b") == Regular("a/b") && Classify(".wh.a") == Whiteout("a")
  {
    assert AfterSlash("a") == 0 && AfterSlash("b") == 0 && [] + "b" == "b";
    assert AfterSlash("a/b") == 2 && AfterSlash(".wh.a") == 0;
    assert ".wh.a" == ".wh." + "a";
    assert ".wh.a"[0..] == ".wh.a" && [] + "a" == "a";
  }
}
