/** merge_layers into a sink (ext4/src/tar_convert.rs): which entries are streamed, in which
    order, and when the ext4 writer takes them all. */
module MergeImage {
  import opened Bytes
  import opened LayerMerge
  import opened LayerLinks
  import S = LayerSink
  import T = DirTree
  import E = ErofsBuilder
  import ErofsSerialize

  // ---- path strings as components ----

  /** A character in UTF-8. */
  function EncodeChar(c: char): (b: seq<byte>)
    ensures b != []
  {
    var n := c as int;
    if n < 0x80 then [n]
    else if n < 0x800 then [0xc0 + n / 64, 0x80 + n % 64]
    else if n < 0x1_0000 then [0xe0 + n / 4096, 0x80 + n / 64 % 64, 0x80 + n % 64]
    else [0xf0 + n / 0x4_0000, 0x80 + n / 4096 % 64, 0x80 + n / 64 % 64, 0x80 + n % 64]
  }

  function Encode(s: string): seq<byte> { if s == [] then [] else EncodeChar(s[0]) + Encode(s[1..]) }

  /** The parts between slashes. */
  function Split(s: string): (r: seq<string>)
    ensures r != []
  {
    if s == [] then [[]] else
    var r := Split(s[1..]);
    if s[0] == '/' then [[]] + r else [[s[0]] + r[0]] + r[1..]
  }

  function Parts(s: string): (r: seq<seq<byte>>)
    ensures |r| == |Split(s)| && forall i :: 0 <= i < |r| ==> r[i] == Encode(Split(s)[i])
  {
    seq(|Split(s)|, i requires 0 <= i < |Split(s)| => Encode(Split(s)[i]))
  }

  lemma CharIsText(c: char, rest: seq<byte>)
    requires Utf8(rest)
    ensures Utf8(EncodeChar(c) + rest)
  {
    var b := EncodeChar(c);
    assert (b + rest)[|b|..] == rest;
    assert c as int < 0xd800 || 0xe000 <= c as int < 0x11_0000;
  }

  /** Names from strings are text, so read_dir can read them. */
  lemma {:induction false} StringIsText(s: string)
    ensures Utf8(Encode(s))
  {
    if s != [] {
      StringIsText(s[1..]);
      CharIsText(s[0], Encode(s[1..]));
    }
  }

  // ---- which strings are one path ----

  /** The first byte says how many there are, and they say the character. */
  lemma CharFirst(c: char, d: char, x: seq<byte>, y: seq<byte>)
    requires EncodeChar(c) + x == EncodeChar(d) + y
    ensures c == d && x == y
  {
    var a, b := EncodeChar(c) + x, EncodeChar(d) + y;
    assert a[0] == EncodeChar(c)[0] && b[0] == EncodeChar(d)[0];
    assert |EncodeChar(c)| == |EncodeChar(d)|;
    assert EncodeChar(c) == a[..|EncodeChar(c)|] == b[..|EncodeChar(d)|] == EncodeChar(d);
    SameChar(c, d);
    assert x == a[|EncodeChar(c)|..] && y == b[|EncodeChar(d)|..];
  }

  lemma SameChar(c: char, d: char)
    requires EncodeChar(c) == EncodeChar(d)
    ensures c == d
  {
    DecodeEncode(c);
    DecodeEncode(d);
  }

  function DecodeChar(b: seq<byte>): int
    requires 1 <= |b| <= 4
  {
    var x: int := b[0];
    if |b| == 1 then x else
    var y: int := b[1] as int - 0x80;
    if |b| == 2 then (x - 0xc0) * 64 + y else
    var z: int := b[2] as int - 0x80;
    if |b| == 3 then (x - 0xe0) * 4096 + y * 64 + z else
    var w: int := b[3] as int - 0x80;
    (x - 0xf0) * 0x4_0000 + y * 4096 + z * 64 + w
  }

  lemma DecodeEncode(c: char)
    ensures |EncodeChar(c)| <= 4 && DecodeChar(EncodeChar(c)) == c as int
  {
    Digits(c as int);
  }

  lemma Digits(n: nat)
    ensures n == n / 64 * 64 + n % 64 && n / 64 == n / 4096 * 64 + n / 64 % 64
    ensures n / 4096 == n / 0x4_0000 * 64 + n / 4096 % 64
  {
  }

  lemma {:induction false} EncodeApart(s: string, t: string)
    requires Encode(s) == Encode(t)
    ensures s == t
  {
    hide EncodeChar;
    if s != [] && t != [] {
      CharFirst(s[0], t[0], Encode(s[1..]), Encode(t[1..]));
      EncodeApart(s[1..], t[1..]);
      assert s == [s[0]] + s[1..] && t == [t[0]] + t[1..];
    }
  }

  lemma {:induction false} SplitApart(s: string, t: string)
    requires Split(s) == Split(t)
    ensures s == t
    decreases |s|
  {
    if s != [] && t != [] {
      var a, b := Split(s[1..]), Split(t[1..]);
      if s[0] == '/' && t[0] == '/' { assert Split(s)[1..] == a && Split(t)[1..] == b; } else { HeadsApart(s, t); }
      SplitApart(s[1..], t[1..]);
      assert s == [s[0]] + s[1..] && t == [t[0]] + t[1..];
    } else {
      SplitEmpty(s);
      SplitEmpty(t);
    }
  }

  lemma SplitEmpty(s: string)
    ensures Split(s) == [[]] ==> s == []
  {
    if s != [] && s[0] == '/' { assert |Split(s)| >= 2; }
  }

  lemma HeadsApart(s: string, t: string)
    requires s != [] && t != [] && Split(s) == Split(t) && !(s[0] == '/' && t[0] == '/')
    ensures s[0] == t[0] && Split(s[1..]) == Split(t[1..])
  {
    var a, b := Split(s[1..]), Split(t[1..]);
    SplitHead(s);
    SplitHead(t);
    assert Split(s)[0][0] == s[0] && Split(t)[0][0] == t[0];
    assert a[0] == Split(s)[0][1..] && b[0] == Split(t)[0][1..];
    assert a == [a[0]] + a[1..] && b == [b[0]] + b[1..];
  }

  lemma SplitHead(s: string)
    requires s != []
    ensures Split(s)[0] == [] <==> s[0] == '/'
    ensures s[0] != '/' ==> Split(s)[0] == [s[0]] + Split(s[1..])[0] && Split(s)[1..] == Split(s[1..])[1..]
  {
  }

  /** No empty part, "." or "..". */
  predicate Canonical(p: string) { forall i :: 0 <= i < |Parts(p)| ==> T.Plain(Parts(p)[i]) }

  /** Canonical strings are the same path to the writer exactly if they are the same string, so
      for layers with such names the ownership map is one of paths. */
  lemma SamePath(p: string, q: string)
    requires Canonical(p) && Canonical(q)
    ensures T.Clean(Parts(p)) == T.Clean(Parts(q)) <==> p == q
  {
    T.CleanAgain(Parts(p));
    T.CleanAgain(Parts(q));
    hide T.Plain, Encode, Split;
    if Parts(p) == Parts(q) {
      forall i | 0 <= i < |Split(p)| ensures Split(p)[i] == Split(q)[i] {
        assert Parts(p)[i] == Parts(q)[i];
        EncodeApart(Split(p)[i], Split(q)[i]);
      }
      assert Split(p) == Split(q);
      SplitApart(p, q);
    }
  }

  /** Other strings are not: a whiteout written with "./" misses the path it means. */
  lemma DottedWhiteoutMisses(body: seq<byte>)
    ensures var layers := [[Entry("a", false, body, None)], [Entry("./.wh.a", false, [], None)]];
      MergeShows(layers, "a") && Classify("./.wh.a") == Whiteout("./a")
    ensures T.Clean(Parts("./a")) == T.Clean(Parts("a"))
  {
    var e0, e1 := Entry("a", false, body, None), Entry("./.wh.a", false, [], None);
    SimpleNames();
    DottedName();
    DottedParts();
    hide Classify;
    forall p ensures (Provides([e0], p) <==> p == "a") && !Whites([e0], p) && !Opaques([e0], p) { OneEntry(e0, p); }
    forall p ensures (Whites([e1], p) <==> p == "./a") && !Provides([e1], p) && !Opaques([e1], p) { OneEntry(e1, p); }
    hide Provides, Whites, Opaques;
    var layers := [[e0], [e1]];
    assert layers[0] == [e0] && layers[1] == [e1] && "a" != "./a";
    assert Owns(layers, "a", 0) && !WhitedAnywhere(layers, "a") && !OpaqueOver(layers, "a", 0);
  }

  lemma DottedName()
    ensures Classify("./.wh.a") == Whiteout("./a")
  {
    var n := "./.wh.a";
    assert n[1] == '/' && forall i :: 2 <= i < |n| ==> n[i] != '/';
    assert Trim(n) == n && AfterSlash(n) == 2;
    assert n[2..] == ".wh." + "a" && n[..2] == "./";
    assert "./" + "a" == "./a" && Trim("./a") == "./a";
  }

  lemma DottedParts()
    ensures T.Clean(Parts("./a")) == T.Clean(Parts("a"))
  {
    assert "a"[1..] == "" && "./a"[1..] == "/a" && "/a"[1..] == "a";
    assert Split("") == [""];
    assert ['a'] + "" == "a" && ['.'] + "" == ".";
    assert Split("a") == ["a"] + [];
    assert Split("/a") == [""] + ["a"];
    assert Split("./a") == ["."] + ["a"];
    assert Encode("a") == [97] && Encode(".") == [46];
    assert Parts("a") == [[97]] && Parts("./a") == [[46], [97]];
    assert [[46], [97]][..1] == [[46]];
  }

  // ---- the stream ----

  /** The entries streamed before entry `j` of layer `k`. */
  ghost function StreamOf(layers: seq<Layer>, k: nat, j: nat): seq<Entry>
    requires k < |layers| && j <= |layers[k]|
    decreases k, j
  {
    if j > 0 then StreamOf(layers, k, j - 1) + if EmittedAt(layers, k, j - 1) then [layers[k][j - 1]] else []
    else if k > 0 then StreamOf(layers, k - 1, |layers[k - 1]|)
    else []
  }

  ghost predicate EmittedAt(layers: seq<Layer>, k: nat, j: nat)
    requires k < |layers| && j < |layers[k]|
  {
    Emits(layers, k, j, Trim(layers[k][j].name))
  }

  ghost function Stream(layers: seq<Layer>): seq<Entry> {
    if layers == [] then [] else StreamOf(layers, |layers| - 1, |layers[|layers| - 1]|)
  }

  lemma {:induction false} StreamGrows(layers: seq<Layer>, k: nat, j: nat)
    requires k < |layers| && j <= |layers[k]|
    ensures StreamOf(layers, k, j) <= Stream(layers)
    decreases |layers| - k, |layers[k]| - j
  {
    hide EmittedAt;
    if j < |layers[k]| {
      StreamGrows(layers, k, j + 1);
      assert StreamOf(layers, k, j) <= StreamOf(layers, k, j + 1);
    } else if k + 1 < |layers| {
      StreamGrows(layers, k + 1, 0);
    }
  }

  /** Every kept entry is in the stream, behind those that precede it. */
  lemma StreamHas(layers: seq<Layer>, k: nat, j: nat)
    requires k < |layers| && j < |layers[k]| && EmittedAt(layers, k, j)
    ensures |StreamOf(layers, k, j)| < |Stream(layers)| && Stream(layers)[|StreamOf(layers, k, j)|] == layers[k][j]
  {
    hide EmittedAt;
    StreamGrows(layers, k, j + 1);
    assert StreamOf(layers, k, j + 1) == StreamOf(layers, k, j) + [layers[k][j]];
    hide StreamOf;
  }

  /** The stream holds nothing else. */
  lemma {:induction false} StreamOnly(layers: seq<Layer>, k: nat, j: nat, n: nat) returns (k2: nat, j2: nat)
    requires k < |layers| && j <= |layers[k]| && n < |StreamOf(layers, k, j)|
    ensures Precedes(k2, j2, k, j) && k2 < |layers| && j2 < |layers[k2]| && EmittedAt(layers, k2, j2)
    ensures |StreamOf(layers, k2, j2)| == n && StreamOf(layers, k, j)[n] == layers[k2][j2]
    decreases k, j
  {
    hide EmittedAt;
    if j > 0 {
      if n < |StreamOf(layers, k, j - 1)| { k2, j2 := StreamOnly(layers, k, j - 1, n); } else { k2, j2 := k, j - 1; }
    } else {
      k2, j2 := StreamOnly(layers, k - 1, |layers[k - 1]|, n);
    }
  }

  /** write_layer_entries for every layer: the entries that go into the sink. */
  method KeptEntries(layers: seq<Layer>) returns (kept: seq<Entry>)
    ensures kept == Stream(layers)
  {
    hide Emits, Trim, IsWhiteout, Keeps, Mapped;
    kept := [];
    if layers == [] { return; }
    var owner, deleted := BuildOwnershipMap(layers);
    for k := 0 to |layers|
      invariant k < |layers| ==> kept == StreamOf(layers, k, 0)
      invariant k == |layers| ==> kept == Stream(layers)
    {
      for j := 0 to |layers[k]|
        invariant kept == StreamOf(layers, k, j)
      {
        var e := layers[k][j];
        KeptIsEmitted(layers, owner, deleted, k, j);
        if !IsWhiteout(e.name) && Keeps(Trim(e.name), k, owner, deleted) { kept := kept + [e]; }
      }
    }
  }

  // ---- into the ext4 writer ----

  function InputOf(e: Entry, fits: Entry -> bool, extents: Entry -> bool): S.Input {
    S.Input(Parts(e.name), e.isDir, if e.target.Some? then Some(Parts(e.target.value)) else None, fits(e), extents(e))
  }

  function Inputs(es: seq<Entry>, fits: Entry -> bool, extents: Entry -> bool): (r: seq<S.Input>)
    ensures |r| == |es|
  {
    seq(|es|, i requires 0 <= i < |es| => InputOf(es[i], fits, extents))
  }

  /** What the layers ask of the ext4 writer. */
  ghost function Asked(layers: seq<Layer>, fits: Entry -> bool, extents: Entry -> bool): S.Items {
    S.ItemsOf(Inputs(Stream(layers), fits, extents))
  }

  /** merge_layers into the ext4 writer: it succeeds exactly if every kept entry is good after
      those before it, and then the tree holds exactly what the kept entries say. */
  method MergeToExt4(layers: seq<Layer>, fits: Entry -> bool, extents: Entry -> bool) returns (ok: bool, tree: T.Tree)
    ensures fresh(tree) && (ok <==> S.Accepted(Asked(layers, fits, extents)))
    ensures ok ==> tree.Ok() && S.Held(tree.t, Asked(layers, fits, extents), |Stream(layers)|)
  {
    hide S.Accepted, S.Held, T.Valid, T.PlainDirs, Stream;
    var kept := KeptEntries(layers);
    ok, tree := S.FeedAll(Inputs(kept, fits, extents));
  }

  // ---- inputs where the stream is in order and the writer refuses it, or the sinks differ ----

  /** A file where an earlier entry made a directory. */
  lemma FileOverDirectory(a: seq<byte>, b: seq<byte>, x: S.Item, y: S.Item)
    requires x.path == [a, b] && x.kind.File? && y.path == [a] && y.kind.File?
    ensures !S.Accepted([x, y])
  {
    var ks := [x, y];
    assert S.MakesDir(ks[0], [a]) by { assert [a, b][..1] == [a]; }
    assert S.DirAt(ks, 1, [a]);
    assert !S.ItemOk(ks, 1);
  }

  /** A link over a file that has no other name, with its target there. */
  lemma LinkOverFile(x: S.Item, b: S.Item, l: S.Item)
    requires x.kind.File? && b.kind.File? && x.path != b.path && l == S.Item(b.path, S.Link(x.path), l.fits, l.extents)
    ensures !S.Accepted([x, b, l])
  {
    var ks := [x, b, l];
    assert S.MakesFile(ks[1], b.path);
    assert S.FileAt(ks, 2, b.path);
    assert S.Id(ks, 2, b.path) == 1;
    forall p | p in S.Names(ks, 2, 1) ensures p == b.path {
      S.NamesIs(ks, 2, 1, p);
      assert S.Id(ks, 1, p) == 0;
    }
    assert S.Names(ks, 2, 1) <= {b.path};
    AtMostOne(S.Names(ks, 2, 1), b.path);
    assert !S.ItemOk(ks, 2);
  }

  lemma AtMostOne<A>(s: set<A>, a: A)
    requires s <= {a}
    ensures |s| <= 1
  {
    if s != {} { assert s == {a}; }
  }

  /** A link to a directory that was made on the way: the ext4 writer refuses it. */
  lemma LinkToParent(a: seq<byte>, b: seq<byte>, x: S.Item, l: S.Item)
    requires x.path == [a, b] && x.kind.File? && l.kind == S.Link([a])
    ensures !S.Accepted([x, l])
  {
    var ks := [x, l];
    assert !S.FileAt(ks, 1, [a]) by { assert |x.path| == 2; }
    assert !S.ItemOk(ks, 1);
  }

  /** The EROFS writer takes it. */
  method ErofsLinksToParent(a: seq<byte>, b: seq<byte>, c: seq<byte>, f: E.File)
    returns (made: bool, linked: bool, w: E.Builder)
    requires !E.Skipped(a) && !E.Skipped(b) && !E.Skipped(c) && ErofsSerialize.Typed(f.kind, f.mode)
    ensures made && linked && E.Lead(w.nodes, [c]).Some?
  {
    w := new E.Builder();
    var idx;
    ghost var comps := [a, b];
    NotObstructed(w.nodes, comps);
    made, idx := w.Create([a, b], f);
    assert comps[..1] == [a];
    linked := w.Link([a], [c]);
  }

  lemma NotObstructed(nodes: seq<E.Draft>, comps: seq<seq<byte>>)
    requires nodes == [E.NewDir()] && |comps| == 2 && !E.Skipped(comps[0])
    ensures !E.Obstructed(nodes, comps, 1)
  {
    assert comps[..1][..0] == comps[..0] == [];
    assert E.Lead(nodes, comps[..1]).None?;
  }
}
