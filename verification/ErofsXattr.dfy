/** The inline attribute area of an EROFS inode: encode_xattrs and xattr_prefix
    (ext4/src/erofs.rs) with a decoder of the on-disk form. */
module ErofsXattr {
  import opened Bytes
  import Xattr

  const HEADER: nat := 12
  const ENTRY: nat := 4

  const PREFIXES: seq<Xattr.Prefix> := [
    Xattr.Prefix(1, Xattr.Ascii("user.")),
    Xattr.Prefix(4, Xattr.Ascii("trusted.")),
    Xattr.Prefix(6, Xattr.Ascii("security.")),
    Xattr.Prefix(3, Xattr.Ascii("system.posix_acl_default")),
    Xattr.Prefix(2, Xattr.Ascii("system.posix_acl_access"))
  ]

  datatype Pair = Pair(name: seq<byte>, value: seq<byte>)

  function Rest(name: seq<byte>): seq<byte> { Xattr.CompressWith(PREFIXES, name).1 }
  function Index(name: seq<byte>): byte { Xattr.CompressWith(PREFIXES, name).0 }

  /** The stored name and value fit their length fields. */
  ghost predicate PairOk(p: Pair) { |Rest(p.name)| <= 255 && |p.value| < 0x1_0000 }
  ghost predicate PairsOk(ps: seq<Pair>) { forall i :: 0 <= i < |ps| ==> PairOk(ps[i]) }

  function Unpadded(p: Pair): nat { ENTRY + |Rest(p.name)| + |p.value| }

  /** One entry; the length fields are cut to 8 and 16 bits. */
  function EntryBytes(p: Pair): (b: seq<byte>)
    ensures |b| == Pad4(Unpadded(p))
  {
    [|Rest(p.name)| % 256, Index(p.name)] + Le16(|p.value| % 0x1_0000) + Rest(p.name) + p.value
      + Zeros(Pad4(Unpadded(p)) - Unpadded(p))
  }

  function Flat(ps: seq<Pair>): (b: seq<byte>)
    ensures |b| % 4 == 0
  {
    if ps == [] then [] else Flat(ps[..|ps| - 1]) + EntryBytes(ps[|ps| - 1])
  }

  /** Nothing, or a zero header and the entries. */
  function Area(ps: seq<Pair>): seq<byte> { if ps == [] then [] else Zeros(HEADER) + Flat(ps) }

  /** encode_xattrs: a header and four-byte-aligned entries. */
  method EncodeXattrs(ps: seq<Pair>) returns (out: seq<byte>)
    ensures out == Area(ps)
    ensures |out| % 4 == 0 && (ps != [] ==> |out| >= HEADER)
  {
    if ps == [] { return []; }
    hide EntryBytes, Unpadded;
    out := Le32(0) + [0] + Zeros(7);
    HeaderZero();
    for i := 0 to |ps|
      invariant out == Zeros(HEADER) + Flat(ps[..i]) && |out| % 4 == 0
    {
      ghost var was := out;
      var rest := Rest(ps[i].name);
      out := out + [|rest| % 256, Index(ps[i].name)] + Le16(|ps[i].value| % 0x1_0000) + rest + ps[i].value;
      ghost var bare := out;
      while |out| % 4 != 0
        invariant |bare| <= |out| <= Pad4(|bare|) && out == bare + Zeros(|out| - |bare|)
        decreases Pad4(|bare|) - |out|
      {
        out := out + [0];
      }
      Padded(was, bare, out, ps[i]);
      assert ps[..i + 1][..i] == ps[..i];
      assert out == Zeros(HEADER) + (Flat(ps[..i]) + EntryBytes(ps[i]));
    }
    assert ps[..|ps|] == ps;
  }

  lemma HeaderZero()
    ensures Le32(0) + [0] + Zeros(7) == Zeros(HEADER)
  {
  }

  lemma Padded(was: seq<byte>, bare: seq<byte>, out: seq<byte>, p: Pair)
    requires |was| % 4 == 0 && |out| % 4 == 0 && |bare| <= |out| <= Pad4(|bare|)
    requires out == bare + Zeros(|out| - |bare|)
    requires bare == was + [|Rest(p.name)| % 256, Index(p.name)] + Le16(|p.value| % 0x1_0000) + Rest(p.name) + p.value
    ensures out == was + EntryBytes(p)
  {
    hide Rest, Index, Le16;
    assert |out| == |was| + Pad4(Unpadded(p));
    assert |out| - |bare| == Pad4(Unpadded(p)) - Unpadded(p);
  }

  // ---- decoding ----

  function Entry(b: seq<byte>, p: nat): Pair
    requires p + ENTRY <= |b|
  {
    var n, v := b[p], U16(b, p + 2);
    if p + ENTRY + n + v > |b| then Pair([], [])
    else Pair(Xattr.DecompressWith(PREFIXES, b[p + 1], b[p + ENTRY..p + ENTRY + n]),
              b[p + ENTRY + n..p + ENTRY + n + v])
  }

  /** The entries of an area from `p` to its end. */
  function Decode(b: seq<byte>, p: nat): seq<Pair>
    decreases |b| - p
  {
    if p + ENTRY > |b| then [] else [Entry(b, p)] + Decode(b, p + Pad4(ENTRY + b[p] + U16(b, p + 2)))
  }

  lemma EntryShape(x: Pair)
    requires PairOk(x)
    ensures var e, n, v := EntryBytes(x), |Rest(x.name)|, |x.value|;
      && |e| >= ENTRY + n + v && e[0] == n && e[1] == Index(x.name) && e[2..ENTRY] == Le16(v)
      && e[ENTRY..ENTRY + n] == Rest(x.name) && e[ENTRY + n..ENTRY + n + v] == x.value
  {
    hide Rest, Index, Le16;
  }

  lemma EntryAt(b: seq<byte>, p: nat, x: Pair)
    requires PairOk(x) && p + Pad4(Unpadded(x)) <= |b| && b[p..p + Pad4(Unpadded(x))] == EntryBytes(x)
    ensures ENTRY + b[p] + U16(b, p + 2) == Unpadded(x) && Entry(b, p) == x
  {
    hide EntryBytes, Le16, Rest, Index;
    EntryShape(x);
    var e, n, v := EntryBytes(x), |Rest(x.name)|, |x.value|;
    assert forall i :: 0 <= i < |e| ==> b[p + i] == e[i];
    assert U16(b, p + 2) == U16(Le16(v), 0) by { assert e[2] == Le16(v)[0] && e[3] == Le16(v)[1]; }
    hide U16;
    SliceOf(b, p, e, ENTRY, ENTRY + n);
    SliceOf(b, p, e, ENTRY + n, ENTRY + n + v);
    NameBack(x.name);
  }

  lemma SliceOf(b: seq<byte>, p: nat, e: seq<byte>, i: nat, j: nat)
    requires p + |e| <= |b| && b[p..p + |e|] == e && i <= j <= |e|
    ensures b[p + i..p + j] == e[i..j]
  {
    var x, y := b[p + i..p + j], e[i..j];
    forall m | 0 <= m < |y| ensures x[m] == y[m] { assert b[p..p + |e|][i + m] == e[i + m]; }
  }

  lemma NameBack(name: seq<byte>)
    ensures Xattr.DecompressWith(PREFIXES, Index(name), Rest(name)) == name
  {
    Xattr.DecompressCompressWith(PREFIXES, name);
  }

  lemma {:induction false} FlatAt(ps: seq<Pair>, k: nat)
    requires k < |ps|
    ensures |Flat(ps[..k + 1])| == |Flat(ps[..k])| + Pad4(Unpadded(ps[k])) <= |Flat(ps)|
    ensures Flat(ps)[|Flat(ps[..k])|..|Flat(ps[..k + 1])|] == EntryBytes(ps[k])
    decreases |ps|
  {
    hide EntryBytes, Unpadded;
    var n := |ps| - 1;
    assert ps[..k + 1][..k] == ps[..k] && ps[..k + 1][k] == ps[k];
    if k == n { assert ps[..k + 1] == ps; } else {
      FlatAt(ps[..n], k);
      assert ps[..n][..k] == ps[..k] && ps[..n][..k + 1] == ps[..k + 1];
      var a, z := Flat(ps[..n]), EntryBytes(ps[n]);
      assert Flat(ps) == a + z;
      hide Flat;
      assert (a + z)[|Flat(ps[..k])|..|Flat(ps[..k + 1])|] == a[|Flat(ps[..k])|..|Flat(ps[..k + 1])|];
    }
  }

  lemma {:induction false} DecodeFlat(ps: seq<Pair>, b: seq<byte>, k: nat)
    requires PairsOk(ps) && b == Zeros(HEADER) + Flat(ps) && k <= |ps|
    ensures Decode(b, HEADER + |Flat(ps[..k])|) == ps[k..]
    decreases |ps| - k
  {
    hide Flat, EntryBytes, Zeros, Decode, Unpadded, PairOk;
    if k == |ps| { assert ps[..k] == ps; DecodeEnd(b); } else {
      DecodeFlat(ps, b, k + 1);
      SliceAt(ps, b, k);
      DecodeStep(b, HEADER + |Flat(ps[..k])|, ps, k);
    }
  }

  lemma SliceAt(ps: seq<Pair>, b: seq<byte>, k: nat)
    requires PairsOk(ps) && b == Zeros(HEADER) + Flat(ps) && k < |ps|
    ensures var p, n := HEADER + |Flat(ps[..k])|, Pad4(Unpadded(ps[k]));
      p + n == HEADER + |Flat(ps[..k + 1])| && p + n <= |b| && b[p..p + n] == EntryBytes(ps[k])
  {
    hide Flat, EntryBytes, Zeros, Unpadded, PairOk;
    FlatAt(ps, k);
    Inside(Zeros(HEADER), Flat(ps), |Flat(ps[..k])|, |Flat(ps[..k + 1])|);
  }

  lemma DecodeEnd(b: seq<byte>)
    ensures Decode(b, |b|) == []
  {
  }

  lemma DecodeStep(b: seq<byte>, p: nat, ps: seq<Pair>, k: nat)
    requires k < |ps| && PairsOk(ps) && p + Pad4(Unpadded(ps[k])) <= |b|
    requires b[p..p + Pad4(Unpadded(ps[k]))] == EntryBytes(ps[k])
    requires Decode(b, p + Pad4(Unpadded(ps[k]))) == ps[k + 1..]
    ensures Decode(b, p) == ps[k..]
  {
    EntryAt(b, p, ps[k]);
    hide Entry, U16, EntryBytes, Rest;
    assert ps[k..] == [ps[k]] + ps[k + 1..];
    assert p + ENTRY <= p + Pad4(Unpadded(ps[k]));
  }

  lemma Inside(h: seq<byte>, f: seq<byte>, p: nat, q: nat)
    requires p <= q <= |f|
    ensures (h + f)[|h| + p..|h| + q] == f[p..q]
  {
  }

  ghost predicate NoneExtends(ps: seq<Xattr.Prefix>) { forall i,
                              j :: 0 <= i < j < |ps| ==> !(ps[i].text <= ps[j].text) }

  /** No name that is put together from an index and a remainder has a longer remainder. */
  lemma {:induction false} RestBack(ps: seq<Xattr.Prefix>, index: byte, r: seq<byte>)
    requires NoneExtends(ps)
    ensures |Xattr.CompressWith(ps, Xattr.DecompressWith(ps, index, r)).1| <= |r|
  {
    if ps != [] && ps[0].index != index {
      var name := Xattr.DecompressWith(ps, index, r);
      RestBack(ps[1..], index, r);
      if ps[0].text <= name { LongEnough(ps, 1, index, r); }
    }
  }

  lemma {:induction false} LongEnough(ps: seq<Xattr.Prefix>, k: nat, index: byte, r: seq<byte>)
    requires NoneExtends(ps) && 0 < k <= |ps| && ps[0].text <= Xattr.DecompressWith(ps[k..], index, r)
    ensures |Xattr.DecompressWith(ps[k..], index, r)| <= |ps[0].text| + |r|
    decreases |ps| - k
  {
    if k < |ps| {
      assert ps[k..][0] == ps[k] && ps[k..][1..] == ps[k + 1..];
      if ps[k].index != index { LongEnough(ps, k + 1, index, r); }
    }
  }

  lemma PrefixesApart()
    ensures NoneExtends(PREFIXES)
  {
    var a, b, c, d, e := PREFIXES[0].text, PREFIXES[1].text, PREFIXES[2].text, PREFIXES[3].text, PREFIXES[4].text;
    assert a[0] == 117 && b[0] == 116 && c[0] == 115 && d[0] == 115 && e[0] == 115;
    assert c[1] == 101 && d[1] == 121 && e[1] == 121;
    assert |d| > |e|;
  }

  /** Whatever is decoded fits the length fields. */
  lemma EntryFits(b: seq<byte>, p: nat)
    requires p + ENTRY <= |b|
    ensures PairOk(Entry(b, p))
  {
    PrefixesApart();
    var n, v := b[p], U16(b, p + 2);
    if p + ENTRY + n + v <= |b| {
      RestBack(PREFIXES, b[p + 1], b[p + ENTRY..p + ENTRY + n]);
    } else {
      RestBack(PREFIXES, 0, []);
    }
  }

  lemma {:induction false} DecodeFits(b: seq<byte>, p: nat)
    ensures PairsOk(Decode(b, p))
    decreases |b| - p
  {
    if p + ENTRY <= |b| {
      EntryFits(b, p);
      DecodeFits(b, p + Pad4(ENTRY + b[p] + U16(b, p + 2)));
    }
  }

  /** What a reader makes of an area. */
  function DecodeArea(b: seq<byte>): seq<Pair> { if b == [] then [] else Decode(b, HEADER) }

  /** Names and values come back from the area, in order, exactly if each stored name has at
      most 255 bytes and each value fewer than 65536. */
  lemma AreaRoundTrip(ps: seq<Pair>)
    ensures DecodeArea(Area(ps)) == ps <==> PairsOk(ps)
  {
    hide Decode, Flat, PairOk;
    if ps != [] { DecodeFits(Area(ps), HEADER); }
    if PairsOk(ps) && ps != [] {
      DecodeFlat(ps, Zeros(HEADER) + Flat(ps), 0);
      FlatNone(ps);
    }
  }

  lemma FlatNone(ps: seq<Pair>)
    ensures |Flat(ps[..0])| == 0 && ps[0..] == ps
  {
  }
}
