/** EROFS directories: encode_dir (ext4/src/erofs.rs) and a block-by-block decoder in the
    sense of the kernel's on-disk format. */
module ErofsDir {
  import opened Bytes

  const DIRENT: nat := 12
  const MAX_NAME: nat := 255
  const U64_LIMIT: nat := 0x1_0000_0000_0000_0000

  datatype Ent = Ent(name: seq<byte>, nid: nat, ft: byte)

  /** Names are non-empty, short and without NUL; nids are 64-bit. */
  ghost predicate EntOk(e: Ent) {
    1 <= |e.name| <= MAX_NAME && e.nid < U64_LIMIT && forall i :: 0 <= i < |e.name| ==> e.name[i] != 0
  }
  ghost predicate EntsOk(es: seq<Ent>) { forall i :: 0 <= i < |es| ==> EntOk(es[i]) }

  function NamesLen(es: seq<Ent>): nat { if es == [] then 0 else NamesLen(es[..|es| - 1]) + |es[|es| - 1].name| }

  /** What `k` entries take: their dirents and their names. */
  function Size(es: seq<Ent>): nat { |es| * DIRENT + NamesLen(es) }

  lemma SizeNext(es: seq<Ent>, k: nat)
    requires k < |es|
    ensures Size(es[..k + 1]) == Size(es[..k]) + DIRENT + |es[k].name|
    ensures NamesLen(es[..k + 1]) == NamesLen(es[..k]) + |es[k].name|
  {
    assert es[..k + 1][..k] == es[..k];
  }

  lemma {:induction false} SizeGrows(es: seq<Ent>, j: nat, k: nat)
    requires j <= k <= |es|
    ensures Size(es[..j]) <= Size(es[..k]) && NamesLen(es[..j]) <= NamesLen(es[..k])
    decreases k - j
  {
    if j < k { SizeGrows(es, j, k - 1); SizeNext(es, k - 1); }
  }

  /** The largest number of leading entries that fits a block. */
  ghost predicate Fits(es: seq<Ent>, k: nat) {
    k <= |es| && Size(es[..k]) <= BLOCK && (k == |es| || Size(es[..k + 1]) > BLOCK)
  }

  method CountFitting(es: seq<Ent>, i: nat) returns (k: nat, names: nat)
    requires i <= |es|
    ensures Fits(es[i..], k) && names == NamesLen(es[i..][..k])
    ensures EntsOk(es) && i < |es| ==> k > 0
  {
    ghost var rest := es[i..];
    k, names := 0, 0;
    while i + k < |es|
      invariant i + k <= |es| && names == NamesLen(rest[..k]) && Size(rest[..k]) == k * DIRENT + names <= BLOCK
    {
      var n := |es[i + k].name|;
      SizeNext(rest, k);
      if (k + 1) * DIRENT + names + n > BLOCK { break; }
      names := names + n;
      k := k + 1;
    }
  }

  // ---- one block ----

  function DirentBytes(nid: nat, off: nat, ft: byte): (b: seq<byte>)
    requires nid < U64_LIMIT && off < 0x1_0000
    ensures |b| == DIRENT
  {
    Le64(nid) + Le16(off) + [ft, 0]
  }

  function Dirents(es: seq<Ent>, off: nat): (b: seq<byte>)
    requires EntsOk(es) && off + NamesLen(es) < 0x1_0000
    ensures |b| == |es| * DIRENT
  {
    if es == [] then [] else
    var n := |es| - 1;
    Dirents(es[..n], off) + DirentBytes(es[n].nid, off + NamesLen(es[..n]), es[n].ft)
  }

  function Names(es: seq<Ent>): (b: seq<byte>)
    ensures |b| == NamesLen(es)
  {
    if es == [] then [] else Names(es[..|es| - 1]) + es[|es| - 1].name
  }

  /** Dirents, then names; each dirent points at its name. */
  function Block(es: seq<Ent>): (b: seq<byte>)
    requires EntsOk(es) && Size(es) <= BLOCK
    ensures |b| == Size(es)
  {
    Dirents(es, |es| * DIRENT) + Names(es)
  }

  method EncodeBlock(es: seq<Ent>) returns (b: seq<byte>)
    requires EntsOk(es) && Size(es) <= BLOCK
    ensures b == Block(es)
  {
    hide DirentBytes, Dirents, Names;
    b := [];
    var off := |es| * DIRENT;
    NoEnts(es, off);
    for i := 0 to |es|
      invariant off == |es| * DIRENT + NamesLen(es[..i]) && NamesLen(es[..i]) <= NamesLen(es)
      invariant b == Dirents(es[..i], |es| * DIRENT)
    {
      SizeNext(es, i);
      SizeGrows(es, i + 1, |es|);
      DirentsNext(es, |es| * DIRENT, i);
      b := b + DirentBytes(es[i].nid, off, es[i].ft);
      off := off + |es[i].name|;
    }
    ghost var d := b;
    for i := 0 to |es|
      invariant b == d + Names(es[..i])
    {
      NamesNext(es, i);
      b := b + es[i].name;
    }
  }

  lemma NoEnts(es: seq<Ent>, off: nat)
    requires EntsOk(es) && off < 0x1_0000
    ensures es[..0] == [] && es[..|es|] == es && NamesLen([]) == 0 && Names([]) == [] && Dirents([], off) == []
  {
  }

  lemma DirentsNext(es: seq<Ent>, off: nat, i: nat)
    requires EntsOk(es) && i < |es| && off + NamesLen(es) < 0x1_0000
    ensures NamesLen(es[..i]) <= NamesLen(es[..i + 1]) <= NamesLen(es)
    ensures Dirents(es[..i + 1], off) ==
      Dirents(es[..i], off) + DirentBytes(es[i].nid, off + NamesLen(es[..i]), es[i].ft)
  {
    hide DirentBytes, Size;
    SizeNext(es, i);
    SizeGrows(es, i + 1, |es|);
    assert es[..|es|] == es;
    var b := es[..i + 1];
    assert b[..i] == es[..i] && b[i] == es[i];
  }

  lemma NamesNext(es: seq<Ent>, i: nat)
    requires i < |es|
    ensures Names(es[..i + 1]) == Names(es[..i]) + es[i].name
  {
    var b := es[..i + 1];
    assert b[..i] == es[..i] && b[i] == es[i];
  }

  // ---- decoding a block ----

  /** Length up to the first NUL. */
  function StrLen(b: seq<byte>): (n: nat)
    ensures n <= |b| && (forall i :: 0 <= i < n ==> b[i] != 0) && (n < |b| ==> b[n] == 0)
  {
    if b == [] || b[0] == 0 then 0 else 1 + StrLen(b[1..])
  }

  function NameOff(b: seq<byte>, i: nat): nat
    requires (i + 1) * DIRENT <= |b|
  {
    U16(b, i * DIRENT + 8)
  }

  /** Dirent `i` of `n`: the name ends where the next begins, the last one at a NUL or
      the end of the block. */
  function DecodeEnt(b: seq<byte>, n: nat, i: nat): Ent
    requires i < n && n * DIRENT <= |b|
  {
    var p := NameOff(b, i);
    var q := if i + 1 < n then NameOff(b, i + 1) else |b|;
    var name := if p <= q <= |b| then b[p..q] else [];
    Ent(if i + 1 < n then name else name[..StrLen(name)], U64(b, i * DIRENT), b[i * DIRENT + 10])
  }

  function DecodeBlock(b: seq<byte>): seq<Ent> {
    if |b| < DIRENT then [] else
    var n := NameOff(b, 0) / DIRENT;
    if n * DIRENT > |b| then [] else seq(n, i requires 0 <= i < n => DecodeEnt(b, n, i))
  }

  lemma {:induction false} DirentAt(es: seq<Ent>, off: nat, i: nat)
    requires EntsOk(es) && off + NamesLen(es) < 0x1_0000 && i < |es|
    ensures NamesLen(es[..i]) <= NamesLen(es)
    ensures Dirents(es, off)[i * DIRENT..(i + 1) * DIRENT] == DirentBytes(es[i].nid, off + NamesLen(es[..i]), es[i].ft)
    decreases |es|
  {
    hide DirentBytes;
    var n := |es| - 1;
    var a, z := Dirents(es[..n], off), DirentBytes(es[n].nid, off + NamesLen(es[..n]), es[n].ft);
    assert Dirents(es, off) == a + z;
    if i == n { assert (a + z)[|a|..] == z; } else {
      DirentAt(es[..n], off, i);
      assert es[..n][..i] == es[..i];
      hide Dirents, NamesLen;
      SlicePrefix(a, z, i * DIRENT, (i + 1) * DIRENT);
    }
  }

  lemma SlicePrefix(a: seq<byte>, z: seq<byte>, p: nat, q: nat)
    requires p <= q <= |a|
    ensures (a + z)[p..q] == a[p..q]
  {
  }

  lemma SliceMiddle(a: seq<byte>, m: seq<byte>, z: seq<byte>, p: nat, q: nat)
    requires p <= q <= |m|
    ensures (a + m + z)[|a| + p..|a| + q] == m[p..q]
  {
  }

  lemma {:induction false} NameAt(es: seq<Ent>, i: nat)
    requires i < |es|
    ensures NamesLen(es[..i + 1]) == NamesLen(es[..i]) + |es[i].name| <= NamesLen(es)
    ensures Names(es)[NamesLen(es[..i])..NamesLen(es[..i + 1])] == es[i].name
    decreases |es|
  {
    var n := |es| - 1;
    SizeNext(es, i);
    var a, z := Names(es[..n]), es[n].name;
    if i == n { assert es[..i + 1] == es; assert (a + z)[|a|..] == z; } else {
      NameAt(es[..n], i);
      assert es[..n][..i] == es[..i] && es[..n][..i + 1] == es[..i + 1];
      assert (a + z)[NamesLen(es[..i])..NamesLen(es[..i + 1])] == a[NamesLen(es[..i])..NamesLen(es[..i + 1])];
    }
  }

  lemma DirentFields(b: seq<byte>, p: nat, nid: nat, off: nat, ft: byte)
    requires nid < U64_LIMIT && off < 0x1_0000 && p + DIRENT <= |b| && b[p..p + DIRENT] == DirentBytes(nid, off, ft)
    ensures U64(b, p) == nid && U16(b, p + 8) == off && b[p + 10] == ft
  {
    var d := DirentBytes(nid, off, ft);
    assert forall k :: 0 <= k < DIRENT ==> b[p + k] == d[k];
    assert U64(b, p) == U64(Le64(nid), 0);
    assert U16(b, p + 8) == U16(Le16(off), 0);
    assert b[p + 10] == d[10] == ft;
  }

  /** Where the name of entry `i` lies in its block. */
  function NamePos(es: seq<Ent>, i: nat): nat
    requires i <= |es|
  {
    |es| * DIRENT + NamesLen(es[..i])
  }

  lemma BlockAt(es: seq<Ent>, pad: nat, b: seq<byte>, i: nat)
    requires EntsOk(es) && Size(es) + pad <= BLOCK && i < |es| && b == Block(es) + Zeros(pad)
    ensures (i + 1) * DIRENT <= |b| && U64(b, i * DIRENT) == es[i].nid && NameOff(b, i) == NamePos(es, i)
    ensures b[i * DIRENT + 10] == es[i].ft
    ensures NamePos(es, i + 1) == NamePos(es, i) + |es[i].name| <= Size(es)
    ensures b[NamePos(es, i)..NamePos(es, i + 1)] == es[i].name
  {
    hide *;
    BlockParts(es, pad, b);
    DirentPart(es, pad, b, i);
    NamePart(es, pad, b, i);
  }

  lemma BlockParts(es: seq<Ent>, pad: nat, b: seq<byte>)
    requires EntsOk(es) && Size(es) + pad <= BLOCK && b == Block(es) + Zeros(pad)
    ensures |es| * DIRENT + NamesLen(es) < 0x1_0000
    ensures b == Dirents(es, |es| * DIRENT) + Names(es) + Zeros(pad)
    ensures b == Dirents(es, |es| * DIRENT) + (Names(es) + Zeros(pad))
  {
    hide Dirents, Names, Zeros, NamesLen;
  }

  lemma DirentPart(es: seq<Ent>, pad: nat, b: seq<byte>, i: nat)
    requires EntsOk(es) && i < |es| && |es| * DIRENT + NamesLen(es) < 0x1_0000
    requires b == Dirents(es, |es| * DIRENT) + (Names(es) + Zeros(pad))
    ensures (i + 1) * DIRENT <= |b| && U64(b, i * DIRENT) == es[i].nid && NameOff(b, i) == NamePos(es, i)
    ensures b[i * DIRENT + 10] == es[i].ft
  {
    hide Dirents, Names, Zeros, NamesLen, DirentBytes, U64, U16, EntsOk;
    var d := Dirents(es, |es| * DIRENT);
    DirentAt(es, |es| * DIRENT, i);
    SlicePrefix(d, Names(es) + Zeros(pad), i * DIRENT, (i + 1) * DIRENT);
    EntIs(es, i);
    DirentFields(b, i * DIRENT, es[i].nid, NamePos(es, i), es[i].ft);
  }

  lemma EntIs(es: seq<Ent>, i: nat)
    requires EntsOk(es) && i < |es|
    ensures es[i].nid < U64_LIMIT
  {
  }

  lemma NamePart(es: seq<Ent>, pad: nat, b: seq<byte>, i: nat)
    requires EntsOk(es) && i < |es| && |es| * DIRENT + NamesLen(es) < 0x1_0000
    requires b == Dirents(es, |es| * DIRENT) + Names(es) + Zeros(pad)
    ensures NamePos(es, i + 1) == NamePos(es, i) + |es[i].name| <= Size(es)
    ensures b[NamePos(es, i)..NamePos(es, i + 1)] == es[i].name
  {
    hide Dirents, Names, Zeros, NamesLen, EntsOk;
    NameAt(es, i);
    SliceMiddle(Dirents(es, |es| * DIRENT), Names(es), Zeros(pad), NamesLen(es[..i]), NamesLen(es[..i + 1]));
  }

  lemma StrLenIs(name: seq<byte>, pad: nat)
    requires forall i :: 0 <= i < |name| ==> name[i] != 0
    ensures StrLen(name + Zeros(pad)) == |name| && (name + Zeros(pad))[..|name|] == name
  {
    var b := name + Zeros(pad);
    assert forall i :: 0 <= i < |name| ==> b[i] == name[i];
    assert |name| < |b| ==> b[|name|] == 0;
  }

  /** A block, padded with zeros or not, decodes to its entries. */
  lemma BlockDecodes(es: seq<Ent>, pad: nat)
    requires EntsOk(es) && es != [] && Size(es) + pad <= BLOCK
    ensures DecodeBlock(Block(es) + Zeros(pad)) == es
  {
    hide *;
    var b, n := Block(es) + Zeros(pad), |es|;
    BlockAt(es, pad, b, 0);
    FirstName(es);
    BlockParts(es, pad, b);
    DecodeIs(b, n);
    forall i | 0 <= i < n ensures DecodeBlock(b)[i] == es[i] { EntDecodes(es, pad, b, i); }
    assert DecodeBlock(b) == es;
  }

  lemma FirstName(es: seq<Ent>)
    requires es != []
    ensures NamePos(es, 0) == |es| * DIRENT
  {
  }

  lemma DecodeIs(b: seq<byte>, n: nat)
    requires n > 0 && DIRENT <= |b| && NameOff(b, 0) == n * DIRENT <= |b|
    ensures |DecodeBlock(b)| == n && forall i :: 0 <= i < n ==> DecodeBlock(b)[i] == DecodeEnt(b, n, i)
  {
    hide DecodeEnt, NameOff;
  }

  lemma EntDecodes(es: seq<Ent>, pad: nat, b: seq<byte>, i: nat)
    requires EntsOk(es) && Size(es) + pad <= BLOCK && i < |es| && b == Block(es) + Zeros(pad) && |es| * DIRENT <= |b|
    ensures DecodeEnt(b, |es|, i) == es[i]
  {
    hide U64, NameOff, Block, StrLen, NamePos, Zeros, Size;
    BlockAt(es, pad, b, i);
    if i + 1 < |es| {
      BlockAt(es, pad, b, i + 1);
      EntIsMiddle(b, |es|, i, NamePos(es, i), NamePos(es, i + 1), es[i]);
    } else {
      LastName(es, pad, b);
      EntIsLast(b, |es|, NamePos(es, i), es[i]);
    }
  }

  lemma EntIsMiddle(b: seq<byte>, n: nat, i: nat, p: nat, q: nat, e: Ent)
    requires i + 1 < n && n * DIRENT <= |b| && NameOff(b, i) == p && NameOff(b, i + 1) == q && p <= q <= |b|
    requires b[p..q] == e.name
    requires U64(b, i * DIRENT) == e.nid && b[i * DIRENT + 10] == e.ft
    ensures DecodeEnt(b, n, i) == e
  {
    hide U64, NameOff, StrLen;
  }

  lemma EntIsLast(b: seq<byte>, n: nat, p: nat, e: Ent)
    requires n > 0 && n * DIRENT <= |b| && NameOff(b, n - 1) == p <= |b|
    requires var name := b[p..]; name[..StrLen(name)] == e.name
    requires U64(b, (n - 1) * DIRENT) == e.nid && b[(n - 1) * DIRENT + 10] == e.ft
    ensures DecodeEnt(b, n, n - 1) == e
  {
    hide U64, NameOff, StrLen;
    assert b[p..|b|] == b[p..];
  }

  lemma LastName(es: seq<Ent>, pad: nat, b: seq<byte>)
    requires EntsOk(es) && es != [] && Size(es) + pad <= BLOCK && b == Block(es) + Zeros(pad)
    ensures NamePos(es, |es| - 1) <= |b|
    ensures var name := b[NamePos(es, |es| - 1)..]; name[..StrLen(name)] == es[|es| - 1].name
  {
    var i := |es| - 1;
    BlockAt(es, pad, b, i);
    StrLenIs(es[i].name, pad);
    assert es[..i + 1] == es;
    var p, n := NamePos(es, i), NamePos(es, i + 1);
    assert n == |Block(es)|;
    hide Block, StrLen, NamePos, Zeros, Size, U64, U16;
    SliceTail(Block(es), Zeros(pad), p, es[i].name);
  }

  lemma SliceTail(a: seq<byte>, z: seq<byte>, p: nat, name: seq<byte>)
    requires p <= |a| && (a + z)[p..|a|] == name
    ensures (a + z)[p..] == name + z
  {
  }

  // ---- whole directories ----

  ghost function Fitting(es: seq<Ent>): (k: nat)
    requires EntsOk(es) && es != []
    ensures 0 < k && Fits(es, k)
  {
    FitExists(es, 1);
    var k :| 0 < k && Fits(es, k);
    k
  }

  lemma {:induction false} FitExists(es: seq<Ent>, j: nat)
    requires EntsOk(es) && 0 < j <= |es| && (j == 1 || Size(es[..j]) <= BLOCK)
    ensures exists k :: 0 < k && Fits(es, k)
    decreases |es| - j
  {
    if j == 1 { SizeNext(es, 0); assert es[..0] == []; }
    if j < |es| && Size(es[..j + 1]) <= BLOCK { FitExists(es, j + 1); } else { assert Fits(es, j); }
  }

  lemma FitUnique(es: seq<Ent>, j: nat, k: nat)
    requires Fits(es, j) && Fits(es, k)
    ensures j == k
  {
    if j < k { SizeGrows(es, j + 1, k); }
    if k < j { SizeGrows(es, k + 1, j); }
  }

  /** The whole stream: greedy blocks, all but the last padded to a full block. */
  ghost function Encode(es: seq<Ent>): seq<byte>
    requires EntsOk(es)
    decreases |es|
  {
    if es == [] then [] else
    var k := Fitting(es);
    assert k == |es| ==> es[..k] == es;
    if k == |es| then Block(es) else Block(es[..k]) + Zeros(BLOCK - Size(es[..k])) + Encode(es[k..])
  }

  function DecodeDir(d: seq<byte>): seq<Ent>
    decreases |d|
  {
    if d == [] then [] else if |d| <= BLOCK then DecodeBlock(d) else DecodeBlock(d[..BLOCK]) + DecodeDir(d[BLOCK..])
  }

  /** Decoding what encode_dir emits gives every entry back, in order. */
  lemma {:induction false} DirRoundTrip(es: seq<Ent>)
    requires EntsOk(es)
    ensures DecodeDir(Encode(es)) == es
    ensures es != [] ==> Encode(es) != []
    decreases |es|
  {
    hide *;
    if es == [] { EncodeNone(); } else {
      var k := EncodeSplit(es);
      var a, rest, b := es[..k], es[k..], Block(es[..k]) + Zeros(if k == |es| then 0 else BLOCK - Size(es[..k]));
      BlockDecodes(a, if k == |es| then 0 else BLOCK - Size(a));
      if k == |es| { OneBlock(b); } else {
        DirRoundTrip(rest);
        MoreBlocks(b, Encode(rest));
        assert a + rest == es;
      }
    }
  }

  lemma EncodeNone()
    ensures Encode([]) == [] && DecodeDir([]) == []
  {
  }

  lemma EncodeSplit(es: seq<Ent>) returns (k: nat)
    requires EntsOk(es) && es != []
    ensures 0 < k <= |es| && EntsOk(es[..k]) && EntsOk(es[k..]) && 0 < Size(es[..k]) <= BLOCK
    ensures k == |es| ==> es[..k] == es && Encode(es) == Block(es[..k]) + Zeros(0) && |Encode(es)| == Size(es[..k])
    ensures k < |es| ==> es[k..] != [] && Encode(es) == Block(es[..k]) + Zeros(BLOCK - Size(es[..k])) + Encode(es[k..])
    ensures k < |es| ==> |Block(es[..k]) + Zeros(BLOCK - Size(es[..k]))| == BLOCK
  {
    k := Fitting(es);
    hide Block, NamesLen;
    if k == |es| { assert es[..k] == es; assert Block(es) + Zeros(0) == Block(es); }
  }

  lemma OneBlock(b: seq<byte>)
    requires 0 < |b| <= BLOCK
    ensures DecodeDir(b) == DecodeBlock(b)
  {
  }

  lemma MoreBlocks(b: seq<byte>, z: seq<byte>)
    requires |b| == BLOCK && z != []
    ensures DecodeDir(b + z) == DecodeBlock(b) + DecodeDir(z)
  {
    hide DecodeBlock;
    assert (b + z)[..BLOCK] == b && (b + z)[BLOCK..] == z;
  }

  // ---- lengths do not depend on nids ----

  ghost predicate SameNames(es: seq<Ent>, fs: seq<Ent>) {
    |es| == |fs| && forall i :: 0 <= i < |es| ==> |es[i].name| == |fs[i].name|
  }

  lemma {:induction false} SameSize(es: seq<Ent>, fs: seq<Ent>)
    requires SameNames(es, fs)
    ensures Size(es) == Size(fs) && NamesLen(es) == NamesLen(fs)
  {
    if es != [] { SameSize(es[..|es| - 1], fs[..|fs| - 1]); }
  }

  lemma SameFit(es: seq<Ent>, fs: seq<Ent>, k: nat)
    requires SameNames(es, fs) && Fits(es, k)
    ensures Fits(fs, k)
  {
    SameSize(es[..k], fs[..k]);
    if k < |es| { SameSize(es[..k + 1], fs[..k + 1]); }
  }

  /** The length computed before any nid is known stays exact. */
  lemma {:induction false} LengthFixed(es: seq<Ent>, fs: seq<Ent>)
    requires EntsOk(es) && EntsOk(fs) && SameNames(es, fs)
    ensures |Encode(es)| == |Encode(fs)|
    decreases |es|
  {
    if es != [] {
      var k := Fitting(es);
      SameFit(es, fs, k);
      FitUnique(fs, k, Fitting(fs));
      SameSize(es, fs);
      SameSize(es[..k], fs[..k]);
      hide Block, Fits, NamesLen;
      if k < |es| { LengthFixed(es[k..], fs[k..]); }
    }
  }

  /** encode_dir's two loops, block by block. */
  method EncodeDir(es: seq<Ent>) returns (out: seq<byte>)
    requires EntsOk(es)
    ensures out == Encode(es)
  {
    hide Block, Fits, Size, NamesLen;
    out := [];
    var i := 0;
    assert es[0..] == es;
    while i < |es|
      invariant i <= |es| && out + Encode(es[i..]) == Encode(es)
      decreases |es| - i
    {
      var k, names := CountFitting(es, i);
      BlockSize(es[i..], k);
      var part := es[i..i + k];
      assert part == es[i..][..k];
      FitUnique(es[i..], k, Fitting(es[i..]));
      var block := EncodeBlock(part);
      ghost var before, rest := out, es[i..];
      i := i + k;
      if i < |es| { block := block + Zeros(BLOCK - |block|); }
      out := out + block;
      assert rest[k..] == es[i..];
      assert i == |es| ==> rest[..k] == rest;
      assert Encode(rest) == block + Encode(es[i..]);
      Reassociate(before, block, Encode(es[i..]));
    }
    assert es[|es|..] == [];
  }

  lemma Reassociate(a: seq<byte>, b: seq<byte>, c: seq<byte>)
    ensures a + (b + c) == a + b + c
  {
  }

  lemma BlockSize(es: seq<Ent>, k: nat)
    requires Fits(es, k)
    ensures k <= |es| && Size(es[..k]) <= BLOCK
  {
  }

  // ---- order ----

  ghost predicate Sorted(es: seq<Ent>) { forall i :: 0 <= i < |es| - 1 ==> Less(es[i].name, es[i + 1].name) }

  const DOT: seq<byte> := [46]
  const DOTDOT: seq<byte> := [46, 46]

  /** ".", "..", then the children: strictly sorted exactly when the first child's name
      comes after "..". */
  lemma DotsSorted(self: Ent, parent: Ent, children: seq<Ent>)
    requires self.name == DOT && parent.name == DOTDOT && Sorted(children)
    ensures Sorted([self, parent] + children) <==> children == [] || Less(DOTDOT, children[0].name)
  {
    var all := [self, parent] + children;
    assert Less(DOT[1..], DOTDOT[1..]);
    assert Less(DOT, DOTDOT);
    assert forall i :: 2 <= i < |all| ==> all[i] == children[i - 2];
    if children != [] && Less(DOTDOT, children[0].name) {
      forall i | 0 <= i < |all| - 1 ensures Less(all[i].name, all[i + 1].name) {
        if i >= 2 { assert Less(children[i - 2].name, children[i - 2 + 1].name); }
      }
    }
    if children != [] && Sorted(all) { assert Less(all[1].name, all[1 + 1].name); }
  }
}
