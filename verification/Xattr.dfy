/** Extended attributes: XattrState and put_xattrs (ext4/src/writer.rs) against
    get_xattrs, read_xattrs and read_inline_data (ext4/src/format.rs, ext4/src/reader.rs). */
module Xattr {
  import opened Bytes

  const MAGIC: nat := 0xea02_0000
  const INODE_EXTRA_SIZE: nat := 104
  const INODE_DATA_SIZE: nat := 60
  const INODE_ROOM: nat := INODE_EXTRA_SIZE - 8
  const BLOCK_ROOM: nat := BLOCK - 36
  const INLINE_DATA_SIZE: nat := INODE_DATA_SIZE + INODE_EXTRA_SIZE - 28
  const ENTRY: nat := 16

  type Map = map<seq<byte>, seq<byte>>

  function Ascii(s: string): (r: seq<byte>)
    ensures |r| == |s|
  {
    seq<byte>(|s|, i requires 0 <= i < |s| => s[i] as int % 256)
  }

  // ---- names ----

  /** Compressed names that get_xattrs reads back. */
  predicate Readable(name: seq<byte>) { 1 <= |name| <= 255 && Utf8(name) }

  datatype Prefix = Prefix(index: byte, text: seq<byte>)

  const PREFIXES: seq<Prefix> := [
    Prefix(2, Ascii("system.posix_acl_access")),
    Prefix(3, Ascii("system.posix_acl_default")),
    Prefix(8, Ascii("system.richacl")),
    Prefix(7, Ascii("system.")),
    Prefix(1, Ascii("user.")),
    Prefix(4, Ascii("trusted.")),
    Prefix(6, Ascii("security."))
  ]

  function CompressWith(ps: seq<Prefix>, name: seq<byte>): (byte, seq<byte>) {
    if ps == [] then (0, name)
    else if ps[0].text <= name then (ps[0].index, name[|ps[0].text|..])
    else CompressWith(ps[1..], name)
  }

  function DecompressWith(ps: seq<Prefix>, index: byte, name: seq<byte>): seq<byte> {
    if ps == [] then name else if ps[0].index == index then ps[0].text + name else DecompressWith(ps[1..], index, name)
  }

  function Compress(name: seq<byte>): (byte, seq<byte>) { CompressWith(PREFIXES, name) }
  function Decompress(index: byte, name: seq<byte>): seq<byte> { DecompressWith(PREFIXES, index, name) }

  ghost predicate OwnIndices(ps: seq<Prefix>) {
    && (forall i :: 0 <= i < |ps| ==> ps[i].index != 0)
    && (forall i, j :: 0 <= i < j < |ps| ==> ps[i].index != ps[j].index)
  }

  lemma {:induction false} CompressIndex(ps: seq<Prefix>, name: seq<byte>)
    ensures CompressWith(ps, name).0 == 0 || exists i :: 0 <= i < |ps| && ps[i].index == CompressWith(ps, name).0
  {
    if ps != [] && !(ps[0].text <= name) {
      CompressIndex(ps[1..], name);
      if CompressWith(ps[1..], name).0 != 0 {
        var i :| 0 <= i < |ps| - 1 && ps[1..][i].index == CompressWith(ps[1..], name).0;
        assert ps[i + 1].index == CompressWith(ps, name).0;
      }
    }
  }

  lemma {:induction false} DecompressCompressWith(ps: seq<Prefix>, name: seq<byte>)
    requires OwnIndices(ps)
    ensures var c := CompressWith(ps, name); DecompressWith(ps, c.0, c.1) == name
  {
    if ps != [] && !(ps[0].text <= name) {
      DecompressCompressWith(ps[1..], name);
      CompressIndex(ps[1..], name);
      var c := CompressWith(ps, name);
      if c.0 != 0 {
        var i :| 0 <= i < |ps| - 1 && ps[1..][i].index == c.0;
        assert ps[i + 1].index == c.0;
      }
    }
  }

  /** Every name comes back from its index and remainder. */
  lemma DecompressCompress(name: seq<byte>)
    ensures var c := Compress(name); Decompress(c.0, c.1) == name
  {
    DecompressCompressWith(PREFIXES, name);
  }

  // ---- entries ----

  datatype Attr = Attr(index: byte, name: seq<byte>, value: seq<byte>)

  function EntryLen(x: Attr): nat { Pad4(|x.name|) + ENTRY }
  function ValueLen(x: Attr): nat { Pad4(|x.value|) }

  /** Total length of the entries, and of the values, of a list. */
  function Entries(xs: seq<Attr>): nat { if xs == [] then 0 else Entries(xs[..|xs| - 1]) + EntryLen(xs[|xs| - 1]) }
  function Values(xs: seq<Attr>): nat { if xs == [] then 0 else Values(xs[..|xs| - 1]) + ValueLen(xs[|xs| - 1]) }

  lemma {:induction false} Grows(xs: seq<Attr>, i: nat, j: nat)
    requires i <= j <= |xs|
    ensures Entries(xs[..i]) <= Entries(xs[..j]) && Values(xs[..i]) <= Values(xs[..j])
    decreases j - i
  {
    if i < j {
      Grows(xs, i, j - 1);
      NextLen(xs, j - 1);
    }
  }

  lemma NextLen(xs: seq<Attr>, i: nat)
    requires i < |xs|
    ensures Entries(xs[..i + 1]) == Entries(xs[..i]) + EntryLen(xs[i])
    ensures Values(xs[..i + 1]) == Values(xs[..i]) + ValueLen(xs[i])
  {
    assert xs[..i + 1][..i] == xs[..i];
  }

  ghost predicate Named(xs: seq<Attr>) { forall i :: 0 <= i < |xs| ==> Readable(xs[i].name) }

  /** Names whose length fits its byte. */
  ghost predicate Fits(xs: seq<Attr>) { forall i :: 0 <= i < |xs| ==> |xs[i].name| <= 255 }

  /** Entry `i`: its header, its name, and its value counted from the end of the buffer. */
  ghost predicate Holds(b: seq<byte>, xs: seq<Attr>, i: nat, delta: nat)
    requires i < |xs|
  {
    HoldsAt(b, xs[i], Entries(xs[..i]), |b| - Values(xs[..i + 1]), delta)
  }

  ghost predicate HoldsAt(b: seq<byte>, x: Attr, e: nat, v: int, delta: nat) {
    && e + EntryLen(x) <= v && v + |x.value| <= |b|
    && b[e] == |x.name| && b[e + 1] == x.index && U16(b, e + 2) == v + delta && U32(b, e + 8) == |x.value|
    && b[e + ENTRY..e + ENTRY + |x.name|] == x.name
    && b[v..v + |x.value|] == x.value
  }

  ghost predicate Stored(b: seq<byte>, xs: seq<Attr>, delta: nat) {
    Entries(xs) + Values(xs) <= |b| && forall i :: 0 <= i < |xs| ==> Holds(b, xs, i, delta)
  }

  // ---- reading ----

  /** get_xattrs from `pos`, adding to `m`. */
  function Get(b: seq<byte>, pos: nat, delta: nat, m: Map): Map
    decreases |b| - pos
  {
    if pos + ENTRY > |b| || b[pos] == 0 || U16(b, pos + 2) < delta then m else
    var n, off, len := b[pos], U16(b, pos + 2) - delta, U32(b, pos + 8);
    if pos + ENTRY + n > |b| || off + len > |b| then m
    else if !Utf8(b[pos + ENTRY..pos + ENTRY + n]) then Get(b, pos + Pad4(n) + ENTRY, delta, m)
    else Get(b, pos + Pad4(n) + ENTRY, delta,
             m[Decompress(b[pos + 1], b[pos + ENTRY..pos + ENTRY + n]) := b[off..off + len]])
  }

  method GetXattrs(b: seq<byte>, delta: nat, m0: Map) returns (m: Map)
    ensures m == Get(b, 0, delta, m0)
  {
    hide U16, U32, Decompress, Utf8;
    m := m0;
    var pos := 0;
    while pos < |b|
      invariant Get(b, pos, delta, m) == Get(b, 0, delta, m0)
      decreases |b| - pos
    {
      if pos + ENTRY > |b| { break; }
      var n := b[pos];
      if n == 0 || U16(b, pos + 2) < delta { break; }
      var off, len := U16(b, pos + 2) - delta, U32(b, pos + 8);
      if pos + ENTRY + n > |b| || off + len > |b| { break; }
      if !Utf8(b[pos + ENTRY..pos + ENTRY + n]) {
        pos := pos + Pad4(n) + ENTRY;
        continue;
      }
      m := m[Decompress(b[pos + 1], b[pos + ENTRY..pos + ENTRY + n]) := b[off..off + len]];
      pos := pos + Pad4(n) + ENTRY;
    }
  }

  function Key(x: Attr): seq<byte> { Decompress(x.index, x.name) }

  /** What a list of attributes means; later ones win. */
  function Adding(m: Map, xs: seq<Attr>): Map {
    if xs == [] then m else Adding(m, xs[..|xs| - 1])[Key(xs[|xs| - 1]) := xs[|xs| - 1].value]
  }

  /** Reading reaches entry `i` if the names before it are not empty. */
  lemma {:induction false} GetReaches(b: seq<byte>, xs: seq<Attr>, delta: nat, m: Map, i: nat)
    requires i <= |xs| && Stored(b, xs, delta) && Named(xs[..i])
    ensures Get(b, 0, delta, m) == Get(b, Entries(xs[..i]), delta, Adding(m, xs[..i]))
  {
    hide *;
    if i == 0 { NoneBefore(m, xs); } else {
      AddingNext(m, xs, i - 1);
      GetReaches(b, xs, delta, m, i - 1);
      GetStep(b, xs, delta, m, i - 1);
    }
  }

  lemma NoneBefore(m: Map, xs: seq<Attr>)
    ensures Entries(xs[..0]) == 0 && Adding(m, xs[..0]) == m
  {
  }

  lemma GetStep(b: seq<byte>, xs: seq<Attr>, delta: nat, m: Map, k: nat)
    requires k < |xs| && Stored(b, xs, delta) && Named(xs[..k + 1])
    ensures Get(b, Entries(xs[..k]), delta, Adding(m, xs[..k])) ==
      Get(b, Entries(xs[..k + 1]), delta, Adding(m, xs[..k + 1]))
  {
    hide Entries, Values, Adding, HoldsAt, Get, EntryLen, Key;
    AddingNext(m, xs, k);
    NextLen(xs, k);
    assert Holds(b, xs, k, delta);
    GetOne(b, Entries(xs[..k]), delta, Adding(m, xs[..k]), xs[k], |b| - Values(xs[..k + 1]));
  }

  lemma AddingNext(m: Map, xs: seq<Attr>, k: nat)
    requires k < |xs|
    ensures Adding(m, xs[..k + 1]) == Adding(m, xs[..k])[Key(xs[k]) := xs[k].value]
    ensures Named(xs[..k + 1]) ==> Named(xs[..k]) && Readable(xs[k].name)
  {
    hide Key, Readable;
    var b := xs[..k + 1];
    assert b[..k] == xs[..k] && b[k] == xs[k];
    assert forall j :: 0 <= j < k ==> xs[..k][j] == b[j];
  }

  lemma GetOne(b: seq<byte>, e: nat, delta: nat, m: Map, x: Attr, v: int)
    requires HoldsAt(b, x, e, v, delta) && Readable(x.name)
    ensures Get(b, e, delta, m) == Get(b, e + EntryLen(x), delta, m[Key(x) := x.value])
  {
    hide U16, U32, Decompress, Utf8;
  }

  /** A stored list with a terminator reads back as itself. */
  lemma StoredReads(b: seq<byte>, xs: seq<Attr>, delta: nat, m: Map)
    requires Named(xs) && Stored(b, xs, delta) && (Entries(xs) + ENTRY <= |b| ==> b[Entries(xs)] == 0)
    ensures Get(b, 0, delta, m) == Adding(m, xs)
  {
    GetReaches(b, xs, delta, m, |xs|);
    assert xs[..|xs|] == xs;
  }

  /** Reading stops at the first empty name: that attribute and all after it are lost.
      A name is empty when it is nothing but a known prefix. */
  lemma EmptyNameStops(b: seq<byte>, xs: seq<Attr>, delta: nat, m: Map, i: nat)
    requires i < |xs| && Stored(b, xs, delta) && Named(xs[..i]) && xs[i].name == []
    ensures Get(b, 0, delta, m) == Adding(m, xs[..i])
  {
    GetReaches(b, xs, delta, m, i);
    assert Holds(b, xs, i, delta);
    hide Entries, Values, Adding, U16, U32;
  }

  // ---- writing ----

  type Hash = h: seq<byte> | |h| == 4 witness [0, 0, 0, 0]

  function Patch(b: seq<byte>, off: nat, data: seq<byte>): (r: seq<byte>)
    requires off + |data| <= |b|
    ensures |r| == |b| && forall i :: 0 <= i < |b| ==> r[i] == if off <= i < off + |data| then data[i - off] else b[i]
  {
    b[..off] + data + b[off + |data|..]
  }

  /** copy_from_slice into a buffer. */
  method CopyInto(buf: array<byte>, off: nat, data: seq<byte>)
    requires off + |data| <= buf.Length
    modifies buf
    ensures buf[..] == Patch(old(buf[..]), off, data)
  {
    for k := 0 to |data|
      invariant forall i :: 0 <= i < buf.Length ==> buf[i] == if off <= i < off + k then data[i - off] else old(buf[i])
    {
      buf[off + k] := data[k];
    }
  }

  function EntryBytes(x: Attr, off: nat, h: Hash): (b: seq<byte>)
    requires |x.name| <= 255 && off < 0x1_0000 && |x.value| < U32_LIMIT
    ensures |b| == ENTRY + |x.name|
  {
    [|x.name| as byte, x.index] + Le16(off) + Le32(0) + Le32(|x.value|) + h + x.name
  }

  lemma EntryFields(x: Attr, off: nat, h: Hash)
    requires |x.name| <= 255 && off < 0x1_0000 && |x.value| < U32_LIMIT
    ensures var b := EntryBytes(x, off, h);
      b[0] == |x.name| && b[1] == x.index && U16(b, 2) == off && U32(b, 8) == |x.value| && b[ENTRY..] == x.name
  {
    var b := EntryBytes(x, off, h);
    assert U16(b, 2) == U16(Le16(off), 0);
    assert U32(b, 8) == U32(Le32(|x.value|), 0);
  }

  /** Entries grow from the front, values from the back, and what lies between is as it
      was: the state after `i` attributes. */
  ghost predicate PutSoFar(b0: seq<byte>, b: seq<byte>, xs: seq<Attr>, i: nat, delta: nat)
    requires i <= |xs|
  {
    && |b| == |b0| && Entries(xs) + Values(xs) <= |b|
    && (forall k :: 0 <= k < i ==> Holds(b, xs, k, delta))
    && (forall p :: Entries(xs[..i]) <= p < |b| - Values(xs[..i]) ==> b[p] == b0[p])
  }

  lemma Room(xs: seq<Attr>, i: nat, n: nat)
    requires i < |xs| && Entries(xs) + Values(xs) <= n
    ensures Entries(xs[..i]) + EntryLen(xs[i]) <= n - Values(xs[..i + 1])
    ensures n - Values(xs[..i + 1]) + ValueLen(xs[i]) == n - Values(xs[..i])
  {
    NextLen(xs, i);
    Grows(xs, i + 1, |xs|);
    assert xs[..|xs|] == xs;
  }

  /** Fields only look at the bytes before the end of their entry and after the start of
      their value. */
  lemma HoldsKept(b: seq<byte>, c: seq<byte>, xs: seq<Attr>, k: nat, i: nat, delta: nat)
    requires k < i < |xs| && |c| == |b| && Entries(xs) + Values(xs) <= |b| && Holds(b, xs, k, delta)
    requires forall p :: 0 <= p < |b| && (p < Entries(xs[..i]) || p >= |b| - Values(xs[..i])) ==> c[p] == b[p]
    ensures Holds(c, xs, k, delta)
  {
    hide Entries, Values, EntryLen;
    NextLen(xs, k);
    Grows(xs, k + 1, i);
    var v := |b| - Values(xs[..k + 1]);
    assert v + |xs[k].value| <= |b|;
    hide HoldsAt;
    HoldsAtKept(b, c, xs[k], Entries(xs[..k]), v, delta);
  }

  lemma HoldsAtKept(b: seq<byte>, c: seq<byte>, x: Attr, e: nat, v: int, delta: nat)
    requires |c| == |b| && HoldsAt(b, x, e, v, delta)
    requires forall p :: e <= p < e + EntryLen(x) || v <= p < v + |x.value| ==> c[p] == b[p]
    ensures HoldsAt(c, x, e, v, delta)
  {
    assert U16(c, e + 2) == U16(b, e + 2) && U32(c, e + 8) == U32(b, e + 8);
    hide U16, U32;
    assert c[e + ENTRY..e + ENTRY + |x.name|] == b[e + ENTRY..e + ENTRY + |x.name|];
    assert c[v..v + |x.value|] == b[v..v + |x.value|];
  }

  lemma HoldsNow(b: seq<byte>, c: seq<byte>, x: Attr, e: nat, v: nat, delta: nat, h: Hash)
    requires |x.name| <= 255 && e + EntryLen(x) <= v && v + |x.value| <= |b| && |b| + delta < 0x1_0000
    requires c == Patch(Patch(b, e, EntryBytes(x, v + delta, h)), v, x.value)
    ensures HoldsAt(c, x, e, v, delta)
  {
    var eb := EntryBytes(x, v + delta, h);
    EntryFields(x, v + delta, h);
    hide EntryBytes;
    assert forall p :: 0 <= p < |eb| ==> c[e + p] == eb[p];
    assert U16(c, e + 2) == U16(eb, 2) && U32(c, e + 8) == U32(eb, 8);
    hide U16, U32;
    assert c[e + ENTRY..e + ENTRY + |x.name|] == eb[ENTRY..];
  }

  lemma PutOne(b0: seq<byte>, b: seq<byte>, c: seq<byte>, xs: seq<Attr>, i: nat, delta: nat, h: Hash)
    requires i < |xs| && Fits(xs) && PutSoFar(b0, b, xs, i, delta) && |b| + delta < 0x1_0000
    requires var e, v := Entries(xs[..i]), |b| - Values(xs[..i + 1]);
      && e + EntryLen(xs[i]) <= v && v + |xs[i].value| <= |b|
      && c == Patch(Patch(b, e, EntryBytes(xs[i], v + delta, h)), v, xs[i].value)
    ensures PutSoFar(b0, c, xs, i + 1, delta)
  {
    hide Entries, Values, EntryBytes, HoldsAt, Patch;
    var x, e, v := xs[i], Entries(xs[..i]), |b| - Values(xs[..i + 1]);
    Room(xs, i, |b|);
    NextLen(xs, i);
    HoldsNow(b, c, x, e, v, delta, h);
    PatchedApart(b, c, e, EntryBytes(x, v + delta, h), v, x.value);
    assert Holds(c, xs, i, delta);
    forall k | 0 <= k < i ensures Holds(c, xs, k, delta) { HoldsKept(b, c, xs, k, i, delta); }
  }

  lemma PatchedApart(b: seq<byte>, c: seq<byte>, e: nat, eb: seq<byte>, v: nat, vb: seq<byte>)
    requires e + |eb| <= v && v + |vb| <= |b| && c == Patch(Patch(b, e, eb), v, vb)
    ensures |c| == |b| && forall p :: 0 <= p < |b| && (p < e || e + |eb| <= p < v || p >= v + |vb|) ==> c[p] == b[p]
  {
  }

  /** put_xattrs into the part of `buf` from `base` on. */
  method PutXattrs(xs: seq<Attr>, buf: array<byte>, base: nat, delta: nat, hash: Attr -> Hash)
    requires Fits(xs) && base <= buf.Length && Entries(xs) + Values(xs) <= buf.Length - base
    requires buf.Length - base + delta < 0x1_0000
    modifies buf
    ensures buf[..base] == old(buf[..base])
    ensures PutSoFar(old(buf[base..]), buf[base..], xs, |xs|, delta)
  {
    hide EntryBytes, PutSoFar, Patch, Entries, Values;
    var n := buf.Length - base;
    var offset, pos, end := n + delta, 0, n;
    PutNone(buf[base..], xs, delta);
    for i := 0 to |xs|
      invariant pos == Entries(xs[..i]) && end == n - Values(xs[..i]) && offset == end + delta
      invariant buf[..base] == old(buf[..base]) && PutSoFar(old(buf[base..]), buf[base..], xs, i, delta)
    {
      var x := xs[i];
      Room(xs, i, n);
      NextLen(xs, i);
      ghost var b := buf[base..];
      offset, end := offset - ValueLen(x), end - ValueLen(x);
      label L:
      CopyInto(buf, base + pos, EntryBytes(x, offset, hash(x)));
      PatchFrom(old@L(buf[..]), base, pos, EntryBytes(x, offset, hash(x)), buf[..]);
      label M:
      CopyInto(buf, base + end, x.value);
      PatchFrom(old@M(buf[..]), base, end, x.value, buf[..]);
      Slices(buf, base);
      PutOne(old(buf[base..]), b, buf[base..], xs, i, delta, hash(x));
      pos := pos + EntryLen(x);
    }
  }

  lemma Slices(buf: array<byte>, base: nat)
    requires base <= buf.Length
    ensures buf[..][base..] == buf[base..] && buf[..][..base] == buf[..base]
  {
  }

  lemma PutNone(b: seq<byte>, xs: seq<Attr>, delta: nat)
    requires Entries(xs) + Values(xs) <= |b|
    ensures PutSoFar(b, b, xs, 0, delta) && Entries(xs[..0]) == 0 && Values(xs[..0]) == 0
  {
  }

  lemma PatchFrom(b: seq<byte>, base: nat, off: nat, data: seq<byte>, c: seq<byte>)
    requires base + off + |data| <= |b| && c == Patch(b, base + off, data)
    ensures c[base..] == Patch(b[base..], off, data) && c[..base] == b[..base]
  {
  }

  // ---- the inline and block areas ----

  /** An area holds its magic, then the list with room for the terminator after it. */
  ghost predicate AreaOk(area: seq<byte>, base: nat, xs: seq<Attr>, delta: nat) {
    && 4 <= base <= |area| && U32(area, 0) == MAGIC
    && Stored(area[base..], xs, delta) && Entries(xs) + Values(xs) + 4 <= |area| - base && area[base + Entries(xs)] == 0
  }

  /** A zeroed buffer with the header and the list put into it. */
  method EncodeArea(xs: seq<Attr>, header: seq<byte>, n: nat, base: nat, delta: nat,
                    hash: Attr -> Hash) returns (area: seq<byte>)
    requires Named(xs) && 4 <= |header| <= base <= n && U32(header, 0) == MAGIC && n + delta < 0x1_0000
    requires Entries(xs) + Values(xs) + 4 <= n - base
    ensures |area| == n && AreaOk(area, base, xs, delta)
  {
    hide Entries, Values, Holds;
    var buf := new byte[n](_ => 0);
    CopyInto(buf, 0, header);
    label L:
    assert forall p :: base <= p < n ==> buf[p] == 0;
    PutXattrs(xs, buf, base, delta, hash);
    area := buf[..];
    Slices(buf, base);
    assert forall i :: 0 <= i < 4 ==> area[i] == area[..base][i] == old@L(buf[..base])[i] == header[i];
    ghost var gap := Entries(xs);
    assert xs[..|xs|] == xs;
    assert area[base..][gap] == old@L(buf[base..])[gap] == 0;
  }

  /** The bytes left in the inode and in the block. */
  datatype Spare = Spare(inode: nat, block: nat)

  function Take(l: Spare, n: nat): Option<Spare> {
    if n <= l.inode then Some(l.(inode := l.inode - n))
    else if n <= l.block then Some(l.(block := l.block - n))
    else None
  }

  function Length(x: Attr): nat { EntryLen(x) + ValueLen(x) }

  class XattrState {
    var inodeAttrs: seq<Attr>
    var blockAttrs: seq<Attr>
    var inodeLeft: nat
    var blockLeft: nat

    /** What is used and what is left always make up the whole room. */
    ghost predicate Valid()
      reads this
    {
      && Entries(inodeAttrs) + Values(inodeAttrs) + inodeLeft == INODE_ROOM
      && Entries(blockAttrs) + Values(blockAttrs) + blockLeft == BLOCK_ROOM
    }

    constructor ()
      ensures Valid() && inodeAttrs == [] && blockAttrs == []
    {
      inodeAttrs, blockAttrs, inodeLeft, blockLeft := [], [], INODE_ROOM, BLOCK_ROOM;
    }

    /** add_xattr: into the inode if it fits there, else into the block if it fits. */
    method AddXattr(name: seq<byte>, value: seq<byte>) returns (ok: bool)
      requires Valid()
      modifies this
      ensures Valid()
      ensures inodeLeft + blockLeft ==
        old(inodeLeft + blockLeft) - if ok then EntryLen(AttrOf(name, value)) + ValueLen(AttrOf(name, value)) else 0
      ensures blockLeft <= old(blockLeft) && inodeLeft <= old(inodeLeft)
      ensures Take(Spare(old(inodeLeft), old(blockLeft)), Length(AttrOf(name, value))) ==
        if ok then Some(Spare(inodeLeft, blockLeft)) else None
      ensures var x := AttrOf(name, value);
        var n := EntryLen(x) + ValueLen(x);
        && ok == (n <= old(inodeLeft) || n <= old(blockLeft))
        && inodeAttrs == old(inodeAttrs) + (if n <= old(inodeLeft) then [x] else [])
        && blockAttrs == old(blockAttrs) + (if n > old(inodeLeft) && n <= old(blockLeft) then [x] else [])
    {
      hide Compress;
      var x := AttrOf(name, value);
      var n := EntryLen(x) + ValueLen(x);
      Appended(inodeAttrs, x);
      Appended(blockAttrs, x);
      hide EntryLen, ValueLen, Entries, Values;
      if inodeLeft >= n {
        inodeLeft, inodeAttrs := inodeLeft - n, inodeAttrs + [x];
        return true;
      } else if blockLeft >= n {
        blockLeft, blockAttrs := blockLeft - n, blockAttrs + [x];
        return true;
      }
      return false;
    }
  }

  lemma Appended(xs: seq<Attr>, x: Attr)
    ensures Entries(xs + [x]) == Entries(xs) + EntryLen(x) && Values(xs + [x]) == Values(xs) + ValueLen(x)
  {
    assert (xs + [x])[..|xs|] == xs;
  }

  function AttrOf(name: seq<byte>, value: seq<byte>): Attr { Attr(Compress(name).0, Compress(name).1, value) }

  lemma KeyOf(name: seq<byte>, value: seq<byte>)
    ensures Key(AttrOf(name, value)) == name
  {
    DecompressCompress(name);
    hide Compress, Decompress;
  }

  // ---- lists as maps ----

  ghost predicate Functional(xs: seq<Attr>) {
    forall x, y :: x in xs && y in xs && Key(x) == Key(y) ==> x.value == y.value
  }

  lemma {:induction false} AddingIs(m: Map, xs: seq<Attr>, k: seq<byte>)
    requires Functional(xs)
    ensures (forall x :: x in xs ==> Key(x) != k) ==> (k in Adding(m, xs) <==> k in m)
    ensures (forall x :: x in xs ==> Key(x) != k) ==> (k in m ==> Adding(m, xs)[k] == m[k])
    ensures forall x :: x in xs && Key(x) == k ==> k in Adding(m, xs) && Adding(m, xs)[k] == x.value
  {
    hide Key;
    if xs != [] {
      var n := |xs| - 1;
      assert xs == xs[..n] + [xs[n]];
      AddingIs(m, xs[..n], k);
      assert xs[n] in xs;
    }
  }

  /** The inode's and the block's lists together hold exactly the map's attributes, after
      the file data (`d` is 1) if some of it is kept as an attribute. */
  ghost predicate Splits(attrs: Map, d: nat, a: seq<Attr>, b: seq<Attr>) {
    && d <= 1 && d <= |a| && (d == 1 ==> Key(a[0]) == DATA_NAME)
    && (forall x :: x in a[d..] || x in b ==> Key(x) in attrs && attrs[Key(x)] == x.value)
    && (forall k :: k in attrs ==> Held(a[d..], b, k, attrs[k]))
  }

  ghost predicate Held(a: seq<Attr>, b: seq<Attr>, k: seq<byte>, v: seq<byte>) {
    exists x :: (x in a || x in b) && Key(x) == k && x.value == v
  }

  const DATA_NAME: seq<byte> := Ascii("system.data")

  /** Reading the inode's list and then the block's, in any order of the latter. */
  lemma AreasMean(attrs: Map, d: nat, a: seq<Attr>, b: seq<Attr>, p: seq<Attr>)
    requires Splits(attrs, d, a, b) && (forall x :: x in p <==> x in b) && DATA_NAME !in attrs
    ensures Adding(Adding(map[], a), p) - {DATA_NAME} == attrs
    ensures d == 1 ==> DATA_NAME in Adding(map[], a) && Adding(map[], a)[DATA_NAME] == a[0].value
  {
    hide Key, Adding;
    assert a == a[..d] + a[d..];
    assert forall x :: x in a ==> x in a[d..] || (d == 1 && x == a[0]);
    assert Functional(a) && Functional(p);
    var m0 := Adding(map[], a);
    var m := Adding(m0, p);
    forall k | k != DATA_NAME ensures (k in m <==> k in attrs) && (k in attrs ==> m[k] == attrs[k]) {
      AddingIs(map[], a, k);
      AddingIs(m0, p, k);
      if k in attrs { assert Held(a[d..], b, k, attrs[k]); }
    }
    AddingIs(map[], a, DATA_NAME);
    assert m - {DATA_NAME} == attrs;
  }

  // ---- an inode's attributes, written and read ----

  predicate Before(x: Attr, y: Attr) {
    x.index < y.index || (x.index == y.index && (|x.name| < |y.name| || (|x.name| == |y.name| && Less(x.name, y.name))))
  }

  /** No attribute comes before an earlier one. */
  ghost predicate Sorted(xs: seq<Attr>) { forall i, j :: 0 <= i < j < |xs| ==> !Before(xs[j], xs[i]) }

  lemma BeforeOrder(x: Attr, y: Attr, z: Attr)
    ensures Before(x, y) ==> !Before(y, x)
    ensures !Before(y, x) && !Before(z, y) ==> !Before(z, x)
  {
    hide Less;
    LessTotal(x.name, y.name);
    LessTotal(y.name, z.name);
    LessNotSelf(x.name);
    if Less(x.name, y.name) && Less(y.name, x.name) { LessTrans(x.name, y.name, x.name); }
    if Less(z.name, x.name) && Less(x.name, y.name) { LessTrans(z.name, x.name, y.name); }
    if Less(y.name, z.name) && Less(z.name, x.name) { LessTrans(y.name, z.name, x.name); }
    if Less(z.name, y.name) && Less(y.name, z.name) { LessTrans(z.name, y.name, z.name); LessNotSelf(z.name); }
  }

  /** sort_by on (index, name length, name). */
  method SortAttrs(xs: seq<Attr>) returns (r: seq<Attr>)
    ensures multiset(r) == multiset(xs) && Sorted(r) && Entries(r) == Entries(xs) && Values(r) == Values(xs)
  {
    hide Before, EntryLen, ValueLen, Entries, Values, Sorted;
    r := [];
    NoneSorted();
    assert xs[..0] == [];
    for i := 0 to |xs|
      invariant multiset(r) == multiset(xs[..i]) && Sorted(r) && Entries(r) == Entries(xs[..i])
      invariant Values(r) == Values(xs[..i])
    {
      var k := |r|;
      while k > 0 && Before(xs[i], r[k - 1])
        invariant 0 <= k <= |r| && forall j :: k <= j < |r| ==> Before(xs[i], r[j])
      {
        k := k - 1;
      }
      Inserted(r, k, xs[i]);
      InsertSorted(r, k, xs[i]);
      NextLen(xs, i);
      assert xs[..i + 1] == xs[..i] + [xs[i]];
      assert r == r[..k] + r[k..];
      r := r[..k] + [xs[i]] + r[k..];
    }
    assert xs[..|xs|] == xs;
  }

  lemma NoneSorted()
    ensures Sorted([])
  {
  }

  lemma InsertSorted(r: seq<Attr>, k: nat, x: Attr)
    requires Sorted(r) && k <= |r| && (forall j :: k <= j < |r| ==> Before(x, r[j])) && (k > 0 ==> !Before(x, r[k - 1]))
    ensures Sorted(r[..k] + [x] + r[k..])
  {
    hide Before;
    var s := r[..k] + [x] + r[k..];
    assert forall i :: 0 <= i < |s| ==> s[i] == if i < k then r[i] else if i == k then x else r[i - 1];
    forall i, j | 0 <= i < j < |s| ensures !Before(s[j], s[i]) {
      if j == k { if i < k - 1 { BeforeOrder(r[i], r[k - 1], x); } }
      else if i == k { BeforeOrder(x, r[j - 1], x); }
    }
  }

  lemma {:induction false} Inserted(r: seq<Attr>, k: nat, x: Attr)
    requires k <= |r|
    ensures var s := r[..k] + [x] + r[k..];
      && Entries(s) == Entries(r) + EntryLen(x) && Values(s) == Values(r) + ValueLen(x)
    decreases |r| - k
  {
    hide EntryLen, ValueLen, Entries, Values;
    if k == |r| { assert r[..k] + [x] + r[k..] == r + [x]; Appended(r, x); } else {
      var n := |r| - 1;
      Inserted(r[..n], k, x);
      InsertLast(r, k, x);
      Appended(r[..n][..k] + [x] + r[..n][k..], r[n]);
      Appended(r[..n], r[n]);
    }
  }

  lemma InsertLast<T>(r: seq<T>, k: nat, x: T)
    requires k < |r|
    ensures var n := |r| - 1;
      r == r[..n] + [r[n]] && r[..k] + [x] + r[k..] == (r[..n][..k] + [x] + r[..n][k..]) + [r[n]]
  {
  }

  /** The areas of an inode: its 104 extra bytes and, if needed, one block. */
  datatype Areas = Areas(inline: seq<byte>, block: Option<seq<byte>>)

  ghost predicate AreasOk(r: Areas, a: seq<Attr>, p: seq<Attr>, reused: bool) {
    && Named(a) && Named(p) && |r.inline| == INODE_EXTRA_SIZE
    && (if a == [] then U32(r.inline, 0) == 0 else AreaOk(r.inline, 4, a, 0))
    && (if p == [] && !reused then r.block.None?
        else r.block.Some? && |r.block.value| == BLOCK && AreaOk(r.block.value, 32, p, 32))
  }

  /** How much of inline file data spills out of the inode's block area. */
  function Spill(size: nat): nat { if size > INODE_DATA_SIZE then size - INODE_DATA_SIZE else 0 }

  ghost predicate Storable(attrs: Map) { DATA_NAME !in attrs && forall k :: k in attrs ==> Readable(Compress(k).1) }

  /** The lists after the first `i` attributes of the order. */
  ghost predicate Filled(attrs: Map, order: seq<seq<byte>>, i: nat, d: nat, a: seq<Attr>, b: seq<Attr>)
    requires i <= |order| && forall j :: 0 <= j < |order| ==> order[j] in attrs
  {
    && d <= |a|
    && (forall x :: x in a[d..] || x in b ==> Taken(attrs, order, i, x))
    && (forall j :: 0 <= j < i ==>
        AttrOf(order[j], attrs[order[j]]) in a[d..] || AttrOf(order[j], attrs[order[j]]) in b)
  }

  ghost predicate Taken(attrs: Map, order: seq<seq<byte>>, i: nat, x: Attr)
    requires i <= |order| && forall j :: 0 <= j < |order| ==> order[j] in attrs
  {
    exists j :: 0 <= j < i && x == AttrOf(order[j], attrs[order[j]])
  }

  lemma FilledNext(attrs: Map, order: seq<seq<byte>>, i: nat, d: nat, a: seq<Attr>, b: seq<Attr>, a2: seq<Attr>,
                   b2: seq<Attr>)
    requires i < |order| && forall j :: 0 <= j < |order| ==> order[j] in attrs
    requires Filled(attrs, order, i, d, a, b)
    requires var x := AttrOf(order[i], attrs[order[i]]); (a2 == a + [x] && b2 == b) || (a2 == a && b2 == b + [x])
    ensures Filled(attrs, order, i + 1, d, a2, b2)
  {
    hide AttrOf;
    var x := AttrOf(order[i], attrs[order[i]]);
    assert a2 == a + [x] ==> a2[d..] == a[d..] + [x];
    forall y | y in a2[d..] || y in b2 ensures Taken(attrs, order, i + 1, y) {
      if y != x { assert Taken(attrs, order, i, y); }
    }
  }

  /** What the first `i` attributes take together. */
  function Demand(attrs: Map, order: seq<seq<byte>>, i: nat): nat
    requires i <= |order| && forall j :: 0 <= j < |order| ==> order[j] in attrs
  {
    if i == 0 then 0 else
    var x := AttrOf(order[i - 1], attrs[order[i - 1]]);
    Demand(attrs, order, i - 1) + EntryLen(x) + ValueLen(x)
  }

  /** What is left after the first `i` attributes; nothing once one fits neither place. */
  function Packed(attrs: Map, order: seq<seq<byte>>, i: nat, start: Spare): Option<Spare>
    requires i <= |order| && forall j :: 0 <= j < |order| ==> order[j] in attrs
  {
    if i == 0 then Some(start) else
    var l := Packed(attrs, order, i - 1, start);
    if l.None? then None else Take(l.value, Length(AttrOf(order[i - 1], attrs[order[i - 1]])))
  }

  lemma {:induction false} PackedStops(attrs: Map, order: seq<seq<byte>>, i: nat, k: nat, start: Spare)
    requires i <= k <= |order| && (forall j :: 0 <= j < |order| ==> order[j] in attrs)
    requires Packed(attrs, order, i, start).None?
    ensures Packed(attrs, order, k, start).None?
  {
    if i < k { PackedStops(attrs, order, i, k - 1, start); }
  }

  lemma PackedNext(attrs: Map, order: seq<seq<byte>>, i: nat, start: Spare)
    requires i < |order| && (forall j :: 0 <= j < |order| ==> order[j] in attrs) && Packed(attrs, order, i, start).Some?
    ensures Packed(attrs, order, i + 1, start) ==
      Take(Packed(attrs, order, i, start).value, Length(AttrOf(order[i], attrs[order[i]])))
  {
  }

  lemma PackedNone(attrs: Map, order: seq<seq<byte>>, start: Spare)
    requires forall j :: 0 <= j < |order| ==> order[j] in attrs
    ensures Packed(attrs, order, 0, start) == Some(start)
  {
  }

  /** The room before the first attribute: inline data has taken its part of the inode. */
  function StartRoom(size: Option<nat>): Spare {
    var l := Spare(INODE_ROOM, BLOCK_ROOM);
    if size.None? then l else
    var r := Take(l, Length(AttrOf(DATA_NAME, Zeros(Spill(size.value)))));
    if r.None? then l else r.value
  }

  /** When all attributes find a place, taken in the order given. */
  predicate AllPlaced(attrs: Map, order: seq<seq<byte>>, size: Option<nat>) {
    (forall j :: 0 <= j < |order| ==> order[j] in attrs) && Packed(attrs, order, |order|, StartRoom(size)).Some?
  }

  lemma {:induction false} DemandGrows(attrs: Map, order: seq<seq<byte>>, i: nat, k: nat)
    requires i <= k <= |order| && forall j :: 0 <= j < |order| ==> order[j] in attrs
    ensures Demand(attrs, order, i) <= Demand(attrs, order, k)
  {
    if i < k { DemandGrows(attrs, order, i, k - 1); }
  }

  /** make_inode's attribute part: inline file data of `size` bytes first reserves its
      place with zeros; every attribute of the map, taken in any order, is added. It fails
      exactly if one of them fits neither what is left of the inode nor of the block; so never
      while all attributes together fit a block, and always once they take more than both. */
  method FillState(attrs: Map, order: seq<seq<byte>>, size: Option<nat>, st: XattrState) returns (ok: bool)
    requires Storable(attrs) && (forall k :: k in order <==> k in attrs)
    requires (size.Some? ==> size.value <= INLINE_DATA_SIZE)
    requires st.Valid() && st.inodeAttrs == [] && st.blockAttrs == []
    modifies st
    ensures st.Valid()
    ensures ok ==> Splits(attrs, if size.Some? then 1 else 0, st.inodeAttrs, st.blockAttrs)
    ensures ok && size.Some? ==> st.inodeAttrs[0] == AttrOf(DATA_NAME, Zeros(Spill(size.value)))
    ensures ok ==> Named(st.inodeAttrs) && Named(st.blockAttrs)
    ensures ok <==> AllPlaced(attrs, order, size)
    ensures
      && (forall j :: 0 <= j < |order| ==> order[j] in attrs)
      && (Demand(attrs, order, |order|) <= BLOCK_ROOM ==> ok)
      && (ok ==> Demand(attrs, order, |order|) <= INODE_ROOM + BLOCK_ROOM)
  {
    hide Compress, Decompress, EntryLen, ValueLen, Filled, Splits, Entries, Values, AttrOf, Readable, Demand, Packed,
         Take, Length;
    ghost var first: seq<Attr> := [];
    assert forall j :: 0 <= j < |order| ==> order[j] in attrs;
    NoneTotal();
    NoDemand(attrs, order);
    if size.Some? {
      DataFits(size.value);
      NameOf(DATA_NAME, Zeros(Spill(size.value)));
      ok := st.AddXattr(DATA_NAME, Zeros(Spill(size.value)));
      first := st.inodeAttrs;
    }
    FilledNone(attrs, order, st.inodeAttrs);
    ghost var start := StartRoom(size);
    PackedNone(attrs, order, start);
    for i := 0 to |order|
      invariant st.Valid() && first <= st.inodeAttrs && Named(st.inodeAttrs) && Named(st.blockAttrs)
      invariant Filled(attrs, order, i, |first|, st.inodeAttrs, st.blockAttrs)
      invariant Packed(attrs, order, i, start) == Some(Spare(st.inodeLeft, st.blockLeft))
      invariant BLOCK_ROOM - st.blockLeft <= Demand(attrs, order, i)
      invariant Demand(attrs, order, i) <= INODE_ROOM - st.inodeLeft + BLOCK_ROOM - st.blockLeft
    {
      ghost var a, b := st.inodeAttrs, st.blockAttrs;
      DemandNext(attrs, order, i);
      DemandGrows(attrs, order, i + 1, |order|);
      assert Readable(Compress(order[i]).1);
      NameOf(order[i], attrs[order[i]]);
      ghost var left := st.inodeLeft + st.blockLeft;
      ok := st.AddXattr(order[i], attrs[order[i]]);
      PackedNext(attrs, order, i, start);
      if !ok { PackedStops(attrs, order, i + 1, |order|, start); return; }
      assert st.inodeAttrs == a || st.inodeAttrs == a + [AttrOf(order[i], attrs[order[i]])];
      FilledNext(attrs, order, i, |first|, a, b, st.inodeAttrs, st.blockAttrs);
    }
    if size.Some? { KeyOf(DATA_NAME, Zeros(Spill(size.value))); }
    SplitsAll(attrs, order, |first|, st.inodeAttrs, st.blockAttrs);
    ok := true;
  }

  lemma NoneTotal()
    ensures Entries([]) == 0 && Values([]) == 0
  {
  }

  lemma NoDemand(attrs: Map, order: seq<seq<byte>>)
    requires forall j :: 0 <= j < |order| ==> order[j] in attrs
    ensures Demand(attrs, order, 0) == 0
  {
  }

  lemma DemandNext(attrs: Map, order: seq<seq<byte>>, i: nat)
    requires i < |order| && forall j :: 0 <= j < |order| ==> order[j] in attrs
    ensures var x := AttrOf(order[i], attrs[order[i]]);
      Demand(attrs, order, i + 1) == Demand(attrs, order, i) + EntryLen(x) + ValueLen(x)
  {
  }

  lemma NameOf(name: seq<byte>, value: seq<byte>)
    ensures AttrOf(name, value).name == Compress(name).1
  {
  }

  lemma FilledNone(attrs: Map, order: seq<seq<byte>>, a: seq<Attr>)
    requires forall j :: 0 <= j < |order| ==> order[j] in attrs
    ensures Filled(attrs, order, 0, |a|, a, [])
  {
  }

  /** The rest of it: the filled lists become an inline area and a block, whose entries are
      sorted. A block the inode already has is written again even with nothing in it. */
  method MakeAreas(attrs: Map, order: seq<seq<byte>>, size: Option<nat>, reused: bool, hash: Attr -> Hash)
    returns (ok: bool, r: Areas, ghost a: seq<Attr>, ghost b: seq<Attr>, ghost p: seq<Attr>)
    requires Storable(attrs) && (forall k :: k in order <==> k in attrs)
    requires (size.Some? ==> size.value <= INLINE_DATA_SIZE)
    ensures ok <==> AllPlaced(attrs, order, size)
    ensures ok ==> AreasOk(r, a, p, reused) && multiset(p) == multiset(b) && Sorted(p)
    ensures ok ==> Splits(attrs, if size.Some? then 1 else 0, a, b)
    ensures ok && size.Some? ==> a != [] && a[0] == AttrOf(DATA_NAME, Zeros(Spill(size.value)))
  {
    hide Compress, Decompress, EntryLen, ValueLen, Entries, Values, AttrOf, AreaOk, AllPlaced;
    a, b, p, r := [], [], [], Areas([], None);
    var st := new XattrState();
    ok := FillState(attrs, order, size, st);
    if !ok { return; }
    a, b := st.inodeAttrs, st.blockAttrs;
    hide Splits;
    var inline := Zeros(INODE_EXTRA_SIZE);
    if st.inodeAttrs != [] { inline := EncodeArea(st.inodeAttrs, Le32(MAGIC), INODE_EXTRA_SIZE, 4, 0, hash); }
    var sorted := SortAttrs(st.blockAttrs);
    p := sorted;
    NamedOf(b, p);
    var block := None;
    if sorted != [] || reused {
      BlockHeader();
      var area := EncodeArea(sorted, Le32(MAGIC) + Le32(1) + Le32(1), BLOCK, 32, 32, hash);
      block := Some(area);
    }
    r := Areas(inline, block);
  }

  lemma SameMembers(b: seq<Attr>, p: seq<Attr>)
    requires multiset(p) == multiset(b)
    ensures forall x :: x in p <==> x in b
  {
    forall x ensures x in p <==> x in b { assert x in multiset(p) <==> x in multiset(b); }
  }

  lemma NamedOf(b: seq<Attr>, p: seq<Attr>)
    requires Named(b) && multiset(p) == multiset(b)
    ensures Named(p)
  {
    hide Readable;
    SameMembers(b, p);
    forall i | 0 <= i < |p| ensures Readable(p[i].name) { assert p[i] in b; }
  }

  lemma BlockHeader()
    ensures U32(Le32(MAGIC) + Le32(1) + Le32(1), 0) == MAGIC
  {
    assert U32(Le32(MAGIC) + Le32(1) + Le32(1), 0) == U32(Le32(MAGIC), 0);
  }

  /** The reserved place for inline file data always fits, whatever its size. */
  lemma DataFits(size: nat)
    requires size <= INLINE_DATA_SIZE
    ensures Compress(DATA_NAME) == (7, Ascii("data")) && Readable(Compress(DATA_NAME).1)
    ensures var x := AttrOf(DATA_NAME, Zeros(Spill(size))); EntryLen(x) + ValueLen(x) <= INODE_ROOM
  {
    var n := DATA_NAME;
    assert |n| == 11;
    assert PREFIXES[1..][0] == PREFIXES[1] && PREFIXES[1..][1..] == PREFIXES[2..];
    assert PREFIXES[2..][1..] == PREFIXES[3..];
    assert CompressWith(PREFIXES, n) == CompressWith(PREFIXES[1..], n);
    assert CompressWith(PREFIXES[1..], n) == CompressWith(PREFIXES[2..], n);
    assert CompressWith(PREFIXES[2..], n) == CompressWith(PREFIXES[3..], n);
    var s := Ascii("system.");
    assert n[..7] == s;
    assert n[7..] == Ascii("data");
    DataReadable();
  }

  lemma DataReadable()
    ensures Readable(Ascii("data"))
  {
    var s := Ascii("data");
    assert s[0] == 100 && s[1] == 97 && s[2] == 116 && s[3] == 97;
    assert Utf8(s[1..][1..][1..][1..]);
    assert Utf8(s[1..][1..][1..]);
    assert Utf8(s[1..][1..]);
    assert Utf8(s[1..]);
  }

  lemma SplitsAll(attrs: Map, order: seq<seq<byte>>, d: nat, a: seq<Attr>, b: seq<Attr>)
    requires (forall k :: k in order <==> k in attrs) && d <= 1 && d <= |a| && (d == 1 ==> Key(a[0]) == DATA_NAME)
    requires (forall j :: 0 <= j < |order| ==> order[j] in attrs) && Filled(attrs, order, |order|, d, a, b)
    ensures Splits(attrs, d, a, b)
  {
    forall n, v ensures Key(AttrOf(n, v)) == n && AttrOf(n, v).value == v { KeyOf(n, v); }
    hide Compress, Decompress, Key, AttrOf;
    forall k | k in attrs ensures Held(a[d..], b, k, attrs[k]) {
      var j :| 0 <= j < |order| && order[j] == k;
      var x := AttrOf(order[j], attrs[order[j]]);
      assert Key(x) == k && x.value == attrs[k];
    }
    forall x | x in a[d..] || x in b ensures Key(x) in attrs && attrs[Key(x)] == x.value {
      assert Taken(attrs, order, |order|, x);
      var j :| 0 <= j < |order| && x == AttrOf(order[j], attrs[order[j]]);
    }
  }

  /** read_xattrs. */
  method ReadXattrs(r: Areas, ghost a: seq<Attr>, ghost p: seq<Attr>, ghost reused: bool) returns (m: Map)
    requires AreasOk(r, a, p, reused)
    ensures m == Adding(Adding(map[], a), p) - {DATA_NAME}
  {
    m := map[];
    if U32(r.inline, 0) == MAGIC {
      AreaReads(r.inline, 4, a, 0, m);
      m := GetXattrs(r.inline[4..], 0, m);
    }
    if r.block.Some? && U32(r.block.value, 0) == MAGIC {
      AreaReads(r.block.value, 32, p, 32, m);
      m := GetXattrs(r.block.value[32..], 32, m);
    }
    m := m - {DATA_NAME};
  }

  lemma AreaReads(area: seq<byte>, base: nat, xs: seq<Attr>, delta: nat, m: Map)
    requires Named(xs) && AreaOk(area, base, xs, delta)
    ensures Get(area[base..], 0, delta, m) == Adding(m, xs)
  {
    StoredReads(area[base..], xs, delta, m);
  }

  /** read_inline_data: the first bytes from the block area, the rest from "system.data". */
  method ReadInlineData(size: nat, blockArea: seq<byte>, inline: seq<byte>,
                        ghost a: seq<Attr>) returns (data: seq<byte>)
    requires |blockArea| == INODE_DATA_SIZE && |inline| == INODE_EXTRA_SIZE && Named(a) && AreaOk(inline, 4, a, 0)
    ensures var m := Adding(map[], a);
      data == blockArea[..Min(size, INODE_DATA_SIZE)]
              + (if size > INODE_DATA_SIZE && DATA_NAME in m then m[DATA_NAME][..Min(|m[DATA_NAME]|, Spill(size))]
                 else [])
  {
    data := blockArea[..Min(size, INODE_DATA_SIZE)];
    if size > INODE_DATA_SIZE && U32(inline, 0) == MAGIC {
      AreaReads(inline, 4, a, 0, map[]);
      var m := GetXattrs(inline[4..], 0, map[]);
      if DATA_NAME in m { data := data + m[DATA_NAME]; }
    }
    if |data| > size { data := data[..size]; }
  }

  // ---- the overflow of inline file data ----

  ghost predicate SameSizes(xs: seq<Attr>, ys: seq<Attr>) {
    |xs| == |ys| && forall i :: 0 <= i < |xs| ==> |xs[i].name| == |ys[i].name| && |xs[i].value| == |ys[i].value|
  }

  lemma {:induction false} SameTotals(xs: seq<Attr>, ys: seq<Attr>)
    requires SameSizes(xs, ys)
    ensures Entries(xs) == Entries(ys) && Values(xs) == Values(ys)
  {
    if xs != [] { SameTotals(xs[..|xs| - 1], ys[..|ys| - 1]); }
  }

  lemma PrefixTotals(xs: seq<Attr>, ys: seq<Attr>, i: nat)
    requires SameSizes(xs, ys) && i <= |xs|
    ensures Entries(xs[..i]) == Entries(ys[..i]) && Values(xs[..i]) == Values(ys[..i])
  {
    SameTotals(xs[..i], ys[..i]);
  }

  /** write_inode_table's rewrite: putting the real data over its zeros changes the first
      entry's value and nothing else. */
  method RewriteData(inline: seq<byte>, data: seq<byte>,
                     hash: Attr -> Hash, ghost a: seq<Attr>) returns (r: seq<byte>, ghost a2: seq<Attr>)
    requires INODE_DATA_SIZE < |data| <= INLINE_DATA_SIZE && |inline| == INODE_EXTRA_SIZE && Named(a)
    requires AreaOk(inline, 4, a, 0)
    requires a != [] && a[0] == AttrOf(DATA_NAME, Zeros(Spill(|data|)))
    ensures |r| == INODE_EXTRA_SIZE && a2 == [AttrOf(DATA_NAME, data[INODE_DATA_SIZE..])] + a[1..]
    ensures Named(a2) && AreaOk(r, 4, a2, 0)
  {
    hide Compress, Decompress, Entries, Values, U32, Holds;
    var x := AttrOf(DATA_NAME, data[INODE_DATA_SIZE..]);
    DataFits(|data|);
    a2 := [x] + a[1..];
    OneTotal(x);
    var buf := new byte[INODE_EXTRA_SIZE](i requires 0 <= i < INODE_EXTRA_SIZE => inline[i]);
    assert buf[..] == inline;
    Slices(buf, 4);
    PutXattrs([x], buf, 4, 0, hash);
    r := buf[..];
    Slices(buf, 4);
    Rewritten(inline, r, a, a2, x);
  }

  lemma OneTotal(x: Attr)
    ensures Entries([x]) == EntryLen(x) && Values([x]) == ValueLen(x)
  {
    assert [x][..0] == [];
  }

  lemma Rewritten(b: seq<byte>, c: seq<byte>, a: seq<Attr>, a2: seq<Attr>, x: Attr)
    requires |b| == |c| == INODE_EXTRA_SIZE && c[..4] == b[..4] && AreaOk(b, 4, a, 0) && Named(a)
    requires a != [] && a2 == [x] + a[1..] && |x.name| == |a[0].name| && |x.value| == |a[0].value|
    requires PutSoFar(b[4..], c[4..], [x], 1, 0)
    ensures AreaOk(c, 4, a2, 0)
  {
    hide Entries, Values, HoldsAt, EntryLen, ValueLen;
    var p, q := b[4..], c[4..];
    PrefixTotals(a, a2, |a|);
    assert a[..|a|] == a && a2[..|a2|] == a2;
    OneTotal(x);
    assert [x][..1] == [x];
    Grows(a, 1, |a|);
    assert a[..1] == [a[0]];
    OneTotal(a[0]);
    assert forall i :: 0 <= i < 4 ==> c[i] == c[..4][i] == b[..4][i] == b[i];
    assert U32(c, 0) == U32(b, 0);
    hide U32;
    EntrySame(x, a[0]);
    forall i | 0 <= i < |a2| ensures Holds(q, a2, i, 0) {
      if i == 0 {
        assert Holds(q, [x], 0, 0);
        assert a2[..0] == [x][..0] && a2[..1] == [x][..1];
      } else {
        StaysInside(p, q, a, a2, x, i);
      }
    }
    assert c[4 + Entries(a)] == q[Entries(a)] == p[Entries(a)] == b[4 + Entries(a)];
  }

  lemma EntrySame(x: Attr, y: Attr)
    requires |x.name| == |y.name| && |x.value| == |y.value|
    ensures EntryLen(x) == EntryLen(y) && ValueLen(x) == ValueLen(y)
  {
  }

  lemma StaysInside(p: seq<byte>, q: seq<byte>, a: seq<Attr>, a2: seq<Attr>, x: Attr, i: nat)
    requires 0 < i < |a| && |q| == |p| && a2 == [x] + a[1..] && |x.name| == |a[0].name| && |x.value| == |a[0].value|
    requires Holds(p, a, i, 0) && Entries(a) + Values(a) <= |p|
    requires forall k :: EntryLen(x) <= k < |p| - ValueLen(x) ==> q[k] == p[k]
    ensures Holds(q, a2, i, 0)
  {
    hide Entries, Values, HoldsAt;
    PrefixTotals(a, a2, i);
    PrefixTotals(a, a2, i + 1);
    Grows(a, 1, i);
    NextLen(a, i);
    assert a[..1] == [a[0]];
    OneTotal(a[0]);
    Room(a, i, |p|);
    var v := |p| - Values(a[..i + 1]);
    assert v + |a[i].value| <= v + ValueLen(a[i]);
    HoldsAtKept(p, q, a[i], Entries(a[..i]), v, 0);
  }

  /** Attributes and inline file data of any inode come back, exactly if they could be placed. */
  method StoreAndRead(attrs: Map, order: seq<seq<byte>>, file: Option<seq<byte>>, reused: bool, hash: Attr -> Hash)
    returns (ok: bool, back: Map, data: seq<byte>)
    requires Storable(attrs) && (forall k :: k in order <==> k in attrs)
    requires (file.Some? ==> |file.value| <= INLINE_DATA_SIZE)
    ensures ok <==> AllPlaced(attrs, order, if file.Some? then Some(|file.value|) else None)
    ensures ok ==> back == attrs
    ensures ok && file.Some? ==> data == file.value
  {
    hide Compress, Decompress, AreaOk, Splits, EntryLen, ValueLen, AllPlaced;
    back, data := map[], [];
    var r; ghost var a; ghost var b; ghost var p;
    ok, r, a, b, p := MakeAreas(attrs, order, if file.Some? then Some(|file.value|) else None, reused, hash);
    if !ok { return; }
    SameMembers(b, p);
    ghost var d := if file.Some? then 1 else 0;
    if file.Some? {
      if |file.value| > INODE_DATA_SIZE {
        ghost var a2;
        var inline;
        inline, a2 := RewriteData(r.inline, file.value, hash, a);
        SplitsRewritten(attrs, a, b, a2, file.value[INODE_DATA_SIZE..]);
        r, a := r.(inline := inline), a2;
      }
      var area := file.value[..Min(|file.value|, INODE_DATA_SIZE)];
      data := ReadInlineData(|file.value|, area + Zeros(INODE_DATA_SIZE - |area|), r.inline, a);
      AreasMean(attrs, d, a, b, p);
      assert (area + Zeros(INODE_DATA_SIZE - |area|))[..|area|] == area;
    }
    AreasMean(attrs, d, a, b, p);
    back := ReadXattrs(r, a, p, reused);
  }

  lemma SplitsRewritten(attrs: Map, a: seq<Attr>, b: seq<Attr>, a2: seq<Attr>, v: seq<byte>)
    requires a != [] && Splits(attrs, 1, a, b) && a2 == [AttrOf(DATA_NAME, v)] + a[1..]
    ensures Splits(attrs, 1, a2, b)
  {
    KeyOf(DATA_NAME, v);
    hide Key, Compress, AttrOf;
    assert a2[1..] == a[1..];
  }
}
