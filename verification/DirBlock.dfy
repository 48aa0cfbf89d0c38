/** Linear directory blocks: write_directory (ext4/src/writer.rs) and read_dir with
    DirEntry::read_from (ext4/src/reader.rs, ext4/src/format.rs) as inverses. */
module DirBlock {
  import opened Bytes

  const HEADER: nat := 8
  const MAX_NAME: nat := 255
  const DOT: seq<byte> := [46]
  const DOTDOT: seq<byte> := [46, 46]

  datatype DirEnt = DirEnt(ino: nat, typ: nat, name: seq<byte>)

  ghost predicate Writable(e: DirEnt) { 0 < e.ino < U32_LIMIT && e.typ < 8 && 1 <= |e.name| <= MAX_NAME }

  /** A record as it lies in the block: an entry, or padding with inode 0. */
  datatype Rec = Rec(ent: DirEnt, len: nat)

  ghost predicate RecOk(r: Rec) {
    && r.ent.ino < U32_LIMIT && r.ent.typ < 8 && |r.ent.name| <= MAX_NAME && HEADER + |r.ent.name| <= r.len <= BLOCK
    && (r.ent.ino == 0 <==> |r.ent.name| == 0)
  }

  function HeaderBytes(ino: nat, len: nat, nameLen: nat, typ: nat): (b: seq<byte>)
    requires ino < U32_LIMIT && len < 0x1_0000 && nameLen < 256 && typ < 256
    ensures |b| == HEADER
  {
    Le32(ino) + Le16(len) + [nameLen as byte] + [typ as byte]
  }

  function Encode(r: Rec): (b: seq<byte>)
    requires RecOk(r)
    ensures |b| == r.len
  {
    HeaderBytes(r.ent.ino, r.len, |r.ent.name|, r.ent.typ) + r.ent.name + Zeros(r.len - HEADER - |r.ent.name|)
  }

  ghost predicate RecsOk(rs: seq<Rec>) { forall i :: 0 <= i < |rs| ==> RecOk(rs[i]) }

  function Flatten(rs: seq<Rec>): seq<byte>
    requires RecsOk(rs)
  {
    if rs == [] then [] else Flatten(rs[..|rs| - 1]) + Encode(rs[|rs| - 1])
  }

  // ---- reading ----

  /** DirEntry::read_from at `p`: nothing for padding or a short buffer. */
  function ReadFrom(d: seq<byte>, p: nat): Option<DirEnt>
    requires p <= |d|
  {
    if |d| - p < HEADER then None
    else if U32(d, p) == 0 || d[p + 6] == 0 || |d| - p < HEADER + d[p + 6] then None
    else Some(DirEnt(U32(d, p), if 1 <= d[p + 7] <= 7 then d[p + 7] else 0, d[p + HEADER..p + HEADER + d[p + 6]]))
  }

  /** The entries from `p` on, stepping by rec_len; "." and ".." are left out. */
  function Parse(d: seq<byte>, p: nat): seq<DirEnt>
    decreases |d| - p
  {
    if p >= |d| then []
    else if p + 6 <= |d| && U16(d, p + 4) != 0 then Here(d, p) + Parse(d, p + U16(d, p + 4))
    else Here(d, p)
  }

  predicate Dots(name: seq<byte>) { name == DOT || name == DOTDOT }

  function Here(d: seq<byte>, p: nat): seq<DirEnt>
    requires p <= |d|
  {
    var e := ReadFrom(d, p);
    if e.Some? && !Dots(e.value.name) then [e.value] else []
  }

  predicate AllText(es: seq<DirEnt>) { forall i :: 0 <= i < |es| ==> Utf8(es[i].name) }

  /** What read_dir gives: an error if any name it meets is not UTF-8. */
  function Read(d: seq<byte>): Option<seq<DirEnt>> { if AllText(Parse(d, 0)) then Some(Parse(d, 0)) else None }

  /** read_dir on a directory's data. */
  method ReadDir(d: seq<byte>) returns (r: Option<seq<DirEnt>>)
    ensures r == Read(d)
  {
    DotsAreText();
    hide U16, U32, ReadFrom, Dots, Utf8;
    var es := [];
    var p := 0;
    while p < |d|
      invariant Parse(d, 0) == es + Parse(d, p) && AllText(es)
      decreases |d| - p
    {
      ghost var was, q := es, p;
      var e := ReadFrom(d, p);
      if e.Some? && !Utf8(e.value.name) {
        assert Here(d, p)[0] == e.value;
        NotText(es, Here(d, p), Parse(d, p), 0);
        return None;
      }
      if e.Some? && !Dots(e.value.name) { es := es + [e.value]; }
      assert es == was + Here(d, p);
      if p + 6 > |d| { return Some(es); }
      var n := U16(d, p + 4);
      if n == 0 { return Some(es); }
      p := p + n;
      ParseOn(d, q, p, was, es);
    }
    assert es + Parse(d, p) == es;
    r := Some(es);
  }

  lemma DotsAreText()
    ensures Utf8(DOT) && Utf8(DOTDOT) && forall n :: Dots(n) ==> Utf8(n)
  {
    assert DOT[1..] == [] && DOTDOT[1..] == DOT;
  }

  lemma NotText(a: seq<DirEnt>, h: seq<DirEnt>, rest: seq<DirEnt>, i: nat)
    requires h <= rest && i < |h| && !Utf8(h[i].name)
    ensures !AllText(a + rest)
  {
    assert (a + rest)[|a| + i] == h[i];
  }

  lemma ParseOn(d: seq<byte>, p: nat, q: nat, was: seq<DirEnt>, es: seq<DirEnt>)
    requires p < |d| && p + 6 <= |d| && U16(d, p + 4) > 0 && q == p + U16(d, p + 4)
    requires es == was + Here(d, p)
    ensures was + Parse(d, p) == es + Parse(d, q)
  {
    hide U16, Here;
    assert Parse(d, p) == Here(d, p) + Parse(d, q);
    hide Parse;
    Associates(was, Here(d, p), Parse(d, q));
  }

  lemma Associates<T>(a: seq<T>, b: seq<T>, c: seq<T>)
    ensures a + (b + c) == (a + b) + c
  {
  }

  // ---- round trip of records ----

  lemma FieldsAt(d: seq<byte>, p: nat, r: Rec)
    requires RecOk(r) && p + r.len <= |d| && d[p..p + r.len] == Encode(r)
    ensures U16(d, p + 4) == r.len
    ensures ReadFrom(d, p) == if r.ent.ino == 0 then None else Some(DirEnt(r.ent.ino, r.ent.typ, r.ent.name))
  {
    var b, n := Encode(r), |r.ent.name|;
    var h := HeaderBytes(r.ent.ino, r.len, n, r.ent.typ);
    assert forall i :: 0 <= i < r.len ==> d[p + i] == b[i];
    assert forall i :: 0 <= i < HEADER ==> b[i] == h[i];
    HeaderFields(r.ent.ino, r.len, n, r.ent.typ);
    assert U32(d, p) == U32(h, 0) && U16(d, p + 4) == U16(h, 4);
    hide U16, U32, HeaderBytes;
    assert b[HEADER..HEADER + n] == r.ent.name;
    assert d[p + HEADER..p + HEADER + n] == b[HEADER..HEADER + n];
  }

  lemma HeaderFields(ino: nat, len: nat, n: nat, typ: nat)
    requires ino < U32_LIMIT && len < 0x1_0000 && n < 256 && typ < 256
    ensures var h := HeaderBytes(ino, len, n, typ); U32(h, 0) == ino && U16(h, 4) == len && h[6] == n && h[7] == typ
  {
    var h := HeaderBytes(ino, len, n, typ);
    assert U32(h, 0) == U32(Le32(ino), 0);
    assert U16(h, 4) == U16(Le16(len), 0);
  }

  ghost function Starts(rs: seq<Rec>, k: nat): nat
    requires RecsOk(rs) && k <= |rs|
  {
    |Flatten(rs[..k])|
  }

  lemma {:induction false} FlattenAt(rs: seq<Rec>, k: nat)
    requires RecsOk(rs) && k < |rs|
    ensures Starts(rs, k + 1) == Starts(rs, k) + rs[k].len <= |Flatten(rs)|
    ensures Flatten(rs)[Starts(rs, k)..Starts(rs, k) + rs[k].len] == Encode(rs[k])
    decreases |rs|
  {
    hide Encode;
    var n := |rs| - 1;
    assert rs[..k + 1][..k] == rs[..k];
    if k == n { assert rs[..k + 1] == rs; } else {
      FlattenAt(rs[..n], k);
      assert rs[..n][..k] == rs[..k] && rs[..n][..k + 1] == rs[..k + 1];
      assert Flatten(rs) == Flatten(rs[..n]) + Encode(rs[n]);
      assert forall i :: 0 <= i < |Flatten(rs[..n])| ==> Flatten(rs)[i] == Flatten(rs[..n])[i];
    }
  }

  /** The listable entries among the records. */
  function Listed(rs: seq<Rec>): seq<DirEnt> {
    if rs == [] then [] else
    var e := rs[|rs| - 1].ent;
    Listed(rs[..|rs| - 1]) + if e.ino == 0 || Dots(e.name) then [] else [e]
  }

  lemma {:induction false} ParseFlat(rs: seq<Rec>, k: nat)
    requires RecsOk(rs) && k <= |rs|
    ensures Listed(rs[..k]) + Parse(Flatten(rs), Starts(rs, k)) == Listed(rs)
    decreases |rs| - k
  {
    var d := Flatten(rs);
    if k == |rs| { assert rs[..k] == rs; } else {
      ParseFlat(rs, k + 1);
      HereAt(rs, k);
      hide Flatten, U16, Starts, Listed, Here;
      ParseOn(d, Starts(rs, k), Starts(rs, k + 1), Listed(rs[..k]), Listed(rs[..k + 1]));
    }
  }

  lemma HereAt(rs: seq<Rec>, k: nat)
    requires RecsOk(rs) && k < |rs|
    ensures var d, p := Flatten(rs), Starts(rs, k);
      p < |d| && p + 6 <= |d| && U16(d, p + 4) == rs[k].len && Starts(rs, k + 1) == p + rs[k].len
      && Listed(rs[..k + 1]) == Listed(rs[..k]) + Here(d, p)
  {
    hide Flatten, U16, Starts, Dots, ReadFrom, Encode, Listed;
    FlattenAt(rs, k);
    FieldsAt(Flatten(rs), Starts(rs, k), rs[k]);
    ListedNext(rs, k);
  }

  lemma ListedNext(rs: seq<Rec>, k: nat)
    requires k < |rs|
    ensures Listed(rs[..k + 1]) ==
      Listed(rs[..k]) + if rs[k].ent.ino == 0 || Dots(rs[k].ent.name) then [] else [rs[k].ent]
  {
    var b := rs[..k + 1];
    assert b[..k] == rs[..k] && b[k] == rs[k];
  }

  /** Reading back any sequence of records lists exactly its entries, in order. */
  lemma RecordsRoundTrip(rs: seq<Rec>)
    requires RecsOk(rs)
    ensures Parse(Flatten(rs), 0) == Listed(rs)
  {
    ParseFlat(rs, 0);
    assert rs[..0] == [];
  }

  // ---- writing ----

  /** No record crosses a block boundary. */
  ghost predicate InBlocks(rs: seq<Rec>) {
    RecsOk(rs) && forall k :: 0 <= k < |rs| ==> Starts(rs, k) % BLOCK + rs[k].len <= BLOCK
  }

  /** Every block boundary up to the end is where a record starts or the data ends, so
      the record lengths of each block add up to the block. */
  lemma {:induction false} BlocksTiled(rs: seq<Rec>, b: nat, n: nat) returns (k: nat)
    requires InBlocks(rs) && n <= |rs| && b * BLOCK <= Starts(rs, n)
    ensures k <= n && Starts(rs, k) == b * BLOCK
    decreases n
  {
    if Starts(rs, n) == b * BLOCK { return n; }
    assert rs[..0] == [];
    FlattenAt(rs, n - 1);
    hide Flatten;
    var s, l := Starts(rs, n - 1), rs[n - 1].len;
    if s < b * BLOCK { Crosses(s, l, b); assert false; }
    k := BlocksTiled(rs, b, n - 1);
  }

  lemma Crosses(s: nat, l: nat, b: nat)
    requires s < b * BLOCK < s + l
    ensures s % BLOCK + l > BLOCK
  {
    assert s / BLOCK < b;
    assert s == s / BLOCK * BLOCK + s % BLOCK;
  }

  lemma AddRecord(rs: seq<Rec>, r: Rec)
    requires InBlocks(rs) && RecOk(r) && |Flatten(rs)| % BLOCK + r.len <= BLOCK
    ensures InBlocks(rs + [r]) && Flatten(rs + [r]) == Flatten(rs) + Encode(r)
    ensures Listed(rs + [r]) == Listed(rs) + if r.ent.ino == 0 || Dots(r.ent.name) then [] else [r.ent]
  {
    var all := rs + [r];
    assert all[..|rs|] == rs;
    forall k | 0 <= k < |all| ensures Starts(all, k) % BLOCK + all[k].len <= BLOCK {
      assert all[..k] == rs[..k];
      if k == |rs| { assert rs[..k] == rs; } else { assert Starts(rs, k) % BLOCK + rs[k].len <= BLOCK; }
    }
  }

  lemma PadFits(n: nat, left: nat)
    requires left <= BLOCK && (n + left) % BLOCK == 0
    ensures n % BLOCK + left <= BLOCK || left == 0
  {
  }

  /** finish_dir_block: one padding record fills the block; there is always room for it. */
  method FinishDirBlock(out: seq<byte>, left: nat, ghost rs: seq<Rec>) returns (ok: bool, r: seq<byte>,
                        ghost rs2: seq<Rec>)
    requires InBlocks(rs) && out == Flatten(rs) && 12 <= left <= BLOCK && (|out| + left) % BLOCK == 0
    ensures ok && InBlocks(rs2) && RecsOk(rs2) && r == Flatten(rs2) && |r| % BLOCK == 0 && Listed(rs2) == Listed(rs)
    ensures rs <= rs2 && |r| == |out| + left
  {
    hide Flatten, Listed, InBlocks;
    ghost var pad := Rec(DirEnt(0, 0, []), left);
    PadFits(|out|, left);
    AddRecord(rs, pad);
    r := out + HeaderBytes(0, left, 0, 0);
    var padding := left - HEADER;
    if padding < 4 { return false, r, rs; }
    r := r + Zeros(padding);
    assert Encode(pad) == HeaderBytes(0, left, 0, 0) + Zeros(padding);
    hide Encode, HeaderBytes, Zeros;
    Associates(out, HeaderBytes(0, left, 0, 0), Zeros(padding));
    return true, r, rs + [pad];
  }

  // ---- the children in order ----

  /** Children are sorted by inode number, then by name. */
  predicate Before(a: DirEnt, b: DirEnt) { a.ino < b.ino || (a.ino == b.ino && Less(a.name, b.name)) }

  /** Each of the names once, in order, with its inode and type. */
  ghost predicate Listing(children: map<seq<byte>, nat>, typ: nat -> nat, es: seq<DirEnt>) {
    && (forall i, j :: 0 <= i < j < |es| ==> Before(es[i], es[j]))
    && (forall i :: 0 <= i < |es| ==>
        es[i].name in children && es[i] == DirEnt(children[es[i].name], typ(children[es[i].name]), es[i].name))
    && forall n :: n in children ==> exists i :: 0 <= i < |es| && es[i].name == n
  }

  method SortChildren(children: map<seq<byte>, nat>, typ: nat -> nat) returns (es: seq<DirEnt>)
    ensures Listing(children, typ, es)
  {
    hide Before;
    es := [];
    var rest := children.Keys;
    ghost var done: set<seq<byte>> := {};
    while rest != {}
      invariant done + rest == children.Keys && done !! rest
      invariant Ordered(es) && Holding(children, typ, es, done)
    {
      var n :| n in rest;
      var e := DirEnt(children[n], typ(children[n]), n);
      var k := |es|;
      while k > 0 && !Before(es[k - 1], e)
        invariant 0 <= k <= |es| && forall j :: k <= j < |es| ==> !Before(es[j], e)
      {
        k := k - 1;
      }
      InsertOrdered(es, k, e);
      InsertHeld(children, typ, es, done, k, e);
      es := es[..k] + [e] + es[k..];
      rest, done := rest - {n}, done + {n};
    }
  }

  ghost predicate Ordered(es: seq<DirEnt>) { forall i, j :: 0 <= i < j < |es| ==> Before(es[i], es[j]) }

  /** The names dealt with so far. */
  ghost predicate Holding(children: map<seq<byte>, nat>, typ: nat -> nat, es: seq<DirEnt>, done: set<seq<byte>>) {
    && (forall i :: 0 <= i < |es| ==> es[i].name in children && es[i].name in done)
    && (forall i :: 0 <= i < |es| ==> es[i] == DirEnt(children[es[i].name], typ(children[es[i].name]), es[i].name))
    && forall n :: n in done ==> exists i :: 0 <= i < |es| && es[i].name == n
  }

  lemma BeforeOrder(a: DirEnt, b: DirEnt, c: DirEnt)
    ensures Before(a, b) && Before(b, c) ==> Before(a, c)
    ensures Before(a, b) || Before(b, a) || (a.ino == b.ino && a.name == b.name)
  {
    hide Less;
    LessTotal(a.name, b.name);
    if Less(a.name, b.name) && Less(b.name, c.name) { LessTrans(a.name, b.name, c.name); }
  }

  lemma InsertOrdered(es: seq<DirEnt>, k: nat, e: DirEnt)
    requires Ordered(es) && k <= |es| && (forall j :: 0 <= j < |es| ==> es[j].name != e.name)
    requires (forall j :: k <= j < |es| ==> !Before(es[j], e)) && (k > 0 ==> Before(es[k - 1], e))
    ensures Ordered(es[..k] + [e] + es[k..])
  {
    hide Before;
    var r := es[..k] + [e] + es[k..];
    assert forall i :: 0 <= i < |r| ==> r[i] == if i < k then es[i] else if i == k then e else es[i - 1];
    forall i, j | 0 <= i < j < |r| ensures Before(r[i], r[j]) {
      if j == k { if i < k - 1 { BeforeOrder(es[i], es[k - 1], e); } }
      else if i == k { BeforeOrder(e, es[j - 1], e); }
    }
  }

  lemma InsertHeld(children: map<seq<byte>, nat>, typ: nat -> nat, es: seq<DirEnt>, done: set<seq<byte>>, k: nat,
                   e: DirEnt)
    requires Holding(children, typ, es, done) && k <= |es| && e.name in children
    requires e == DirEnt(children[e.name], typ(children[e.name]), e.name)
    ensures Holding(children, typ, es[..k] + [e] + es[k..], done + {e.name})
  {
    var r := es[..k] + [e] + es[k..];
    forall i | 0 <= i < |r|
      ensures r[i].name in children && r[i].name in done + {e.name}
      ensures r[i] == DirEnt(children[r[i].name], typ(children[r[i].name]), r[i].name)
    {
      InsertedAt(es, k, e, i);
    }
    forall n | n in done + {e.name} ensures exists i :: 0 <= i < |r| && r[i].name == n {
      if n in done {
        var i :| 0 <= i < |es| && es[i].name == n;
        InsertedAt(es, k, e, if i < k then i else i + 1);
      } else {
        InsertedAt(es, k, e, k);
      }
    }
  }

  lemma InsertedAt(es: seq<DirEnt>, k: nat, e: DirEnt, i: nat)
    requires k <= |es| && i <= |es|
    ensures (es[..k] + [e] + es[k..])[i] == if i < k then es[i] else if i == k then e else es[i - 1]
  {
  }

  /** There is one such order. */
  lemma {:induction false} ListingUnique(children: map<seq<byte>, nat>, typ: nat -> nat, es: seq<DirEnt>,
                                         fs: seq<DirEnt>, k: nat)
    requires Listing(children, typ, es) && Listing(children, typ, fs) && k <= |es|
    ensures k <= |fs| && es[..k] == fs[..k]
  {
    if k > 0 {
      ListingUnique(children, typ, es, fs, k - 1);
      hide Before;
      NextListed(children, typ, es, fs, k - 1);
      NextListed(children, typ, fs, es, k - 1);
      BeforeOrder(es[k - 1], fs[k - 1], es[k - 1]);
      NotBeforeSelf(es[k - 1]);
    }
  }

  lemma NotBeforeSelf(e: DirEnt)
    ensures !Before(e, e)
  {
    LessNotSelf(e.name);
  }

  /** The next entry of one order is not before that of another. */
  lemma NextListed(children: map<seq<byte>, nat>, typ: nat -> nat, es: seq<DirEnt>, fs: seq<DirEnt>, k: nat)
    requires Listing(children, typ, es) && Listing(children, typ, fs) && k < |es| && k <= |fs| && es[..k] == fs[..k]
    ensures k < |fs| && (es[k] == fs[k] || Before(fs[k], es[k]))
  {
    hide Before;
    assert es[k].name in children;
    var i :| 0 <= i < |fs| && fs[i].name == es[k].name;
    assert fs[i] == es[k];
    if i < k {
      assert es[i] == es[..k][i] == fs[..k][i] == fs[i];
      NotBeforeSelf(es[k]);
      assert false;
    }
  }

  /** Blocks that are full, and what is left of the one begun. */
  function Pack(es: seq<DirEnt>): (r: (nat, int)) {
    if es == [] then (0, BLOCK) else
    var p, rl := Pack(es[..|es| - 1]), Pad4(HEADER + |es[|es| - 1].name|);
    if p.1 < rl + 12 then (p.0 + 1, BLOCK - rl) else (p.0, p.1 - rl)
  }

  /** The size of a directory with these children. */
  function DirSize(es: seq<DirEnt>): nat { (Pack([DirEnt(0, 2, DOT), DirEnt(0, 2, DOTDOT)] + es).0 + 1) * BLOCK }

  /** The size of the directory, for whichever way the children are listed: there is one. */
  ghost function DirSizeOf(children: map<seq<byte>, nat>, typ: nat -> nat): nat {
    if exists es :: Listing(children, typ, es) then var es :| Listing(children, typ, es); DirSize(es) else 0
  }

  lemma ListedSize(children: map<seq<byte>, nat>, typ: nat -> nat, es: seq<DirEnt>)
    requires Listing(children, typ, es)
    ensures DirSizeOf(children, typ) == DirSize(es)
  {
    hide Listing, DirSize;
    var fs :| Listing(children, typ, fs) && DirSizeOf(children, typ) == DirSize(fs);
    ListingUnique(children, typ, es, fs, |es|);
    ListingUnique(children, typ, fs, es, |fs|);
    assert es[..|es|] == es && fs[..|fs|] == fs;
  }

  lemma {:induction false} SamePack(es: seq<DirEnt>, fs: seq<DirEnt>)
    requires |es| == |fs| && forall i :: 0 <= i < |es| ==> |es[i].name| == |fs[i].name|
    ensures Pack(es) == Pack(fs)
  {
    if es != [] { SamePack(es[..|es| - 1], fs[..|fs| - 1]); }
  }

  /** The directory's own two entries come first. */
  ghost predicate StartsWithDots(out: seq<byte>, dir: nat, parent: nat) {
    |out| >= 12 && ReadFrom(out, 0) == Some(DirEnt(dir, 2, DOT)) && ReadFrom(out, 12) == Some(DirEnt(parent, 2, DOTDOT))
  }

  /** write_directory: whatever the children, every block is tiled by records that stay
      inside it, and reading the data back gives the children in order. */
  method WriteDirectory(dir: nat, parent: nat, children: map<seq<byte>, nat>, typ: nat -> nat)
    returns (ok: bool, out: seq<byte>, ghost rs: seq<Rec>)
    requires 0 < dir < U32_LIMIT && 0 < parent < U32_LIMIT
    requires forall n :: n in children ==>
      1 <= |n| <= MAX_NAME && !Dots(n) && 0 < children[n] < U32_LIMIT && typ(children[n]) < 8
    ensures ok && InBlocks(rs) && out == Flatten(rs) && |out| % BLOCK == 0 && |out| > 0
    ensures Listing(children, typ, Parse(out, 0)) && StartsWithDots(out, dir, parent)
    ensures |out| == DirSize(Parse(out, 0))
  {
    hide Before, Parse, InBlocks, Flatten, StartsWithDots;
    var es := SortChildren(children, typ);
    ok, out, rs := WriteEntries(dir, parent, es);
  }

  method WriteEntries(dir: nat, parent: nat, children: seq<DirEnt>) returns (ok: bool, out: seq<byte>,
                      ghost rs: seq<Rec>)
    requires 0 < dir < U32_LIMIT && 0 < parent < U32_LIMIT
    requires forall k :: 0 <= k < |children| ==> Writable(children[k]) && !Dots(children[k].name)
    ensures ok && InBlocks(rs) && out == Flatten(rs) && |out| % BLOCK == 0 && |out| > 0
    ensures Parse(out, 0) == children && StartsWithDots(out, dir, parent) && |out| == DirSize(children)
  {
    hide Listed, Encode, Flatten, InBlocks, Parse, StartsWithDots, Pack;
    var entries := [DirEnt(dir, 2, DOT), DirEnt(parent, 2, DOTDOT)] + children;
    out, rs := [], [];
    Nothing();
    var left := BLOCK;
    NonePacked(entries);
    for k := 0 to |entries|
      invariant InBlocks(rs) && RecsOk(rs) && out == Flatten(rs) && 12 <= left <= BLOCK && (|out| + left) % BLOCK == 0
      invariant Listed(rs) == if k < 2 then [] else children[..k - 2]
      invariant k < 2 ==> |rs| == k && left == BLOCK - 12 * k
      invariant left == Pack(entries[..k]).1 && |out| + left == (Pack(entries[..k]).0 + 1) * BLOCK
      invariant forall i :: 0 <= i < k && i < 2 ==> i < |rs| && rs[i] == Rec(entries[i], 12)
    {
      var rl := Pad4(HEADER + |entries[k].name|);
      PackNext(entries, k);
      if left < rl + 12 {
        ok, out, rs := FinishDirBlock(out, left, rs);
        if !ok { return; }
        left := BLOCK;
      }
      assert k >= 2 ==> children[..k - 1] == children[..k - 2] + [children[k - 2]];
      out, rs := WriteEntry(out, left, entries[k], rs);
      left := left - rl;
    }
    assert |entries| >= 2 && rs[0] == Rec(entries[0], 12) && rs[1] == Rec(entries[1], 12);
    assert entries[..|entries|] == entries;
    SamePack(entries, [DirEnt(0, 2, DOT), DirEnt(0, 2, DOTDOT)] + children);
    ok, out, rs := FinishDirBlock(out, left, rs);
    RecordsRoundTrip(rs);
    DotsRead(rs, dir, parent);
  }

  lemma NonePacked(es: seq<DirEnt>)
    ensures Pack(es[..0]) == (0, BLOCK)
  {
  }

  lemma PackNext(es: seq<DirEnt>, k: nat)
    requires k < |es|
    ensures var p, rl := Pack(es[..k]), Pad4(HEADER + |es[k].name|);
      Pack(es[..k + 1]) == if p.1 < rl + 12 then (p.0 + 1, BLOCK - rl) else (p.0, p.1 - rl)
  {
    assert es[..k + 1][..k] == es[..k];
  }

  lemma DotsRead(rs: seq<Rec>, dir: nat, parent: nat)
    requires RecsOk(rs) && |rs| >= 2 && 0 < dir < U32_LIMIT && 0 < parent < U32_LIMIT
    requires rs[0] == Rec(DirEnt(dir, 2, DOT), 12) && rs[1] == Rec(DirEnt(parent, 2, DOTDOT), 12)
    ensures StartsWithDots(Flatten(rs), dir, parent)
  {
    assert rs[..0] == [];
    FlattenAt(rs, 0);
    FlattenAt(rs, 1);
    hide Flatten, Encode, ReadFrom;
    FieldsAt(Flatten(rs), 0, rs[0]);
    FieldsAt(Flatten(rs), 12, rs[1]);
  }

  lemma Nothing()
    ensures InBlocks([]) && Flatten([]) == [] && Listed([]) == []
  {
  }

  /** One entry: header, name and padding to a multiple of four. */
  method WriteEntry(out: seq<byte>, left: nat, e: DirEnt, ghost rs: seq<Rec>) returns (r: seq<byte>,
                    ghost rs2: seq<Rec>)
    requires Writable(e) && InBlocks(rs) && out == Flatten(rs) && left <= BLOCK && (|out| + left) % BLOCK == 0
    requires Pad4(HEADER + |e.name|) + 12 <= left
    ensures InBlocks(rs2) && RecsOk(rs2) && r == Flatten(rs2) && |r| == |out| + Pad4(HEADER + |e.name|)
    ensures Listed(rs2) == Listed(rs) + (if Dots(e.name) then [] else [e])
    ensures rs2 == rs + [Rec(e, Pad4(HEADER + |e.name|))]
  {
    hide Flatten, Listed, InBlocks, Dots;
    var rlb := HEADER + |e.name|;
    var rl := Pad4(rlb);
    ghost var rec := Rec(e, rl);
    Room(|out|, left, rl);
    AddRecord(rs, rec);
    r := out + HeaderBytes(e.ino, rl, |e.name|, e.typ) + e.name + Zeros(rl - rlb);
    assert r == out + Encode(rec);
    rs2 := rs + [rec];
  }

  lemma Room(n: nat, left: nat, rl: nat)
    requires 12 <= left <= BLOCK && (n + left) % BLOCK == 0 && rl + 12 <= left
    ensures n % BLOCK + rl <= BLOCK && (n + rl + (left - rl)) % BLOCK == 0
  {
  }
}
