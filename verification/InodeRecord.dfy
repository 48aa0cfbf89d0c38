/** The 256-byte inode record: write_inode and ParsedInode::read_from (ext4/src/format.rs),
    and the inode table that holds the records (ext4/src/writer.rs, ext4/src/reader.rs). */
module InodeRecord {
  import opened Arith
  import opened Bytes

  const SIZE: nat := 256
  const BLOCK_AREA: nat := 60
  const EXTRA: nat := 104
  const U16_LIMIT: nat := 0x1_0000
  const U64_LIMIT: nat := 0x1_0000_0000_0000_0000
  const EXTENTS: nat := 0x8_0000
  const S_IFREG: nat := 8
  const S_IFDIR: nat := 4

  datatype Record = Record(mode: nat, uid: nat, gid: nat, size: nat, atime: nat, ctime: nat, mtime: nat, crtime: nat,
                           links: nat, blocks: nat, flags: nat, xattrBlock: nat, area: seq<byte>, inline: seq<byte>)

  /** The widths of the fields in memory, and areas as long as they are on disk. */
  ghost predicate Fits(r: Record) {
    && r.mode < U16_LIMIT && r.uid < U32_LIMIT && r.gid < U32_LIMIT && r.size < U64_LIMIT
    && r.atime < U64_LIMIT && r.ctime < U64_LIMIT && r.mtime < U64_LIMIT && r.crtime < U64_LIMIT
    && r.links < U32_LIMIT && r.blocks < U32_LIMIT && r.flags < U32_LIMIT && r.xattrBlock < U32_LIMIT
    && |r.area| == BLOCK_AREA && |r.inline| == EXTRA
  }

  function Low16(v: nat): (r: nat) ensures r < U16_LIMIT { v % U16_LIMIT }
  function High16(v: nat): (r: nat) ensures r < U16_LIMIT { v / U16_LIMIT % U16_LIMIT }
  function Low32(v: nat): (r: nat) ensures r < U32_LIMIT { v % U32_LIMIT }
  function High32(v: nat): (r: nat) ensures r < U32_LIMIT { v / U32_LIMIT % U32_LIMIT }

  // The record in its stretches: before the block area, behind it, and the times.

  function Start(r: Record): (b: seq<byte>)
    requires Fits(r)
    ensures |b| == 8
  {
    Le16(r.mode) + Le16(Low16(r.uid)) + Le32(Low32(r.size))
  }

  function Times(r: Record): (b: seq<byte>)
    ensures |b| == 16
  {
    Le32(Low32(r.atime)) + Le32(Low32(r.ctime)) + Le32(Low32(r.mtime)) + Le32(0)
  }

  function Counts(r: Record): (b: seq<byte>)
    requires Fits(r)
    ensures |b| == 16
  {
    Le16(Low16(r.gid)) + Le16(Low16(r.links)) + Le32(r.blocks) + Le32(r.flags) + Le32(0)
  }

  function Behind(r: Record): (b: seq<byte>)
    requires Fits(r)
    ensures |b| == 16
  {
    Le32(0) + Le32(r.xattrBlock) + Le32(High32(r.size)) + Le32(0)
  }

  function Owners(r: Record): (b: seq<byte>)
    ensures |b| == 16
  {
    (Le16(0) + Le16(0)) + (Le16(High16(r.uid)) + Le16(High16(r.gid))) + (Le16(0) + Le16(0)) + (Le16(24) + Le16(0))
  }

  function Extras(r: Record): (b: seq<byte>)
    ensures |b| == 20
  {
    Le32(High32(r.ctime)) + Le32(High32(r.mtime)) + Le32(High32(r.atime)) + Le32(Low32(r.crtime))
      + Le32(High32(r.crtime))
  }

  /** write_inode */
  function Encode(r: Record): (b: seq<byte>)
    requires Fits(r)
    ensures |b| == SIZE
  {
    Start(r) + Times(r) + Counts(r) + r.area + Behind(r) + Owners(r) + Extras(r) + r.inline
  }

  function Wide(low: nat, high: nat, limit: nat): nat { low + high * limit }

  /** read_from */
  function Parse(b: seq<byte>): Record
    requires |b| == SIZE
  {
    Record(U16(b, 0), Wide(U16(b, 2), U16(b, 120), U16_LIMIT), Wide(U16(b, 24), U16(b, 122), U16_LIMIT),
           Wide(U32(b, 4), U32(b, 108), U32_LIMIT), Wide(U32(b, 8), U32(b, 140), U32_LIMIT),
           Wide(U32(b, 12), U32(b, 132), U32_LIMIT), Wide(U32(b, 16), U32(b, 136), U32_LIMIT),
           Wide(U32(b, 144), U32(b, 148), U32_LIMIT), U16(b, 26), U32(b, 28), U32(b, 32),
           U32(b, 104), b[40..100], b[152..])
  }

  // ---- fields of a stretch ----

  lemma At32(h: seq<byte>, v: nat, z: seq<byte>, b: seq<byte>)
    requires v < U32_LIMIT && b == h + Le32(v) + z
    ensures |b| >= |h| + 4 && U32(b, |h|) == v
  {
    var a := Le32(v);
    assert b[|h|] == a[0] && b[|h| + 1] == a[1] && b[|h| + 2] == a[2] && b[|h| + 3] == a[3];
    assert U32(a, 0) == v;
  }

  lemma At16(h: seq<byte>, v: nat, z: seq<byte>, b: seq<byte>)
    requires v < U16_LIMIT && b == h + Le16(v) + z
    ensures |b| >= |h| + 2 && U16(b, |h|) == v
  {
    var a := Le16(v);
    assert b[|h|] == a[0] && b[|h| + 1] == a[1];
    assert U16(a, 0) == v;
  }

  lemma StartFields(r: Record)
    requires Fits(r)
    ensures var b := Start(r); U16(b, 0) == r.mode && U16(b, 2) == Low16(r.uid) && U32(b, 4) == Low32(r.size)
  {
    hide Le16, Le32, U16, U32, Low16, Low32;
    var b, m, u, s := Start(r), Le16(r.mode), Le16(Low16(r.uid)), Le32(Low32(r.size));
    assert b == [] + m + (u + s) == m + u + s == (m + u) + s + [];
    At16([], r.mode, u + s, b);
    At16(m, Low16(r.uid), s, b);
    At32(m + u, Low32(r.size), [], b);
  }

  lemma TimesFields(r: Record)
    ensures var b := Times(r); U32(b, 0) == Low32(r.atime) && U32(b, 4) == Low32(r.ctime) && U32(b, 8) == Low32(r.mtime)
  {
    Four32(Low32(r.atime), Low32(r.ctime), Low32(r.mtime), 0);
  }

  lemma Four32(x: nat, y: nat, z: nat, w: nat)
    requires x < U32_LIMIT && y < U32_LIMIT && z < U32_LIMIT && w < U32_LIMIT
    ensures var b := Le32(x) + Le32(y) + Le32(z) + Le32(w);
      U32(b, 0) == x && U32(b, 4) == y && U32(b, 8) == z && U32(b, 12) == w
  {
    hide Le32, U32;
    var p, q, s, t := Le32(x), Le32(y), Le32(z), Le32(w);
    var b := p + q + s + t;
    assert b == [] + p + (q + s + t) == p + q + (s + t) == (p + q) + s + t == (p + q + s) + t + [];
    At32([], x, q + s + t, b);
    At32(p, y, s + t, b);
    At32(p + q, z, t, b);
    At32(p + q + s, w, [], b);
  }

  lemma CountsFields(r: Record)
    requires Fits(r)
    ensures var b := Counts(r);
      U16(b, 0) == Low16(r.gid) && U16(b, 2) == Low16(r.links) && U32(b, 4) == r.blocks && U32(b, 8) == r.flags
  {
    hide Le16, Le32, U16, U32, Low16;
    var g, l, k, f, v := Le16(Low16(r.gid)), Le16(Low16(r.links)), Le32(r.blocks), Le32(r.flags), Le32(0);
    var b := Counts(r);
    assert b == [] + g + (l + k + f + v) == g + l + (k + f + v) == (g + l) + k + (f + v) == (g + l + k) + f + v;
    At16([], Low16(r.gid), l + k + f + v, b);
    At16(g, Low16(r.links), k + f + v, b);
    At32(g + l, r.blocks, f + v, b);
    At32(g + l + k, r.flags, v, b);
  }

  lemma BehindFields(r: Record)
    requires Fits(r)
    ensures var b := Behind(r); U32(b, 4) == r.xattrBlock && U32(b, 8) == High32(r.size)
  {
    Four32(0, r.xattrBlock, High32(r.size), 0);
  }

  lemma OwnersFields(r: Record)
    ensures var b := Owners(r); U16(b, 4) == High16(r.uid) && U16(b, 6) == High16(r.gid)
  {
    hide Le16, U16, High16;
    var h, u, g := Le16(0) + Le16(0), Le16(High16(r.uid)), Le16(High16(r.gid));
    var z := (Le16(0) + Le16(0)) + (Le16(24) + Le16(0));
    var b := Owners(r);
    assert b == h + u + (g + z) == (h + u) + g + z;
    At16(h, High16(r.uid), g + z, b);
    At16(h + u, High16(r.gid), z, b);
  }

  lemma ExtrasFields(r: Record)
    ensures var b := Extras(r);
      && U32(b, 0) == High32(r.ctime) && U32(b, 4) == High32(r.mtime) && U32(b, 8) == High32(r.atime)
      && U32(b, 12) == Low32(r.crtime) && U32(b, 16) == High32(r.crtime)
  {
    Four32(High32(r.ctime), High32(r.mtime), High32(r.atime), Low32(r.crtime));
    hide Le32, U32, High32, Low32;
    var c, m, a := Le32(High32(r.ctime)), Le32(High32(r.mtime)), Le32(High32(r.atime));
    var l, h := Le32(Low32(r.crtime)), Le32(High32(r.crtime));
    var f, b := c + m + a + l, Extras(r);
    assert b == f + h + [];
    At32(f, High32(r.crtime), [], b);
    Prefix32(f, h, b, 0);
    Prefix32(f, h, b, 4);
    Prefix32(f, h, b, 8);
    Prefix32(f, h, b, 12);
  }

  lemma Prefix32(f: seq<byte>, z: seq<byte>, b: seq<byte>, o: nat)
    requires b == f + z && o + 4 <= |f|
    ensures U32(b, o) == U32(f, o)
  {
  }

  /** A field of a stretch is that field of the record. */
  lemma Stretch(b: seq<byte>, p: nat, s: seq<byte>)
    requires p + |s| <= |b| && b[p..p + |s|] == s
    ensures forall o: nat {:trigger U16(s, o)} :: o + 2 <= |s| ==> U16(b, p + o) == U16(s, o)
    ensures forall o: nat {:trigger U32(s, o)} :: o + 4 <= |s| ==> U32(b, p + o) == U32(s, o)
  {
    forall i | 0 <= i < |s| ensures b[p + i] == s[i] { assert b[p..p + |s|][i] == s[i]; }
  }

  lemma Stretches(r: Record)
    requires Fits(r)
    ensures var b := Encode(r);
      && b[0..8] == Start(r) && b[8..24] == Times(r) && b[24..40] == Counts(r) && b[40..100] == r.area
      && b[100..116] == Behind(r) && b[116..132] == Owners(r) && b[132..152] == Extras(r) && b[152..] == r.inline
  {
    hide Start, Times, Counts, Behind, Owners, Extras;
  }

  lemma Halves(v: nat)
    ensures v < U32_LIMIT ==> Wide(Low16(v), High16(v), U16_LIMIT) == v
    ensures v < U64_LIMIT ==> Wide(Low32(v), High32(v), U32_LIMIT) == v
  {
  }

  /** What is read from a written record: everything, with 16 bits of the link count. */
  lemma RoundTrip(r: Record)
    requires Fits(r)
    ensures Parse(Encode(r)) == r.(links := Low16(r.links))
  {
    Stretches(r);
    StartFields(r);
    TimesFields(r);
    CountsFields(r);
    BehindFields(r);
    OwnersFields(r);
    ExtrasFields(r);
    Halves(r.uid);
    Halves(r.gid);
    Halves(r.size);
    Halves(r.atime);
    Halves(r.ctime);
    Halves(r.mtime);
    Halves(r.crtime);
    hide Start, Times, Counts, Behind, Owners, Extras, Encode, U16, U32, Low16, High16, Low32, High32, Wide;
    var b := Encode(r);
    Stretch(b, 0, Start(r));
    Stretch(b, 8, Times(r));
    Stretch(b, 24, Counts(r));
    Stretch(b, 100, Behind(r));
    Stretch(b, 116, Owners(r));
    Stretch(b, 132, Extras(r));
  }

  // ---- the table ----

  type Slots = seq<Option<seq<byte>>>

  ghost predicate SlotsOk(slots: Slots) { forall i :: 0 <= i < |slots| && slots[i].Some? ==> |slots[i].value| == SIZE }

  function SlotBytes(s: Option<seq<byte>>): seq<byte> { if s.Some? then s.value else Zeros(SIZE) }

  function TableBytes(slots: Slots): (b: seq<byte>)
    requires SlotsOk(slots)
    ensures |b| == |slots| * SIZE
  {
    if slots == [] then [] else TableBytes(slots[..|slots| - 1]) + SlotBytes(slots[|slots| - 1])
  }

  lemma {:induction false} SlotAt(slots: Slots, i: nat)
    requires SlotsOk(slots) && i < |slots|
    ensures TableBytes(slots)[i * SIZE..i * SIZE + SIZE] == SlotBytes(slots[i])
  {
    hide SlotBytes;
    var n := |slots| - 1;
    var t := TableBytes(slots[..n]);
    assert TableBytes(slots) == t + SlotBytes(slots[n]);
    if i < n {
      SlotAt(slots[..n], i);
      assert (t + SlotBytes(slots[n]))[i * SIZE..i * SIZE + SIZE] == t[i * SIZE..i * SIZE + SIZE];
    }
  }

  /** inode_offset: behind the group's part of the table, which follows the part before it. */
  function Offset(table: nat, ipg: nat, ino: nat): nat
    requires ino > 0 && ipg > 0
  {
    var g, i := (ino - 1) / ipg, (ino - 1) % ipg;
    DivNat(ino - 1, ipg);
    (table + g * (ipg / 16)) * BLOCK + i * SIZE
  }

  lemma OffsetIs(table: nat, ipg: nat, ino: nat)
    requires ino > 0 && ipg > 0 && ipg % 16 == 0
    ensures Offset(table, ipg, ino) == table * BLOCK + (ino - 1) * SIZE
  {
    var g, i, k := (ino - 1) / ipg, (ino - 1) % ipg, ipg / 16;
    assert ino - 1 == g * ipg + i && ipg == k * 16;
    assert g * ipg == g * k * 16;
  }

  /** Every record is where the reader looks for it. */
  ghost predicate TableDone(d: seq<byte>, table: nat, slots: Slots) {
    forall i: nat :: i < |slots| ==> ReadAt(d, table * BLOCK + i * SIZE, SIZE) == SlotBytes(slots[i])
  }

  /** write_inode_table: the records, then zeros up to the table's size. */
  function FullTable(slots: Slots, size: nat): (b: seq<byte>)
    requires SlotsOk(slots) && |slots| * SIZE <= size
    ensures |b| == size
  {
    TableBytes(slots) + Zeros(size - |slots| * SIZE)
  }

  lemma TableWritten(d: seq<byte>, table: nat, slots: Slots, size: nat, d2: seq<byte>)
    requires SlotsOk(slots) && |slots| * SIZE <= size && d2 == WriteAt(d, table * BLOCK, FullTable(slots, size))
    ensures TableDone(d2, table, slots)
  {
    var rest := Zeros(size - |slots| * SIZE);
    forall i: nat | i < |slots| ensures ReadAt(d2, table * BLOCK + i * SIZE, SIZE) == SlotBytes(slots[i]) {
      SlotAt(slots, i);
      Inside(d, table * BLOCK, TableBytes(slots), rest, i * SIZE, SIZE, d2);
    }
  }

  lemma Inside(d: seq<byte>, p: nat, a: seq<byte>, rest: seq<byte>, o: nat, n: nat, d2: seq<byte>)
    requires d2 == WriteAt(d, p, a + rest) && o + n <= |a|
    ensures ReadAt(d2, p + o, n) == a[o..o + n]
  {
    var part := a[o..o + n];
    forall i | 0 <= i < n
      ensures ReadAt(d2, p + o, n)[i] == part[i]
    {
      assert At(d2, p + (o + i)) == (a + rest)[o + i];
    }
  }

  lemma TableStays(d: seq<byte>, d2: seq<byte>, table: nat, slots: Slots, end: nat)
    requires TableDone(d, table, slots) && table * BLOCK + |slots| * SIZE <= end
    requires forall i: nat {:trigger At(d2, i)} :: i < end ==> At(d2, i) == At(d, i)
    ensures TableDone(d2, table, slots)
  {
    forall i: nat | i < |slots| ensures ReadAt(d2, table * BLOCK + i * SIZE, SIZE) == SlotBytes(slots[i]) {
      var p := table * BLOCK + i * SIZE;
      assert p + SIZE <= end;
      forall j | 0 <= j < SIZE
        ensures ReadAt(d2, p, SIZE)[j] == ReadAt(d, p, SIZE)[j]
      {
        assert At(d2, p + j) == At(d, p + j);
      }
    }
  }
}
