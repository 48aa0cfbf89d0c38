/** Bytes, little-endian integers and the zero-filled output sink shared by the
    image writers and readers. */
module Bytes {
  datatype Option<+T> = None | Some(value: T)

  type byte = x: int | 0 <= x < 256

  const BLOCK: nat := 4096
  const U32_LIMIT: nat := 0x1_0000_0000

  /** u16::to_le_bytes */
  function Le16(v: nat): (b: seq<byte>)
    requires v < 0x1_0000
    ensures |b| == 2 && U16(b, 0) == v
  {
    [v % 256, v / 256]
  }

  /** u32::to_le_bytes */
  function Le32(v: nat): (b: seq<byte>)
    requires v < 0x1_0000_0000
    ensures |b| == 4 && U32(b, 0) == v
  {
    [v % 256, v / 256 % 256, v / 0x1_0000 % 256, v / 0x100_0000]
  }

  /** u64::to_le_bytes */
  function Le64(v: nat): (b: seq<byte>)
    requires v < 0x1_0000_0000_0000_0000
    ensures |b| == 8 && U64(b, 0) == v
  {
    var b := Le32(v % 0x1_0000_0000) + Le32(v / 0x1_0000_0000);
    assert U32(b, 0) == U32(Le32(v % 0x1_0000_0000), 0);
    assert U32(b, 4) == U32(Le32(v / 0x1_0000_0000), 0);
    b
  }

  function U16(s: seq<byte>, off: nat): (v: nat)
    requires off + 2 <= |s|
    ensures v < 0x1_0000
  {
    s[off] as int + 256 * s[off + 1] as int
  }

  function U32(s: seq<byte>, off: nat): (v: nat)
    requires off + 4 <= |s|
    ensures v < 0x1_0000_0000
  {
    s[off] as int + 256 * s[off + 1] as int + 0x1_0000 * s[off + 2] as int + 0x100_0000 * s[off + 3] as int
  }

  function U64(s: seq<byte>, off: nat): (v: nat)
    requires off + 8 <= |s|
    ensures v < 0x1_0000_0000_0000_0000
  {
    U32(s, off) + 0x1_0000_0000 * U32(s, off + 4)
  }

  function Zeros(n: nat): (z: seq<byte>)
    ensures |z| == n && forall i :: 0 <= i < n ==> z[i] == 0
  {
    seq<byte>(n, _ => 0)
  }

  // ---- the sink: a byte map that reads as zero where nothing was written ----

  function At(d: seq<byte>, i: nat): byte {
    if i < |d| then d[i] else 0
  }

  /** Seek to `off` and write all of `b`. */
  function WriteAt(d: seq<byte>, off: nat, b: seq<byte>): (r: seq<byte>)
    ensures |r| == if off + |b| > |d| then off + |b| else |d|
    ensures forall i: nat {:trigger At(r, i)} ::
      At(r, i) == if off <= i < off + |b| then b[i - off] else At(d, i)
  {
    seq<byte>(if off + |b| > |d| then off + |b| else |d|,
        i requires 0 <= i => if off <= i < off + |b| then b[i - off] else At(d, i))
  }

  /** The `n` bytes read back from offset `off`. */
  function ReadAt(d: seq<byte>, off: nat, n: nat): (r: seq<byte>)
    ensures |r| == n
    ensures forall i :: 0 <= i < n ==> r[i] == At(d, off + i)
  {
    seq<byte>(n, i requires 0 <= i => At(d, off + i))
  }

  lemma ReadBack(d: seq<byte>, off: nat, b: seq<byte>)
    ensures ReadAt(WriteAt(d, off, b), off, |b|) == b
  {
    forall i | 0 <= i < |b| ensures ReadAt(WriteAt(d, off, b), off, |b|)[i] == b[i] {
      assert At(WriteAt(d, off, b), off + i) == b[i];
    }
  }

  lemma ReadElsewhere(d: seq<byte>, off: nat, b: seq<byte>, p: nat, n: nat)
    requires p + n <= off || off + |b| <= p
    ensures ReadAt(WriteAt(d, off, b), p, n) == ReadAt(d, p, n)
  {
    forall i | 0 <= i < n ensures ReadAt(WriteAt(d, off, b), p, n)[i] == ReadAt(d, p, n)[i] {
      assert At(WriteAt(d, off, b), p + i) == At(d, p + i);
    }
  }

  /** Writing two pieces back to back is writing their concatenation. */
  lemma WriteSplit(d: seq<byte>, off: nat, a: seq<byte>, b: seq<byte>)
    ensures WriteAt(WriteAt(d, off, a), off + |a|, b) == WriteAt(d, off, a + b)
  {
    var l := WriteAt(WriteAt(d, off, a), off + |a|, b);
    var r := WriteAt(d, off, a + b);
    forall i | 0 <= i < |l| ensures l[i] == r[i] {
      assert l[i] == At(l, i) && r[i] == At(r, i);
      assert At(WriteAt(d, off, a), i) == if off <= i < off + |a| then a[i - off] else At(d, i);
    }
  }

  // ---- the order of names ----

  /** Byte order: `a` comes before `b`. */
  predicate Less(a: seq<byte>, b: seq<byte>) {
    b != [] && (a == [] || a[0] < b[0] || (a[0] == b[0] && Less(a[1..], b[1..])))
  }

  lemma {:induction false} LessNotSelf(a: seq<byte>)
    ensures !Less(a, a)
  {
    if a != [] { LessNotSelf(a[1..]); }
  }

  lemma {:induction false} LessTrans(a: seq<byte>, b: seq<byte>, c: seq<byte>)
    requires Less(a, b) && Less(b, c)
    ensures Less(a, c)
  {
    if a != [] && a[0] == b[0] && b[0] == c[0] { LessTrans(a[1..], b[1..], c[1..]); }
  }

  lemma {:induction false} LessTotal(a: seq<byte>, b: seq<byte>)
    ensures a == b || Less(a, b) || Less(b, a)
  {
    if a != [] && b != [] && a[0] == b[0] {
      LessTotal(a[1..], b[1..]);
      assert a == [a[0]] + a[1..] && b == [b[0]] + b[1..];
    }
  }

  // ---- text ----

  predicate Continues(x: byte) { 0x80 <= x <= 0xbf }

  /** Well-formed UTF-8, by the syntax of section 4 of RFC 3629. */
  predicate Utf8(s: seq<byte>) {
    || s == []
    || (s[0] < 0x80 && Utf8(s[1..]))
    || (|s| >= 2 && 0xc2 <= s[0] <= 0xdf && Continues(s[1]) && Utf8(s[2..]))
    || (|s| >= 3 && 0xe0 <= s[0] <= 0xef && Continues(s[1]) && Continues(s[2])
        && (s[0] == 0xe0 ==> s[1] >= 0xa0) && (s[0] == 0xed ==> s[1] <= 0x9f) && Utf8(s[3..]))
    || (|s| >= 4 && 0xf0 <= s[0] <= 0xf4 && Continues(s[1]) && Continues(s[2]) && Continues(s[3])
        && (s[0] == 0xf0 ==> s[1] >= 0x90) && (s[0] == 0xf4 ==> s[1] <= 0x8f) && Utf8(s[4..]))
  }

  function Min(a: int, b: int): int { if a < b then a else b }
  function Max(a: int, b: int): int { if a > b then a else b }

  /** u32::div_ceil */
  function CeilDiv(a: nat, b: nat): (r: nat)
    requires b > 0
    ensures r * b >= a && (r == 0 || (r - 1) * b < a)
  {
    (a + b - 1) / b
  }

  /** Round up to a multiple of four: `(n + 3) & !3`. */
  function Pad4(n: nat): (r: nat)
    ensures n <= r < n + 4 && r % 4 == 0
  {
    (n + 3) / 4 * 4
  }
}
