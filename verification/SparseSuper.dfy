/** The sparse_super reservation: which blocks of an ext4 image hold backup
    superblocks and descriptor copies, and how the writer steps around them. */
module SparseSuper {
  import opened Arith
  import opened Bytes

  const BLOCKS_PER_GROUP: nat := 32768
  const MAX_MAX_DISK_SIZE: nat := 0x1000_0000_0000 // 16 TiB
  const GROUPS_PER_DESCRIPTOR_BLOCK: nat := 128

  function Pow(b: nat, k: nat): nat { if k == 0 then 1 else b * Pow(b, k - 1) }

  ghost predicate PowerOf(b: nat, g: nat) { exists k: nat :: k >= 1 && Pow(b, k) == g }

  /** Groups 0 and 1 and every power of 3, 5 and 7. */
  ghost predicate BackupGroup(g: nat) {
    g <= 1 || PowerOf(3, g) || PowerOf(5, g) || PowerOf(7, g)
  }

  lemma {:induction false} PowGrows(b: nat, j: nat, k: nat)
    requires b >= 2 && j < k
    ensures 0 < Pow(b, j) < Pow(b, k)
  {
    if j + 1 == k {
      if j > 0 { PowGrows(b, j - 1, j); }
      MulMonotone(2, b, Pow(b, j));
    } else {
      PowGrows(b, j, k - 1);
      MulMonotone(2, b, Pow(b, k - 1));
    }
  }

  /** A value strictly between consecutive powers is not a power. */
  lemma NotAPower(b: nat, g: nat, k: nat)
    requires b >= 2 && k >= 1 && Pow(b, k) < g < Pow(b, k + 1)
    ensures !PowerOf(b, g)
  {
    forall j: nat | j >= 1 ensures Pow(b, j) != g {
      if j < k { PowGrows(b, j, k); } else if j > k + 1 { PowGrows(b, k + 1, j); }
    }
  }

  /** The inner loop of has_super_backup for one base, with u32 checked_mul. */
  method IsPowerOf(base: nat, g: nat) returns (r: bool)
    requires 2 <= base < U32_LIMIT && g < U32_LIMIT
    ensures r <==> PowerOf(base, g)
  {
    var p := base;
    ghost var k: nat := 1;
    assert Pow(base, 1) == base * Pow(base, 0);
    while p < g
      invariant k >= 1 && p == Pow(base, k)
      invariant k > 1 ==> Pow(base, k - 1) < g
      decreases g - p
    {
      PowGrows(base, k, k + 1);
      if p * base >= U32_LIMIT {
        NotAPower(base, g, k);
        break;
      }
      p := p * base;
      k := k + 1;
    }
    r := p == g;
    if p > g {
      if k > 1 {
        NotAPower(base, g, k - 1);
      } else {
        forall j: nat | j >= 1 ensures Pow(base, j) != g { if j > 1 { PowGrows(base, 1, j); } }
      }
    }
  }

  /** has_super_backup holds exactly for 0, 1 and the powers of 3, 5 and 7. */
  method HasSuperBackup(g: nat) returns (r: bool)
    requires g < U32_LIMIT
    ensures r <==> BackupGroup(g)
  {
    if g <= 1 { return true; }
    var bases := [3, 5, 7];
    for i := 0 to 3
      invariant i >= 1 ==> !PowerOf(3, g)
      invariant i >= 2 ==> !PowerOf(5, g)
      invariant i >= 3 ==> !PowerOf(7, g)
    {
      var hit := IsPowerOf(bases[i], g);
      if hit { return true; }
    }
    return false;
  }

  // ---- reserved blocks ----

  /** Sizes a writer can be configured with: 16 TiB at most, and the descriptor
      table computed from them by init(). */
  ghost predicate ValidGeometry(gd: nat, maxDisk: nat) {
    1 <= gd <= 1024 && maxDisk <= MAX_MAX_DISK_SIZE
  }

  /** A block of an interior backup region: the superblock copy and the `gd`
      descriptor blocks that follow it. */
  ghost predicate Reserved(gd: nat, b: nat) {
    var g := b / BLOCKS_PER_GROUP;
    g != 0 && b % BLOCKS_PER_GROUP < 1 + gd && BackupGroup(g)
  }

  /** `R` is the set of reserved blocks. Reasoning about placement works with
      such a set and does not look inside the definition. */
  ghost predicate Layout(R: iset<nat>, gd: nat) {
    forall b: nat {:trigger Reserved(gd, b)} :: b in R <==> Reserved(gd, b)
  }

  /** The first block after the backup region that `b` lies in. */
  function RegionEnd(gd: nat, b: nat): nat {
    b / BLOCKS_PER_GROUP * BLOCKS_PER_GROUP + 1 + gd
  }

  /** Past the region of a reserved block lies a free one, and everything up to it is reserved. */
  lemma RegionEndIsFree(R: iset<nat>, gd: nat, b: nat)
    requires Layout(R, gd) && gd <= 1024 && b in R
    ensures b < RegionEnd(gd, b) && RegionEnd(gd, b) !in R
    ensures forall x :: b <= x < RegionEnd(gd, b) ==> x in R
  {
    assert Reserved(gd, b);
    var g := b / BLOCKS_PER_GROUP;
    var e := RegionEnd(gd, b);
    assert e == g * BLOCKS_PER_GROUP + (1 + gd);
    assert e / BLOCKS_PER_GROUP == g && e % BLOCKS_PER_GROUP == 1 + gd;
    assert !Reserved(gd, e);
    forall x | b <= x < e ensures x in R {
      assert x / BLOCKS_PER_GROUP == g;
      assert Reserved(gd, x);
    }
  }

  lemma PowersOfThree()
    ensures Pow(3, 1) == 3 && Pow(3, 2) == 9 && Pow(3, 3) == 27 && Pow(3, 4) == 81 && Pow(3, 5) == 243
    ensures Pow(3, 6) == 729 && Pow(3, 7) == 2187 && Pow(3, 8) == 6561 && Pow(3, 9) == 19683
    ensures Pow(3, 10) == 59049 && Pow(3, 11) == 177147
  {
    assert Pow(3, 1) == 3;
    assert Pow(3, 2) == 9;
    assert Pow(3, 3) == 27;
    assert Pow(3, 4) == 81;
    assert Pow(3, 5) == 243;
    assert Pow(3, 6) == 729;
    assert Pow(3, 7) == 2187;
    assert Pow(3, 8) == 6561;
    assert Pow(3, 9) == 19683;
  }

  lemma PowersOfFiveAndSeven()
    ensures Pow(5, 1) == 5 && Pow(5, 2) == 25 && Pow(5, 3) == 125 && Pow(5, 4) == 625
    ensures Pow(5, 5) == 3125 && Pow(5, 6) == 15625 && Pow(5, 7) == 78125 && Pow(5, 8) == 390625
    ensures Pow(7, 1) == 7 && Pow(7, 2) == 49 && Pow(7, 3) == 343 && Pow(7, 4) == 2401
    ensures Pow(7, 5) == 16807 && Pow(7, 6) == 117649 && Pow(7, 7) == 823543
  {
    assert Pow(5, 1) == 5;
    assert Pow(5, 2) == 25;
    assert Pow(5, 3) == 125;
    assert Pow(5, 4) == 625;
    assert Pow(5, 5) == 3125;
    assert Pow(5, 6) == 15625;
    assert Pow(7, 1) == 7;
    assert Pow(7, 2) == 49;
    assert Pow(7, 3) == 343;
    assert Pow(7, 4) == 2401;
    assert Pow(7, 5) == 16807;
  }

  /** Every interior backup group of a disk of at most 16 TiB. */
  const BACKUP_GROUPS: seq<nat> := [
    1, 3, 9, 27, 81, 243, 729, 2187, 6561, 19683, 59049,
    5, 25, 125, 625, 3125, 15625, 78125, 7, 49, 343, 2401, 16807, 117649]

  function BackupGroups(): set<nat> { set g | g in BACKUP_GROUPS }

  lemma PowerListed(base: nat, g: nat, top: nat)
    requires base >= 2 && PowerOf(base, g) && g < Pow(base, top)
    ensures exists k :: 1 <= k < top && g == Pow(base, k)
  {
    var k: nat :| k >= 1 && Pow(base, k) == g;
    if k > top { PowGrows(base, top, k); }
  }

  lemma ThreesListed(g: nat)
    requires g <= 131073
    ensures PowerOf(3, g) <==> g in {3, 9, 27, 81, 243, 729, 2187, 6561, 19683, 59049}
  {
    PowersOfThree();
    if PowerOf(3, g) { PowerListed(3, g, 11); }
    hide Pow;
  }

  lemma FivesListed(g: nat)
    requires g <= 131073
    ensures PowerOf(5, g) <==> g in {5, 25, 125, 625, 3125, 15625, 78125}
  {
    PowersOfFiveAndSeven();
    if PowerOf(5, g) { PowerListed(5, g, 8); }
    hide Pow;
  }

  lemma SevensListed(g: nat)
    requires g <= 131073
    ensures PowerOf(7, g) <==> g in {7, 49, 343, 2401, 16807, 117649}
  {
    PowersOfFiveAndSeven();
    if PowerOf(7, g) { PowerListed(7, g, 7); }
    hide Pow;
  }

  /** has_super_backup on the groups a 16 TiB disk can have: these 24 and no others. */
  lemma BackupGroupsListed(g: nat)
    requires 1 <= g <= 131073
    ensures BackupGroup(g) <==> g in BackupGroups()
  {
    ThreesListed(g);
    FivesListed(g);
    SevensListed(g);
    hide PowerOf;
  }

  /** No two adjacent interior groups both hold a backup. */
  lemma BackupsNotAdjacent(g: nat)
    requires 1 <= g <= 131072 && BackupGroup(g)
    ensures !BackupGroup(g + 1)
  {
    BackupGroupsListed(g);
    BackupGroupsListed(g + 1);
  }

  /** Block arithmetic on any backup group of a disk up to 16 TiB stays in u32. */
  lemma RegionFitsU32(gd: nat, g: nat)
    requires gd <= 1024 && 1 <= g <= 131073 && BackupGroup(g)
    ensures g * BLOCKS_PER_GROUP + 1 + gd < U32_LIMIT
  {
    BackupGroupsListed(g);
  }

  /** is_reserved_block */
  method IsReservedBlock(gd: nat, ghost R: iset<nat>, b: nat) returns (r: bool)
    requires Layout(R, gd) && b < U32_LIMIT
    ensures r <==> b in R
  {
    assert b in R <==> Reserved(gd, b);
    var g := b / BLOCKS_PER_GROUP;
    if g == 0 { return false; }
    var hit := HasSuperBackup(g);
    r := b % BLOCKS_PER_GROUP < 1 + gd && hit;
  }

  /** Where the writer seeks to from a reserved block: the first free one after it. */
  method RegionAfter(gd: nat, ghost R: iset<nat>, b: nat) returns (e: nat)
    requires Layout(R, gd) && gd <= 1024 && b < U32_LIMIT && b in R
    ensures b < e < U32_LIMIT && e !in R && forall x :: b <= x < e ==> x in R
  {
    RegionEndIsFree(R, gd, b);
    assert Reserved(gd, b);
    RegionFitsU32(gd, b / BLOCKS_PER_GROUP);
    e := b / BLOCKS_PER_GROUP * BLOCKS_PER_GROUP + 1 + gd;
  }

  function MaxGroup(maxDisk: nat): nat { maxDisk / (BLOCKS_PER_GROUP * BLOCK) + 1 }

  /** next_reserved_block_ge returns the least reserved block at or after `from`,
      or None when no group up to the maximum device holds one. */
  method NextReservedBlockGe(gd: nat, maxDisk: nat, ghost R: iset<nat>, from: nat) returns (r: Option<nat>)
    requires ValidGeometry(gd, maxDisk) && Layout(R, gd) && from < U32_LIMIT
    ensures r.Some? ==> from <= r.value < U32_LIMIT && r.value in R && forall b :: from <= b < r.value ==> b !in R
    ensures r.Some? ==> r.value < (MaxGroup(maxDisk) + 1) * BLOCKS_PER_GROUP
    ensures r.None? ==> forall b :: from <= b < (MaxGroup(maxDisk) + 1) * BLOCKS_PER_GROUP ==> b !in R
  {
    var maxGroup := MaxGroup(maxDisk);
    assert maxGroup <= 131073;
    var g := from / BLOCKS_PER_GROUP;
    while g <= maxGroup
      invariant from / BLOCKS_PER_GROUP <= g
      invariant forall b :: from <= b < g * BLOCKS_PER_GROUP ==> b !in R
    {
      var hit := HasSuperBackup(g);
      if g >= 1 && hit {
        RegionFitsU32(gd, g);
        var rstart := g * BLOCKS_PER_GROUP;
        var rend := rstart + 1 + gd;
        var cand := Max(from, rstart);
        if cand < rend {
          assert cand / BLOCKS_PER_GROUP == g;
          assert Reserved(gd, cand);
          return Some(cand);
        }
      }
      forall b | from <= b < (g + 1) * BLOCKS_PER_GROUP ensures b !in R {
        if b >= g * BLOCKS_PER_GROUP {
          assert b / BLOCKS_PER_GROUP == g;
          assert !Reserved(gd, b);
        }
      }
      g := g + 1;
    }
    return None;
  }
}
