/** How many block groups an image gets, and that its inode table and bitmaps
    then fit. */
module Groups {
  import opened Arith
  import opened Bytes
  import opened SparseSuper

  const INCREMENT: nat := 16 // inodes per inode-table block
  const MAX_INODES_PER_GROUP: nat := 32768
  const NO_GROUPS: nat := 0xffff_ffff

  /** Largest inode count that group_count can handle for every permitted group size. */
  const MAX_INODES: nat := 2_097_360

  predicate Permitted(ipg: nat) { INCREMENT <= ipg <= MAX_INODES_PER_GROUP && ipg % INCREMENT == 0 }

  function DataPerGroup(ipg: nat): (d: nat)
    requires Permitted(ipg)
    ensures 30718 <= d <= 32765
  {
    BLOCKS_PER_GROUP - ipg / INCREMENT - 2
  }

  /** group_count, or None where its u32 arithmetic overflows, which stops the program. */
  function GroupCount(blocks: nat, inodes: nat, ipg: nat): Option<nat>
    requires Permitted(ipg)
  {
    var d := DataPerGroup(ipg);
    var minBlocks := if inodes > 0 then (inodes - 1) / ipg * d + 1 else 1;
    if minBlocks >= U32_LIMIT then None else Some(CeilDiv(if blocks < minBlocks then minBlocks else blocks, d))
  }

  /** `g` groups of `ipg` inodes hold the inodes, and hold the blocks beside their
      share of the inode table and two bitmap blocks each. */
  ghost predicate Feasible(g: nat, blocks: nat, inodes: nat, ipg: nat)
    requires Permitted(ipg)
  {
    g >= 1 && g * ipg >= inodes && g * DataPerGroup(ipg) >= blocks
  }

  /** Groups filled before the last inode. */
  function FullGroups(inodes: nat, ipg: nat): nat
    requires ipg > 0
  {
    if inodes == 0 then 0 else DivNat(inodes - 1, ipg); (inodes - 1) / ipg
  }

  lemma NoOverflow(inodes: nat, ipg: nat)
    requires Permitted(ipg) && 0 < inodes <= MAX_INODES
    ensures (inodes - 1) / ipg * DataPerGroup(ipg) + 1 < U32_LIMIT
  {
    var q, d := (inodes - 1) / ipg, DataPerGroup(ipg);
    assert q * ipg <= inodes - 1;
    MulMonotone(INCREMENT, ipg, q);
    assert q <= 131084;
    MulMonotone(q, 131084, d);
  }

  /** Every group size can be evaluated exactly up to MAX_INODES inodes, and the first one
      tried, 16 inodes per group, is the one that decides. */
  lemma OverflowExactly(blocks: nat, inodes: nat)
    ensures (forall p: nat :: Permitted(p) ==> GroupCount(blocks, inodes, p).Some?) <==> inodes <= MAX_INODES
    ensures GroupCount(blocks, inodes, INCREMENT).Some? <==> inodes <= MAX_INODES
  {
    if inodes <= MAX_INODES {
      forall p: nat | Permitted(p) ensures GroupCount(blocks, inodes, p).Some? {
        if inodes > 0 { NoOverflow(inodes, p); }
      }
    } else {
      assert Permitted(INCREMENT) && DataPerGroup(INCREMENT) == 32765;
      assert (inodes - 1) / INCREMENT >= MAX_INODES / INCREMENT == 131085;
      MulMonotone(131085, (inodes - 1) / INCREMENT, 32765);
    }
  }

  /** Rounding the larger demand up covers `blocks` and exceeds `q`. */
  lemma CoverEnough(blocks: nat, q: nat, d: nat, c: nat)
    requires d > 0 && c == CeilDiv(if blocks < q * d + 1 then q * d + 1 else blocks, d)
    ensures c > q && c * d >= blocks
  {
    if c <= q { MulMonotone(c, q, d); }
  }

  /** And nothing less does. */
  lemma CoverLeast(blocks: nat, q: nat, d: nat, c: nat, g: nat)
    requires d > 0 && c == CeilDiv(if blocks < q * d + 1 then q * d + 1 else blocks, d)
    requires g > q && g * d >= blocks
    ensures c <= g
  {
    MulMonotone(q + 1, g, d);
    if g < c { MulMonotone(g, c - 1, d); }
  }

  /** Holding `inodes` is exceeding (inodes - 1) / ipg. */
  lemma InodeGroups(inodes: nat, ipg: nat, g: nat)
    requires inodes > 0 && ipg > 0
    ensures g * ipg >= inodes <==> g > (inodes - 1) / ipg
  {
    var q := (inodes - 1) / ipg;
    assert q * ipg <= inodes - 1 < q * ipg + ipg;
    if g > q { MulMonotone(q + 1, g, ipg); } else { MulMonotone(g, q, ipg); }
  }

  lemma CountIs(blocks: nat, inodes: nat, ipg: nat, q: nat, d: nat, c: nat)
    requires Permitted(ipg) && d == DataPerGroup(ipg) && q == FullGroups(inodes, ipg)
    requires GroupCount(blocks, inodes, ipg) == Some(c)
    ensures c == CeilDiv(if blocks < q * d + 1 then q * d + 1 else blocks, d)
  {
  }

  /** Where group_count returns, it is the least feasible number of groups. */
  lemma GroupCountLeast(blocks: nat, inodes: nat, ipg: nat)
    requires Permitted(ipg) && GroupCount(blocks, inodes, ipg).Some?
    ensures Feasible(GroupCount(blocks, inodes, ipg).value, blocks, inodes, ipg)
    ensures forall g: nat :: Feasible(g, blocks, inodes, ipg) ==> GroupCount(blocks, inodes, ipg).value <= g
  {
    var q := FullGroups(inodes, ipg);
    var d, c := DataPerGroup(ipg), GroupCount(blocks, inodes, ipg).value;
    CountIs(blocks, inodes, ipg, q, d, c);
    CoverEnough(blocks, q, d, c);
    if inodes > 0 { InodeGroups(inodes, ipg, c); }
    forall g: nat | Feasible(g, blocks, inodes, ipg) ensures c <= g {
      if inodes > 0 { InodeGroups(inodes, ipg, g); }
      CoverLeast(blocks, q, d, c, g);
    }
  }

  /** The result of best_group_count: fewest groups, then fewest inodes per group. */
  ghost predicate Best(blocks: nat, inodes: nat, g: nat, ipg: nat) {
    && Permitted(ipg) && Feasible(g, blocks, inodes, ipg)
    && (forall p: nat, h: nat :: Permitted(p) && Feasible(h, blocks, inodes, p) ==> g <= h)
    && (forall p: nat :: Permitted(p) && Feasible(g, blocks, inodes, p) ==> ipg <= p)
  }

  /** What group_count gives below `top`: all of it was computed, `groups` is the least,
      and `ipg` the first group size that attains it. */
  ghost predicate LeastBelow(blocks: nat, inodes: nat, top: nat, groups: nat, ipg: nat) {
    && Permitted(ipg) && ipg < top && GroupCount(blocks, inodes, ipg) == Some(groups)
    && (forall p: nat :: Permitted(p) && p < top ==>
        GroupCount(blocks, inodes, p).Some? && groups <= GroupCount(blocks, inodes, p).value)
    && (forall p: nat :: Permitted(p) && p < ipg ==> groups < GroupCount(blocks, inodes, p).value)
  }

  datatype Chosen = Chosen(groups: nat, ipg: nat)

  /** best_group_count returns for exactly the inode counts up to MAX_INODES, and then
      chooses the fewest groups over every permitted inodes-per-group, and the smallest
      one attaining them. */
  method BestGroupCount(blocks: nat, inodes: nat) returns (r: Option<Chosen>)
    requires blocks < U32_LIMIT && inodes < U32_LIMIT
    ensures r.Some? <==> inodes <= MAX_INODES
    ensures r.Some? ==> Best(blocks, inodes, r.value.groups, r.value.ipg)
  {
    hide GroupCount, Best;
    OverflowExactly(blocks, inodes);
    var groups: nat, bestIpg: nat := NO_GROUPS, INCREMENT;
    var ipg: nat := INCREMENT;
    while ipg <= MAX_INODES_PER_GROUP
      invariant INCREMENT <= ipg <= MAX_INODES_PER_GROUP + INCREMENT && ipg % INCREMENT == 0
      invariant ipg == INCREMENT ==> groups == NO_GROUPS
      invariant ipg > INCREMENT ==> inodes <= MAX_INODES && LeastBelow(blocks, inodes, ipg, groups, bestIpg)
    {
      var g := GroupCount(blocks, inodes, ipg);
      if g.None? { return None; }
      GroupCountSmall(blocks, inodes, ipg);
      if g.value < groups {
        groups, bestIpg := g.value, ipg;
      }
      ipg := ipg + INCREMENT;
    }
    BestFromCounts(blocks, inodes, groups, bestIpg);
    return Some(Chosen(groups, bestIpg));
  }

  lemma GroupCountSmall(blocks: nat, inodes: nat, ipg: nat)
    requires Permitted(ipg) && blocks < U32_LIMIT && GroupCount(blocks, inodes, ipg).Some?
    ensures GroupCount(blocks, inodes, ipg).value < NO_GROUPS
  {
    var d, c := DataPerGroup(ipg), GroupCount(blocks, inodes, ipg).value;
    if c > 0 { MulMonotone(30718, d, c - 1); }
  }

  lemma BestFromCounts(blocks: nat, inodes: nat, groups: nat, ipg: nat)
    requires LeastBelow(blocks, inodes, MAX_INODES_PER_GROUP + INCREMENT, groups, ipg)
    ensures Best(blocks, inodes, groups, ipg)
  {
    hide GroupCount, Feasible;
    GroupCountLeast(blocks, inodes, ipg);
    forall p: nat, h: nat | Permitted(p) && Feasible(h, blocks, inodes, p)
      ensures groups <= h
    {
      GroupCountLeast(blocks, inodes, p);
    }
    forall p: nat | Permitted(p) && Feasible(groups, blocks, inodes, p)
      ensures ipg <= p
    {
      GroupCountLeast(blocks, inodes, p);
    }
  }

  // ---- what the chosen geometry guarantees at close ----

  /** The padding of the inode table never goes negative, and data, table and
      bitmaps fit the groups. */
  lemma GeometryFits(offset: nat, inodes: nat, groups: nat, ipg: nat)
    requires Best(offset, inodes, groups, ipg)
    ensures groups * ipg * 256 >= inodes * 256
    ensures offset + groups * (ipg / INCREMENT) + 2 * groups <= groups * BLOCKS_PER_GROUP
  {
    assert groups * DataPerGroup(ipg) == groups * BLOCKS_PER_GROUP - groups * (ipg / INCREMENT) - 2 * groups;
  }

  /** Fewer inodes per group leave more room for data. */
  lemma FeasibleSmaller(g: nat, blocks: nat, inodes: nat, p: nat, q: nat)
    requires Permitted(p) && Permitted(q) && p <= q && Feasible(g, blocks, inodes, q) && g * p >= inodes
    ensures Feasible(g, blocks, inodes, p)
  {
    MulMonotone(DataPerGroup(q), DataPerGroup(p), g);
  }
}
