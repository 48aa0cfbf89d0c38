/** The EROFS writer's tree and the order its nodes are laid out in: traversal, resolve
    and layout_order (ext4/src/erofs.rs). */
module ErofsTree {
  import opened Bytes

  datatype Kind = Regular | Directory | Symlink | Device | Pipe

  /** Children are held in name order; `data` is a file's spooled bytes or a link's target
      and `xattrs` the encoded attribute area. */
  datatype Node = Node(kind: Kind, mode: nat, uid: nat, gid: nat, rdev: nat, xattrs: seq<byte>, data: seq<byte>,
                       children: seq<Child>)
  datatype Child = Child(name: seq<byte>, idx: nat)

  ghost predicate Linked(nodes: seq<Node>) {
    |nodes| > 0 && forall i, j :: 0 <= i < |nodes| && 0 <= j < |nodes[i].children| ==>
      nodes[i].children[j].idx < |nodes|
  }

  // ---- reachability ----

  predicate ChildOf(nodes: seq<Node>, a: nat, x: nat) {
    a < |nodes| && exists j :: 0 <= j < |nodes[a].children| && nodes[a].children[j].idx == x
  }

  ghost predicate Path(nodes: seq<Node>, p: seq<nat>) {
    |p| > 0 && forall i :: 0 <= i < |p| - 1 ==> ChildOf(nodes, p[i], p[i + 1])
  }

  ghost predicate Reach(nodes: seq<Node>, a: nat, x: nat) {
    exists p: seq<nat> :: Path(nodes, p) && p[0] == a && p[|p| - 1] == x
  }

  lemma ReachSelf(nodes: seq<Node>, a: nat)
    ensures Reach(nodes, a, a)
  {
    var p := [a];
    assert Path(nodes, p) && p[0] == a && p[|p| - 1] == a;
  }

  lemma ReachVia(nodes: seq<Node>, a: nat, c: nat, x: nat)
    requires ChildOf(nodes, a, c) && Reach(nodes, c, x)
    ensures Reach(nodes, a, x)
  {
    hide ChildOf;
    var p :| Path(nodes, p) && p[0] == c && p[|p| - 1] == x;
    var q := [a] + p;
    forall i | 0 <= i < |q| - 1 ensures ChildOf(nodes, q[i], q[i + 1]) {
      if i > 0 { assert ChildOf(nodes, p[i - 1], p[i - 1 + 1]); }
    }
    assert Path(nodes, q) && q[0] == a && q[|q| - 1] == x;
  }

  lemma ReachThen(nodes: seq<Node>, a: nat, c: nat, x: nat)
    requires Reach(nodes, a, c) && ChildOf(nodes, c, x)
    ensures Reach(nodes, a, x)
  {
    hide ChildOf;
    var p :| Path(nodes, p) && p[0] == a && p[|p| - 1] == c;
    var q := p + [x];
    forall i | 0 <= i < |q| - 1 ensures ChildOf(nodes, q[i], q[i + 1]) {
      if i < |p| - 1 { assert ChildOf(nodes, p[i], p[i + 1]); }
    }
    assert Path(nodes, q) && q[0] == a && q[|q| - 1] == x;
  }

  ghost predicate Closed(nodes: seq<Node>, s: set<nat>) { forall a, x :: a in s && ChildOf(nodes, a, x) ==> x in s }

  lemma ClosedHolds(nodes: seq<Node>, s: set<nat>, a: nat, x: nat)
    requires Closed(nodes, s) && a in s && Reach(nodes, a, x)
    ensures x in s
  {
    hide ChildOf;
    var p :| Path(nodes, p) && p[0] == a && p[|p| - 1] == x;
    for i := 0 to |p| - 1
      invariant p[i] in s
    {
      assert ChildOf(nodes, p[i], p[i + 1]);
    }
  }

  // ---- traversal ----

  ghost predicate NoRepeats(s: seq<nat>) { forall i, j :: 0 <= i < j < |s| ==> s[i] != s[j] }
  ghost function Members(s: seq<nat>): set<nat> { set x | x in s }

  lemma PushNew(s: seq<nat>, x: nat)
    requires NoRepeats(s) && x !in s
    ensures NoRepeats(s + [x]) && Members(s + [x]) == Members(s) + {x}
  {
  }

  /** What a visit adds: reachable from `idx`, and with all its children seen. */
  ghost predicate Visited(nodes: seq<Node>, idx: nat, was: set<nat>, now: set<nat>) {
    && was <= now
    && forall x :: x in now && x !in was ==> Reach(nodes, idx, x) && forall y :: ChildOf(nodes, x, y) ==> y in now
  }

  predicate InTable(nodes: seq<Node>, i: nat) { i < |nodes| }
  ghost function All(nodes: seq<Node>): set<nat> { set i: nat | i < |nodes| && InTable(nodes, i) }

  /** The recursion of `traversal`: a node seen before is skipped. */
  method Visit(nodes: seq<Node>, idx: nat, seen: set<nat>, order: seq<nat>) returns (now: set<nat>, next: seq<nat>)
    requires Linked(nodes) && idx < |nodes| && seen == Members(order) && NoRepeats(order) && seen <= All(nodes)
    ensures now == Members(next) && NoRepeats(next) && order <= next && now <= All(nodes)
    ensures idx in now && Visited(nodes, idx, seen, now)
    ensures idx !in seen ==> |next| > |order| && next[|order|] == idx
    decreases All(nodes) - seen
  {
    now, next := seen, order;
    if idx in seen { return; }
    hide Reach, ChildOf, NoRepeats, Visited;
    PushNew(order, idx);
    now, next := seen + {idx}, order + [idx];
    VisitStarts(nodes, idx, seen);
    for j := 0 to |nodes[idx].children|
      invariant now == Members(next) && NoRepeats(next) && order + [idx] <= next && seen + {idx} <= now <= All(nodes)
      invariant Visiting(nodes, idx, seen, now, j)
    {
      ghost var before := now;
      now, next := Visit(nodes, nodes[idx].children[j].idx, now, next);
      VisitChild(nodes, idx, seen, before, now, j);
    }
    VisitEnds(nodes, idx, seen, now);
  }

  /** Midway: everything new but `idx` is finished, and the first `j` children are seen. */
  ghost predicate Visiting(nodes: seq<Node>, idx: nat, was: set<nat>, now: set<nat>, j: nat)
    requires idx < |nodes|
  {
    && j <= |nodes[idx].children| && was <= now && idx in now && idx !in was
    && (forall x :: x in now && x !in was ==> Reach(nodes, idx, x))
    && (forall x, y :: x in now && x !in was && x != idx && ChildOf(nodes, x, y) ==> y in now)
    && (forall k :: 0 <= k < j ==> nodes[idx].children[k].idx in now)
  }

  lemma VisitStarts(nodes: seq<Node>, idx: nat, was: set<nat>)
    requires idx < |nodes| && idx !in was
    ensures Visiting(nodes, idx, was, was + {idx}, 0)
  {
    ReachSelf(nodes, idx);
  }

  lemma VisitChild(nodes: seq<Node>, idx: nat, was: set<nat>, mid: set<nat>, now: set<nat>, j: nat)
    requires idx < |nodes| && j < |nodes[idx].children| && Visiting(nodes, idx, was, mid, j)
    requires nodes[idx].children[j].idx in now && Visited(nodes, nodes[idx].children[j].idx, mid, now)
    ensures Visiting(nodes, idx, was, now, j + 1)
  {
    var c := nodes[idx].children[j].idx;
    assert ChildOf(nodes, idx, c);
    hide ChildOf;
    forall x | x in now && x !in was ensures Reach(nodes, idx, x) { if x !in mid { ReachVia(nodes, idx, c, x); } }
  }

  lemma VisitEnds(nodes: seq<Node>, idx: nat, was: set<nat>, now: set<nat>)
    requires idx < |nodes| && Visiting(nodes, idx, was, now, |nodes[idx].children|)
    ensures Visited(nodes, idx, was, now)
  {
    hide Reach;
    forall y | ChildOf(nodes, idx, y) ensures y in now {}
  }

  /** traversal: every node that can be reached from the root, once, root first. */
  method Traversal(nodes: seq<Node>) returns (order: seq<nat>)
    requires Linked(nodes)
    ensures NoRepeats(order) && |order| > 0 && order[0] == 0 && forall x :: x in order <==> Reach(nodes, 0, x)
  {
    hide Reach, ChildOf;
    var now;
    now, order := Visit(nodes, 0, {}, []);
    forall x | Reach(nodes, 0, x) ensures x in order { ClosedHolds(nodes, now, 0, x); }
  }

  // ---- priority paths ----

  /** The child of that name. */
  function Named(cs: seq<Child>, name: seq<byte>): (r: Option<nat>)
    ensures r.Some? <==> exists j :: 0 <= j < |cs| && cs[j].name == name
    ensures r.Some? ==> exists j :: 0 <= j < |cs| && cs[j].idx == r.value && cs[j].name == name
  {
    if cs == [] then None else if cs[0].name == name then Some(cs[0].idx) else
    var r := Named(cs[1..], name);
    assert forall j :: 0 <= j < |cs| - 1 ==> cs[1..][j] == cs[j + 1];
    assert r.Some? ==> exists j :: 0 <= j < |cs| - 1 && cs[1..][j].idx == r.value && cs[1..][j].name == name;
    assert forall j :: 1 <= j < |cs| ==> cs[j] == cs[1..][j - 1];
    r
  }

  const DOT: seq<byte> := [46]

  /** Where a path leads from the root; empty components and "." are skipped. */
  function Follow(nodes: seq<Node>, comps: seq<seq<byte>>): Option<nat> {
    if comps == [] then Some(0) else
    var d, c := Follow(nodes, comps[..|comps| - 1]), comps[|comps| - 1];
    if d.None? || d.value >= |nodes| then None
    else if c == [] || c == DOT then d else Named(nodes[d.value].children, c)
  }

  lemma {:induction false} FollowStops(nodes: seq<Node>, comps: seq<seq<byte>>, k: nat)
    requires k <= |comps| && Follow(nodes, comps[..k]).None?
    ensures Follow(nodes, comps).None?
  {
    if k == |comps| { assert comps[..k] == comps; } else {
      assert comps[..|comps| - 1][..k] == comps[..k];
      FollowStops(nodes, comps[..|comps| - 1], k);
    }
  }

  lemma {:induction false} FollowReach(nodes: seq<Node>, comps: seq<seq<byte>>)
    requires Linked(nodes)
    ensures var r := Follow(nodes, comps); r.Some? ==> r.value < |nodes| && Reach(nodes, 0, r.value)
  {
    hide Reach;
    if comps == [] { ReachSelf(nodes, 0); } else {
      FollowReach(nodes, comps[..|comps| - 1]);
      var d, r := Follow(nodes, comps[..|comps| - 1]), Follow(nodes, comps);
      if r.Some? && d != r { ReachThen(nodes, 0, d.value, r.value); }
    }
  }

  /** resolve: the node the path leads to, which is always reachable. */
  method Resolve(nodes: seq<Node>, comps: seq<seq<byte>>) returns (r: Option<nat>)
    requires Linked(nodes)
    ensures r == Follow(nodes, comps) && (r.Some? ==> r.value < |nodes| && Reach(nodes, 0, r.value))
  {
    hide Reach;
    var cur: nat := 0;
    assert comps[..|comps|] == comps;
    for i := 0 to |comps|
      invariant cur < |nodes| && Follow(nodes, comps[..i]) == Some(cur)
    {
      assert comps[..i + 1][..i] == comps[..i];
      if comps[i] == [] || comps[i] == DOT { continue; }
      var c := Named(nodes[cur].children, comps[i]);
      if c.None? { FollowStops(nodes, comps, i + 1); return None; }
      cur := c.value;
    }
    FollowReach(nodes, comps);
    return Some(cur);
  }

  /** Some priority path leads to `x`, and `x` is not the root. */
  ghost predicate Prioritized(nodes: seq<Node>, priority: seq<seq<seq<byte>>>, x: nat) {
    x != 0 && exists i :: 0 <= i < |priority| && Follow(nodes, priority[i]) == Some(x)
  }

  /** What the priority paths lead to, the root left out, in order of first mention. */
  ghost function Mentioned(nodes: seq<Node>, priority: seq<seq<seq<byte>>>): seq<nat> {
    if priority == [] then [] else
    var before, r := Mentioned(nodes, priority[..|priority| - 1]), Follow(nodes, priority[|priority| - 1]);
    if r.None? || r.value == 0 || r.value in before then before else before + [r.value]
  }

  /** Each prioritized node is mentioned once, and nothing else is. */
  lemma {:induction false} MentionedAre(nodes: seq<Node>, priority: seq<seq<seq<byte>>>)
    ensures NoRepeats([0] + Mentioned(nodes, priority))
    ensures forall x :: x in Mentioned(nodes, priority) <==> Prioritized(nodes, priority, x)
  {
    if priority != [] {
      var n := |priority| - 1;
      var front, last := priority[..n], Follow(nodes, priority[n]);
      MentionedAre(nodes, front);
      hide Follow;
      var before := Mentioned(nodes, front);
      if last.Some? && last.value != 0 && last.value !in before {
        PushNew([0] + before, last.value);
        assert ([0] + before) + [last.value] == [0] + (before + [last.value]);
      }
      forall x: nat
        ensures Prioritized(nodes, priority, x) <==> Prioritized(nodes, front, x) || (x != 0 && last == Some(x))
      {
        if Prioritized(nodes, front, x) {
          var i :| 0 <= i < n && Follow(nodes, front[i]) == Some(x);
          assert priority[i] == front[i];
        }
        if Prioritized(nodes, priority, x) {
          var i :| 0 <= i <= n && Follow(nodes, priority[i]) == Some(x);
          assert i < n ==> priority[i] == front[i];
        }
      }
    }
  }

  /** Of two mentioned nodes the one that comes first has a path before every path that
      leads to the other. */
  lemma {:induction false} MentionOrder(nodes: seq<Node>, priority: seq<seq<seq<byte>>>, i: nat,
                                        j: nat) returns (a: nat)
    requires i < j < |Mentioned(nodes, priority)|
    ensures a < |priority| && Follow(nodes, priority[a]) == Some(Mentioned(nodes, priority)[i])
    ensures forall b :: 0 <= b <= a ==> Follow(nodes, priority[b]) != Some(Mentioned(nodes, priority)[j])
  {
    var n := |priority| - 1;
    var front := priority[..n];
    var before := Mentioned(nodes, front);
    assert forall b :: 0 <= b < n ==> front[b] == priority[b];
    if j < |before| {
      a := MentionOrder(nodes, front, i, j);
    } else {
      MentionedAre(nodes, front);
      assert before[i] in before;
      a :| 0 <= a < |front| && Follow(nodes, front[a]) == Some(before[i]);
    }
  }

  /** Root, then what the priority paths lead to, then the rest. */
  ghost predicate PriorityFirst(nodes: seq<Node>, priority: seq<seq<seq<byte>>>, order: seq<nat>, prio: set<nat>) {
    && [0] + Mentioned(nodes, priority) <= order
    && forall x :: x in prio <==> Prioritized(nodes, priority, x)
  }

  /** layout_order: every reachable node once, with the root first, then what the priority
      paths lead to in order of first mention, then the rest. */
  method LayoutOrder(nodes: seq<Node>, priority: seq<seq<seq<byte>>>) returns (order: seq<nat>, prio: set<nat>)
    requires Linked(nodes)
    ensures NoRepeats(order) && |order| > 0 && order[0] == 0 && forall x :: x in order <==> Reach(nodes, 0, x)
    ensures PriorityFirst(nodes, priority, order, prio)
  {
    hide Reach, ChildOf, NoRepeats, Follow, Prioritized;
    var dfs := Traversal(nodes);
    MentionedAre(nodes, priority);
    prio := {};
    if priority == [] { return dfs, prio; }
    order := [0];
    ReachSelf(nodes, 0);
    assert priority[..|priority|] == priority;
    for k := 0 to |priority|
      invariant order == [0] + Mentioned(nodes, priority[..k]) && prio == Members(Mentioned(nodes, priority[..k]))
      invariant forall x :: x in order ==> Reach(nodes, 0, x)
    {
      assert priority[..k + 1][..k] == priority[..k];
      var r := Resolve(nodes, priority[k]);
      if r.Some? && r.value !in order {
        MemberAdded(Mentioned(nodes, priority[..k]), r.value);
        order, prio := order + [r.value], prio + {r.value};
      }
    }
    ghost var first := order;
    for k := 0 to |dfs|
      invariant NoRepeats(order) && first <= order && forall x :: x in order <==> x in first || x in dfs[..k]
    {
      assert dfs[..k + 1] == dfs[..k] + [dfs[k]];
      if dfs[k] !in order {
        PushNew(order, dfs[k]);
        order := order + [dfs[k]];
      }
    }
    assert dfs[..|dfs|] == dfs;
  }

  lemma MemberAdded(s: seq<nat>, x: nat)
    ensures Members(s + [x]) == Members(s) + {x}
  {
  }
}
