/**
 * `MCTree` and the tree-side operations of `Node` from Flask/mc_agent.py:
 * UCB selection, expansion, back-propagation, the search loop that runs a
 * number of trajectories and picks the next move, and pruning to a new
 * root. The nodes live in the arena of `MctsNode`; the methods change it in
 * place and are proved against the pure definitions there.
 */
module MctsTree {
  import opened Wrappers
  import opened MctsNode

  /**
   * The floating-point parts of the scoring, as parameters: `explore(p, s)`
   * stands for `np.sqrt(np.log(p) / (s + 0.001))` and `sqrt` for `np.sqrt`.
   */
  datatype Scoring = Scoring(explore: (nat, nat) -> real, sqrt: nat -> real)

  /** The indices `cs` all name rows of the arena. */
  ghost predicate InArena(nodes: seq<Node>, cs: seq<nat>)
  {
    forall k :: 0 <= k < |cs| ==> cs[k] < |nodes|
  }

  lemma ChildrenInArena(nodes: seq<Node>, i: nat)
    requires Ordered(nodes) && i < |nodes|
    ensures InArena(nodes, nodes[i].children)
  {
    var cs := nodes[i].children;
    assert forall k :: 0 <= k < |cs| ==> cs[k] in cs;
  }

  /** The UCB score of child `j` of node `i` with exploration constant `c`. */
  function Ucb(nodes: seq<Node>, i: nat, j: nat, c: real, sc: Scoring): real
    requires i < |nodes| && j < |nodes|
  {
    nodes[j].reward + nodes[j].value + c * sc.explore(nodes[i].selections, nodes[j].selections)
  }

  /** The UCB scores of the children of `i`, in child order. */
  function Scores(nodes: seq<Node>, i: nat, c: real, sc: Scoring): (r: seq<real>)
    requires i < |nodes| && InArena(nodes, nodes[i].children)
    ensures |r| == |nodes[i].children|
    ensures forall k :: 0 <= k < |r| ==> r[k] == Ucb(nodes, i, nodes[i].children[k], c, sc)
  {
    seq(|nodes[i].children|, k requires 0 <= k < |nodes[i].children| => Ucb(nodes, i, nodes[i].children[k], c, sc))
  }

  /** `k` holds the first of the highest scores: what a strict `>` scan keeps. */
  predicate FirstBest(scores: seq<real>, k: nat)
  {
    && k < |scores|
    && (forall j :: 0 <= j < k ==> scores[j] < scores[k])
    && (forall j :: k < j < |scores| ==> scores[j] <= scores[k])
  }

  /** At most one position is the first best. */
  lemma FirstBestUnique(scores: seq<real>, a: nat, b: nat)
    requires FirstBest(scores, a) && FirstBest(scores, b)
    ensures a == b
  {
    var sa, sb := scores[a], scores[b];
    assert !(a < b) && !(b < a);
  }

  /** `k` holds the first of the largest counts. */
  predicate FirstLargest(counts: seq<nat>, k: nat)
  {
    && k < |counts|
    && (forall j :: 0 <= j < k ==> counts[j] < counts[k])
    && (forall j :: k < j < |counts| ==> counts[j] <= counts[k])
  }

  /** `k` holds the first of the most selections, and that count is positive. */
  predicate FirstMostSelected(counts: seq<nat>, k: nat)
  {
    FirstLargest(counts, k) && counts[k] > 0
  }

  /** The `selections` counters of the nodes `cs`. */
  function Counts(nodes: seq<Node>, cs: seq<nat>): (r: seq<nat>)
    requires InArena(nodes, cs)
    ensures |r| == |cs| && forall k :: 0 <= k < |cs| ==> r[k] == nodes[cs[k]].selections
  {
    seq(|cs|, k requires 0 <= k < |cs| => nodes[cs[k]].selections)
  }

  /**
   * The child `search` hands back: the first child on the target if there is
   * one; otherwise the first child with the most selections, if any child
   * was selected at all; otherwise none.
   */
  ghost predicate NextChoice(nodes: seq<Node>, root: nat, target: Loc, r: Option<nat>)
    requires root < |nodes| && InArena(nodes, nodes[root].children)
    ensures NextChoice(nodes, root, target, r) && r.Some? ==> r.value in nodes[root].children
  {
    var cs := nodes[root].children;
    if exists k :: 0 <= k < |cs| && nodes[cs[k]].location == target then
      exists k :: 0 <= k < |cs| && r == Some(cs[k]) && nodes[cs[k]].location == target &&
        forall j :: 0 <= j < k ==> nodes[cs[j]].location != target
    else if forall k :: 0 <= k < |cs| ==> nodes[cs[k]].selections == 0 then r == None
    else exists k :: 0 <= k < |cs| && r == Some(cs[k]) && FirstMostSelected(Counts(nodes, cs), k)
  }

  /** `search` has at most one answer. */
  lemma NextChoiceUnique(nodes: seq<Node>, root: nat, target: Loc, r1: Option<nat>, r2: Option<nat>)
    requires root < |nodes| && InArena(nodes, nodes[root].children)
    requires NextChoice(nodes, root, target, r1) && NextChoice(nodes, root, target, r2)
    ensures r1 == r2
  {
    var cs := nodes[root].children;
    var counts := Counts(nodes, cs);
    if exists k :: 0 <= k < |cs| && nodes[cs[k]].location == target {
      var k1 :| 0 <= k1 < |cs| && r1 == Some(cs[k1]) && FirstAt(nodes, cs, target, k1);
      var k2 :| 0 <= k2 < |cs| && r2 == Some(cs[k2]) && FirstAt(nodes, cs, target, k2);
      FirstAtUnique(nodes, cs, target, k1, k2);
    } else if !(forall k :: 0 <= k < |cs| ==> nodes[cs[k]].selections == 0) {
      var k1 :| 0 <= k1 < |cs| && r1 == Some(cs[k1]) && FirstMostSelected(counts, k1);
      var k2 :| 0 <= k2 < |cs| && r2 == Some(cs[k2]) && FirstMostSelected(counts, k2);
      FirstLargestUnique(counts, k1, k2);
    }
  }

  /** Position `k` of `cs` holds the first child on the target. */
  predicate FirstAt(nodes: seq<Node>, cs: seq<nat>, target: Loc, k: nat)
    requires InArena(nodes, cs)
  {
    k < |cs| && nodes[cs[k]].location == target && forall j :: 0 <= j < k ==> nodes[cs[j]].location != target
  }

  lemma FirstAtUnique(nodes: seq<Node>, cs: seq<nat>, target: Loc, a: nat, b: nat)
    requires InArena(nodes, cs) && FirstAt(nodes, cs, target, a) && FirstAt(nodes, cs, target, b)
    ensures a == b
  {
    assert !(a < b) && !(b < a);
  }

  lemma FirstLargestUnique(counts: seq<nat>, a: nat, b: nat)
    requires FirstLargest(counts, a) && FirstLargest(counts, b)
    ensures a == b
  {
    var ca, cb := counts[a], counts[b];
    assert !(a < b) && !(b < a);
  }

  /** The arena with node `j` counted as selected once more. */
  function Bump(nodes: seq<Node>, j: nat): (r: seq<Node>)
    requires j < |nodes|
    ensures SameShape(nodes, r)
    ensures forall k :: 0 <= k < |nodes| ==> r[k].selections == nodes[k].selections + (if k == j then 1 else 0)
    ensures forall k :: 0 <= k < |nodes| ==> r[k].value == nodes[k].value
  {
    nodes[j := nodes[j].(selections := nodes[j].selections + 1)]
  }

  /**
   * The walk so far of a trajectory: from the root it always takes the child
   * at position `picks[k]`, the first best UCB score, and no node strictly
   * inside the walk is on the target.
   */
  ghost predicate Walked(nodes: seq<Node>, root: nat, trail: seq<nat>, picks: seq<nat>, target: Loc, c: real, sc: Scoring)
  {
    && WellFormed(nodes, root)
    && Descent(nodes, root, trail)
    && |picks| == |trail| - 1
    && (forall k :: 0 <= k < |trail| ==> InArena(nodes, nodes[trail[k]].children))
    && (forall k :: 0 <= k < |picks| ==>
          && picks[k] < |nodes[trail[k]].children|
          && nodes[trail[k]].children[picks[k]] == trail[k + 1]
          && FirstBest(Scores(nodes, trail[k], c, sc), picks[k]))
    && (forall k :: 0 < k < |trail| - 1 ==> nodes[trail[k]].location != target)
  }

  /**
   * The trail a trajectory walks: it stops at a leaf or right after stepping
   * onto the target, and it does not pass through the target.
   */
  ghost predicate SelectedTrail(nodes: seq<Node>, root: nat, trail: seq<nat>, picks: seq<nat>, target: Loc, c: real, sc: Scoring)
  {
    && Walked(nodes, root, trail, picks, target, c, sc)
    && (|nodes[trail[|trail| - 1]].children| == 0 ||
        (|trail| > 1 && nodes[trail[|trail| - 1]].location == target))
  }

  /** One more `select` step off a node other than the target extends the walk. */
  lemma WalkedStep(nodes: seq<Node>, root: nat, trail: seq<nat>, picks: seq<nat>, target: Loc, c: real, sc: Scoring, pos: nat)
    requires Walked(nodes, root, trail, picks, target, c, sc)
    requires var i := trail[|trail| - 1];
      && pos < |nodes[i].children| && FirstBest(Scores(nodes, i, c, sc), pos)
      && (|trail| > 1 ==> nodes[i].location != target)
    ensures var i := trail[|trail| - 1];
      var cur := nodes[i].children[pos];
      && i < cur < |nodes|
      && Walked(nodes, root, trail + [cur], picks + [pos], target, c, sc)
  {
    var i := trail[|trail| - 1];
    var cur := nodes[i].children[pos];
    assert cur in nodes[i].children;
    ChildrenInArena(nodes, cur);
    var t, p := trail + [cur], picks + [pos];
    forall k | 0 < k < |t|
      ensures t[k] in nodes[t[k - 1]].children
    {
      if k < |trail| {
        assert t[k] == trail[k] && t[k - 1] == trail[k - 1];
      }
    }
    forall k | 0 <= k < |t|
      ensures t[k] < |nodes| && InArena(nodes, nodes[t[k]].children)
    {
      if k < |trail| {
        assert t[k] == trail[k];
      }
    }
    forall k | 0 <= k < |p|
      ensures p[k] < |nodes[t[k]].children| && nodes[t[k]].children[p[k]] == t[k + 1]
      ensures FirstBest(Scores(nodes, t[k], c, sc), p[k])
    {
      if k < |picks| {
        assert t[k] == trail[k] && p[k] == picks[k] && t[k + 1] == trail[k + 1];
      }
    }
    forall k | 0 < k < |t| - 1
      ensures nodes[t[k]].location != target
    {
      assert t[k] == trail[k];
    }
  }

  /** `b` grows `a` without moving any node, re-linking it, or changing its path. */
  ghost predicate Unmoved(a: seq<Node>, b: seq<Node>)
  {
    && |a| <= |b|
    && forall j :: 0 <= j < |a| ==>
         b[j].location == a[j].location && b[j].path == a[j].path && b[j].parent == a[j].parent
  }

  lemma UnmovedTransitive(a: seq<Node>, b: seq<Node>, c: seq<Node>)
    requires Unmoved(a, b) && Unmoved(b, c)
    ensures Unmoved(a, c)
  {
  }

  lemma {:induction false} AncestorsCountedFromSelections(nodes: seq<Node>, i: nat)
    requires Ordered(nodes) && i < |nodes|
    requires forall j :: j in Ancestors(nodes, i) ==> j < |nodes| && nodes[j].selections > 0
    ensures AncestorsCounted(nodes, i)
    decreases i
  {
    if nodes[i].parent.Some? {
      AncestorsCountedFromSelections(nodes, nodes[i].parent.value);
    }
  }

  /**
   * Before back-propagation from the end `cur` of a trajectory's trail, every
   * ancestor of `cur` has been selected: the root was just counted, and each
   * inner node of the trail has children, so it was counted when it was
   * expanded. The ancestors `selections` is bumped on are the trail's inner
   * nodes.
   */
  lemma TrailCounted(n0: seq<Node>, n1: seq<Node>, n2: seq<Node>, root: nat, trail: seq<nat>, cur: nat)
    requires WellFormed(n0, root) && Counted(n0) && n1 == Bump(n0, root)
    requires Descent(n1, root, trail) && cur == trail[|trail| - 1]
    requires Ordered(n2) && |n1| <= |n2|
    requires forall j :: 0 <= j < |n1| ==> n2[j].parent == n1[j].parent && n2[j].selections == n1[j].selections
    ensures cur != root ==>
      && n2[cur].parent.Some? && AncestorsCounted(n2, cur)
      && Lifted(n2, cur) == Elements(trail[..|trail| - 1]) - {root}
  {
    var m := |trail| - 1;
    SameShapeKeepsWellFormed(n0, n1, root);
    DescentAncestry(n1, root, trail);
    DescentLinks(n1, root, trail);
    if cur != root {
      ParentsAgree(n1, n2, cur);
      ElementsMembers(trail[..m]);
      forall j | j in Ancestors(n2, cur)
        ensures j < |n2| && n2[j].selections > 0
      {
        var k :| 0 <= k < m && trail[k] == j;
        assert trail[k + 1] in n0[j].children;
      }
      AncestorsCountedFromSelections(n2, cur);
    }
  }

  /**
   * The selection counts at the end of a trajectory: one more on each node of
   * the trail, none on the new children, and every node with children counted.
   */
  lemma TrailSelections(n0: seq<Node>, n1: seq<Node>, n2: seq<Node>, nf: seq<Node>, root: nat, trail: seq<nat>, cur: nat)
    requires WellFormed(n0, root) && Counted(n0) && n1 == Bump(n0, root)
    requires Descent(n1, root, trail) && cur == trail[|trail| - 1]
    requires Ordered(n2) && |n1| <= |n2| == |nf|
    requires forall j :: 0 <= j < |n1| ==> n2[j].parent == n1[j].parent && n2[j].selections == n1[j].selections
    requires forall j :: 0 <= j < |n1| && j != cur ==> n2[j].children == n1[j].children
    requires forall j :: |n1| <= j < |n2| ==> n2[j].selections == 0 && n2[j].children == []
    requires forall j :: 0 <= j < |n2| ==> nf[j].children == n2[j].children
    requires forall j :: 0 <= j < |n2| ==>
      nf[j].selections == n2[j].selections + (if cur != root && (j in Lifted(n2, cur) || j == cur) then 1 else 0)
    ensures forall j :: 0 <= j < |n0| ==> nf[j].selections == n0[j].selections + (if j in Elements(trail) then 1 else 0)
    ensures forall j :: |n0| <= j < |nf| ==> nf[j].selections == 0
    ensures Counted(nf)
  {
    TrailBumps(n0, n1, n2, root, trail, cur);
    assert cur < |n1|;
    AncestorsBelow(n2, cur);
    assert forall j :: 0 <= j < |n0| ==> nf[j].selections == n0[j].selections + (if j in Elements(trail) then 1 else 0);
  }

  /** The nodes a trajectory counts: the trail, as lifted ancestors of its end plus the end and the root. */
  lemma TrailBumps(n0: seq<Node>, n1: seq<Node>, n2: seq<Node>, root: nat, trail: seq<nat>, cur: nat)
    requires WellFormed(n0, root) && Counted(n0) && n1 == Bump(n0, root)
    requires Descent(n1, root, trail) && cur == trail[|trail| - 1]
    requires Ordered(n2) && |n1| <= |n2|
    requires forall j :: 0 <= j < |n1| ==> n2[j].parent == n1[j].parent && n2[j].selections == n1[j].selections
    ensures cur != root ==> Elements(trail) == Lifted(n2, cur) + {cur, root} && root !in Lifted(n2, cur)
    ensures cur == root ==> Elements(trail) == {root}
  {
    var m := |trail| - 1;
    TrailCounted(n0, n1, n2, root, trail, cur);
    SameShapeKeepsWellFormed(n0, n1, root);
    DescentLinks(n1, root, trail);
    ElementsMembers(trail[..m]);
    assert Elements(trail) == Elements(trail[..m]) + {cur};
    if m > 0 {
      assert root in trail[..m];
    } else {
      assert Elements(trail[..m]) == {};
    }
  }

  /** Every node but the first lies on a cell whose surface value is not `-1`. */
  ghost predicate OpenCells(grid: Grid, nodes: seq<Node>)
  {
    forall i :: 0 < i < |nodes| ==> InBounds(grid, nodes[i].location) && Cost(grid, nodes[i].location) != NO_GO
  }

  /** The cells of new children are accepted ones: interior, since the raster is fenced, and traversable. */
  lemma ExpandedCells(nodes: seq<Node>, i: nat, g: Grid, target: Loc, sqrt: nat -> real)
    requires Fenced(g) && i < |nodes| && Interior(g, nodes[i].location)
    requires |Accepted(g, nodes[i].location, nodes[i].path, 8)| > 0
    requires forall j :: 0 <= j < |nodes| ==> Interior(g, nodes[j].location)
    requires OpenCells(g, nodes)
    ensures var e := Expanded(nodes, i, g, target, sqrt, Accepted(g, nodes[i].location, nodes[i].path, 8));
      && (forall j :: 0 <= j < |e| ==> Interior(g, e[j].location))
      && OpenCells(g, e)
  {
    var acc := Accepted(g, nodes[i].location, nodes[i].path, 8);
    AcceptedSound(g, nodes[i].location, nodes[i].path, 8);
    var e := Expanded(nodes, i, g, target, sqrt, acc);
    forall j | |nodes| <= j < |e|
      ensures Interior(g, e[j].location) && Cost(g, e[j].location) != NO_GO
    {
      var c := acc[j - |nodes|];
      assert c in acc;
      assert e[j].location == c;
    }
  }

  class MCTree {
    /** The arena of all nodes ever created; the tree is what `root` reaches. */
    var nodes: seq<Node>
    var root: nat
    const grid: Grid
    const target: Loc

    /** The tree invariant, on a fenced raster with every node in its interior. */
    ghost predicate Valid()
      reads this
    {
      && WellFormed(nodes, root)
      && Fenced(grid)
      && (forall i :: 0 <= i < |nodes| ==> Interior(grid, nodes[i].location))
      && OpenCells(grid, nodes)
    }

    /** A tree holding only the root at `start`, whose path is just `start`. */
    constructor (grid: Grid, start: Loc, target: Loc)
      requires Fenced(grid) && Interior(grid, start)
      ensures this.grid == grid && this.target == target
      ensures nodes == [Node(start, None, [], 0, 0.0, 0.0, {start})] && root == 0
      ensures Valid() && Counted(nodes)
    {
      this.grid := grid;
      this.target := target;
      nodes := [Node(start, None, [], 0, 0.0, 0.0, {start})];
      root := 0;
    }

    /** `Node.select`: the position of the child with the first best UCB score. */
    method Select(i: nat, c: real, sc: Scoring) returns (r: Option<nat>)
      requires i < |nodes| && InArena(nodes, nodes[i].children)
      ensures r.None? <==> |nodes[i].children| == 0
      ensures r.Some? ==> FirstBest(Scores(nodes, i, c, sc), r.value)
    {
      var cs := nodes[i].children;
      ghost var scores := Scores(nodes, i, c, sc);
      var high := 0.0;
      r := None;
      var k := 0;
      while k < |cs|
        invariant 0 <= k <= |cs|
        invariant r.None? <==> k == 0
        invariant r.Some? ==> r.value < k && high == scores[r.value]
        invariant r.Some? ==> forall j :: 0 <= j < r.value ==> scores[j] < high
        invariant r.Some? ==> forall j :: r.value < j < k ==> scores[j] <= high
      {
        var ucb := nodes[cs[k]].reward + nodes[cs[k]].value + c * sc.explore(nodes[i].selections, nodes[cs[k]].selections);
        if r.None? || ucb > high {
          high := ucb;
          r := Some(k);
        }
        k := k + 1;
      }
    }

    /**
     * The loop of `Node.expand` over the 8 directions: the children it would
     * append to node `i`, in direction order, and their rewards.
     */
    method Candidates(i: nat, sc: Scoring) returns (kids: seq<Node>, rewards: seq<real>)
      requires Rectangular(grid) && i < |nodes| && Interior(grid, nodes[i].location)
      ensures kids == Kids(nodes, i, grid, target, sc.sqrt, Accepted(grid, nodes[i].location, nodes[i].path, 8))
      ensures rewards == Rewards(kids)
    {
      var loc := nodes[i].location;
      var path := nodes[i].path;
      ghost var acc: seq<Loc> := [];
      kids := [];
      rewards := [];
      for k := 0 to 8
        invariant acc == Accepted(grid, loc, path, k)
        invariant kids == Kids(nodes, i, grid, target, sc.sqrt, acc)
        invariant rewards == Rewards(kids)
      {
        var child := Add(loc, Directions[k]);
        NeighbourInBounds(grid, loc, Directions[k]);
        if child !in path && grid[child.y][child.x] != NO_GO {
          var reward := if child == target then 100.0
            else (sc.sqrt(Dist2(loc, target)) - sc.sqrt(Dist2(child, target)) - 1.42) + (-grid[child.y][child.x]) * 2.0;
          var node := Node(child, Some(i), [], 0, reward, 0.0, path + {child});
          assert Kids(nodes, i, grid, target, sc.sqrt, acc + [child]) == kids + [node];
          kids := kids + [node];
          rewards := rewards + [reward];
          acc := acc + [child];
        }
      }
    }

    /**
     * `Node.expand` of the leaf `i`: one child per accepted neighbour, appended
     * in direction order, and the node's value set to their mean reward; no
     * accepted neighbour is a `ValueError`, raised after the value has become
     * the mean of no rewards (not a number), so the contract leaves that one
     * value open and this body keeps the old one.
     */
    method Expand(i: nat, sc: Scoring) returns (res: Outcome)
      requires Valid() && i < |nodes| && |nodes[i].children| == 0
      modifies this
      ensures root == old(root)
      ensures var acc := Accepted(grid, old(nodes[i].location), old(nodes[i].path), 8);
        if |acc| == 0 then
          && res == Fail(ValueError) && |nodes| == |old(nodes)|
          && nodes[i] == old(nodes)[i].(value := nodes[i].value)
          && (forall j :: 0 <= j < |nodes| && j != i ==> nodes[j] == old(nodes)[j])
        else res == Pass && nodes == Expanded(old(nodes), i, grid, target, sc.sqrt, acc)
      ensures Valid() && |old(nodes)| <= |nodes|
      ensures forall j :: 0 <= j < |old(nodes)| ==>
        nodes[j].parent == old(nodes)[j].parent && nodes[j].selections == old(nodes)[j].selections &&
        (j != i ==> nodes[j].children == old(nodes)[j].children)
      ensures forall j :: |old(nodes)| <= j < |nodes| ==> nodes[j].selections == 0 && nodes[j].children == []
      ensures Unmoved(old(nodes), nodes)
    {
      assert Interior(grid, nodes[i].location);
      var kids, rewards := Candidates(i, sc);
      if |kids| == 0 {
        return Fail(ValueError);
      }
      var n := |nodes|;
      ExpandedWellFormed(nodes, root, i, grid, target, sc.sqrt);
      ExpandedCells(nodes, i, grid, target, sc.sqrt);
      nodes := nodes[i := nodes[i].(children := nodes[i].children + Range(n, n + |kids|), value := Mean(rewards))] + kids;
      res := Pass;
    }

    /** `Node.backpropagate` of node `i`, recursing up to the child of the root. */
    method Backpropagate(i: nat)
      requires Ordered(nodes) && i < |nodes| && nodes[i].parent.Some? && AncestorsCounted(nodes, i)
      modifies this
      ensures nodes == Backprop(old(nodes), i) && root == old(root)
      decreases i
    {
      var p := nodes[i].parent.value;
      var step := (nodes[i].value * DISCOUNT - nodes[p].value) / (nodes[p].selections as real);
      nodes := nodes[p := nodes[p].(value := nodes[p].value + step)];
      assert nodes == Pulled(old(nodes), i);
      if nodes[p].parent.Some? {
        SameShapeKeepsAncestry(old(nodes), nodes, p);
        Backpropagate(p);
        nodes := nodes[p := nodes[p].(selections := nodes[p].selections + 1)];
      }
    }

    /**
     * The descent of a trajectory: from the root, repeatedly `select` the
     * child with the first best UCB score, until a leaf is reached or the
     * step lands on the target.
     */
    method Descend(c: real, sc: Scoring) returns (cur: nat, ghost trail: seq<nat>, ghost picks: seq<nat>)
      requires WellFormed(nodes, root)
      ensures SelectedTrail(nodes, root, trail, picks, target, c, sc) && cur == trail[|trail| - 1]
    {
      cur := root;
      trail := [root];
      picks := [];
      ChildrenInArena(nodes, root);
      while |nodes[cur].children| > 0
        invariant Walked(nodes, root, trail, picks, target, c, sc) && cur == trail[|trail| - 1]
        invariant |trail| > 1 ==> nodes[cur].location != target
        decreases |nodes| - cur
      {
        ChildrenInArena(nodes, cur);
        var pos := Select(cur, c, sc);
        WalkedStep(nodes, root, trail, picks, target, c, sc, pos.value);
        cur := nodes[cur].children[pos.value];
        trail := trail + [cur];
        picks := picks + [pos.value];
        if nodes[cur].location == target {
          break;
        }
      }
    }

    /**
     * `current_node.backpropagate()` then `current_node.selections += 1`:
     * the lifted ancestors of `i` and `i` itself count one more selection.
     */
    method Credit(i: nat)
      requires Valid() && i < |nodes| && nodes[i].parent.Some? && AncestorsCounted(nodes, i)
      modifies this
      ensures root == old(root) && Valid() && |nodes| == |old(nodes)|
      ensures forall j :: 0 <= j < |nodes| ==> nodes[j].children == old(nodes)[j].children
      ensures forall j :: 0 <= j < |nodes| ==>
        nodes[j].selections == old(nodes)[j].selections + (if j in Lifted(old(nodes), i) || j == i then 1 else 0)
      ensures Unmoved(old(nodes), nodes)
    {
      ghost var n := nodes;
      Backpropagate(i);
      BackpropSelections(n, i);
      AncestorsBelow(n, i);
      SameShapeKeepsWellFormed(n, nodes, root);
      nodes := Bump(nodes, i);
      SameShapeKeepsWellFormed(Backprop(n, i), nodes, root);
    }

    /**
     * The end of a trajectory at `cur`, the last node of `trail`: expand it
     * unless it is the target, then back-propagate from it and count it,
     * unless it is the root.
     */
    method Settle(cur: nat, sc: Scoring, ghost n0: seq<Node>, ghost trail: seq<nat>) returns (res: Outcome)
      requires Valid() && WellFormed(n0, root) && Counted(n0) && nodes == Bump(n0, root)
      requires Descent(nodes, root, trail) && cur == trail[|trail| - 1]
      requires |nodes[cur].children| == 0 || nodes[cur].location == target
      modifies this
      ensures root == old(root) && |old(nodes)| <= |nodes|
      ensures res.Fail? ==>
        && res.error == ValueError
        && n0[cur].location != target
        && Accepted(grid, n0[cur].location, n0[cur].path, 8) == []
      ensures res.Pass? ==> Valid() && Counted(nodes)
      ensures res.Pass? ==> forall j :: 0 <= j < |n0| ==>
        nodes[j].selections == n0[j].selections + (if j in Elements(trail) then 1 else 0)
      ensures res.Pass? ==> forall j :: |n0| <= j < |nodes| ==> nodes[j].selections == 0
      ensures res.Pass? ==> Unmoved(n0, nodes)
    {
      ghost var n1 := nodes;
      assert n1[cur].location == n0[cur].location && n1[cur].path == n0[cur].path;
      if nodes[cur].location != target {
        res := Expand(cur, sc);
        if res.Fail? {
          return;
        }
      }
      ghost var n2 := nodes;
      TrailCounted(n0, n1, n2, root, trail, cur);
      if cur != root {
        Credit(cur);
      }
      TrailSelections(n0, n1, n2, nodes, root, trail, cur);
      UnmovedTransitive(n0, n1, n2);
      UnmovedTransitive(n0, n2, nodes);
      res := Pass;
    }

    /**
     * One trajectory of `search`: count a visit of the root, descend by UCB
     * to a leaf or to the target, expand the node reached unless it is the
     * target, and back-propagate from it unless it is the root. Every node on
     * the trail counts one more selection; nothing else is counted.
     */
    method Trajectory(c: real, sc: Scoring) returns (res: Outcome, ghost trail: seq<nat>, ghost picks: seq<nat>)
      requires Valid() && Counted(nodes)
      modifies this
      ensures root == old(root) && |old(nodes)| <= |nodes|
      ensures SelectedTrail(Bump(old(nodes), old(root)), root, trail, picks, target, c, sc)
      ensures res.Fail? ==>
        && res.error == ValueError
        && old(nodes)[trail[|trail| - 1]].location != target
        && Accepted(grid, old(nodes)[trail[|trail| - 1]].location, old(nodes)[trail[|trail| - 1]].path, 8) == []
      ensures res.Pass? ==> Valid() && Counted(nodes)
      ensures res.Pass? ==> forall j :: 0 <= j < |old(nodes)| ==>
        nodes[j].selections == old(nodes)[j].selections + (if j in Elements(trail) then 1 else 0)
      ensures res.Pass? ==> forall j :: |old(nodes)| <= j < |nodes| ==> nodes[j].selections == 0
      ensures res.Pass? ==> Unmoved(old(nodes), nodes)
    {
      ghost var n0 := nodes;
      nodes := Bump(nodes, root);
      SameShapeKeepsWellFormed(n0, nodes, root);
      var cur;
      cur, trail, picks := Descend(c, sc);
      res := Settle(cur, sc, n0, trail);
    }

    /**
     * `search`: run `numTrajectories` trajectories (none when it is not
     * positive), then choose the next move among the root's children. A
     * trajectory that cannot expand its leaf raises `ValueError`.
     */
    method Search(numTrajectories: int, c: real, sc: Scoring) returns (res: Result<Option<nat>>)
      requires Valid() && Counted(nodes)
      modifies this
      ensures root == old(root)
      ensures res.Err? ==> res.error == ValueError
      ensures res.Ok? ==> Valid() && Counted(nodes) && Unmoved(old(nodes), nodes)
      ensures res.Ok? ==>
        nodes[root].selections == old(nodes[root].selections) + (if numTrajectories > 0 then numTrajectories else 0)
      ensures res.Ok? ==> InArena(nodes, nodes[root].children) && NextChoice(nodes, root, target, res.value)
    {
      ghost var n0 := nodes;
      var t := 0;
      while t < numTrajectories
        invariant Valid() && Counted(nodes) && root == old(root) && Unmoved(n0, nodes)
        invariant nodes[root].selections == n0[root].selections + (if t > 0 then t else 0)
        invariant t <= numTrajectories || t == 0
        decreases numTrajectories - t
      {
        var outcome, trail, picks := Trajectory(c, sc);
        if outcome.Fail? {
          return Err(outcome.error);
        }
        ElementsMembers(trail);
        assert root in Elements(trail);
        t := t + 1;
      }
      ChildrenInArena(nodes, root);
      var next := ChooseNext();
      res := Ok(next);
    }

    /** The final scan of `search` over the root's children. */
    method ChooseNext() returns (next: Option<nat>)
      requires root < |nodes| && InArena(nodes, nodes[root].children)
      ensures NextChoice(nodes, root, target, next)
    {
      var cs := nodes[root].children;
      var most := 0;
      ghost var b := 0;
      next := None;
      var k := 0;
      while k < |cs|
        invariant 0 <= k <= |cs|
        invariant forall j :: 0 <= j < k ==> nodes[cs[j]].location != target
        invariant next.None? ==> most == 0 && forall j :: 0 <= j < k ==> nodes[cs[j]].selections == 0
        invariant next.Some? ==>
          && b < k && next == Some(cs[b]) && most == nodes[cs[b]].selections && most > 0
          && (forall j :: 0 <= j < b ==> nodes[cs[j]].selections < most)
          && (forall j :: b < j < k ==> nodes[cs[j]].selections <= most)
      {
        if nodes[cs[k]].location == target {
          next := Some(cs[k]);
          return;
        }
        if nodes[cs[k]].selections > most {
          most := nodes[cs[k]].selections;
          next := Some(cs[k]);
          b := k;
        }
        k := k + 1;
      }
      if next.Some? {
        assert FirstMostSelected(Counts(nodes, cs), b);
      }
    }

    /** The loop of `prune` over the root's children: the first position whose key is `key`. */
    method FindChild(key: string) returns (k: nat)
      requires root < |nodes| && InArena(nodes, nodes[root].children)
      ensures k <= |nodes[root].children|
      ensures forall j :: 0 <= j < k ==> Key(nodes[nodes[root].children[j]].location) != key
      ensures k < |nodes[root].children| ==> Key(nodes[nodes[root].children[k]].location) == key
    {
      var cs := nodes[root].children;
      k := 0;
      while k < |cs|
        invariant 0 <= k <= |cs|
        invariant forall j :: 0 <= j < k ==> Key(nodes[cs[j]].location) != key
      {
        var here := Key(nodes[cs[k]].location);
        if here == key {
          return;
        }
        k := k + 1;
      }
    }

    /**
     * `prune` with a key: the first child of the root whose key is `key`
     * (at position `k`) becomes the root and forgets its parent. No such
     * child is a `ValueError`; a child on the target is an `AssertionError`.
     * On failure nothing changes.
     */
    method Prune(key: string) returns (res: Outcome, ghost k: nat)
      requires Valid() && Counted(nodes)
      modifies this
      ensures InArena(old(nodes), old(nodes[root].children)) && k <= |old(nodes[root].children)|
      ensures forall j :: 0 <= j < k ==> Key(old(nodes)[old(nodes[root].children)[j]].location) != key
      ensures k == |old(nodes[root].children)| ==> res == Fail(ValueError)
      ensures k < |old(nodes[root].children)| ==>
        var child := old(nodes[root].children)[k];
        && Key(old(nodes)[child].location) == key
        && if old(nodes)[child].location == target then res == Fail(AssertionError)
           else res == Pass && root == child && nodes == old(nodes)[child := old(nodes)[child].(parent := None)]
      ensures res.Fail? ==> nodes == old(nodes) && root == old(root)
      ensures Valid() && Counted(nodes)
      ensures res.Pass? ==> old(nodes)[old(root)].location !in Traverse(nodes, root)
    {
      ChildrenInArena(nodes, root);
      var pos := FindChild(key);
      k := pos;
      var cs := nodes[root].children;
      if pos == |cs| {
        return Fail(ValueError), k;
      }
      var child := cs[pos];
      if nodes[child].location == target {
        return Fail(AssertionError), k;
      }
      ghost var n0 := nodes;
      ghost var r0 := root;
      assert child in n0[r0].children;
      ReRootForgetsOldRoot(n0, r0, child);
      ReRootWellFormed(n0, r0, child);
      nodes := nodes[child := nodes[child].(parent := None)];
      root := child;
      TraverseIgnoresParents(n0, nodes, child);
      res := Pass;
    }
  }
}
