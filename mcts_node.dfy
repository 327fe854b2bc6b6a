/**
 * The search nodes of the Monte Carlo tree search router (`Node` in
 * Flask/mc_agent.py), as rows of an arena: a node is named by its index, its
 * `parent` and `children` are indices, and a child is always stored after its
 * parent. This module holds the pure definitions the tree's methods are
 * proved against: the expansion filter, the back-propagation update, the
 * pre-order traversal, and the shape invariant of the tree.
 */
module MctsNode {
  import opened Wrappers
  import opened Text
  import LocationKey

  /** A raster cell `(row, column)`. */
  datatype Loc = Loc(y: int, x: int)

  function Add(a: Loc, b: Loc): Loc
  {
    Loc(a.y + b.y, a.x + b.x)
  }

  /** The path-dictionary key `"yyy,xxx"` of a cell. */
  function Key(l: Loc): string
  {
    LocationKey.Encode(l.y, l.x)
  }

  lemma KeyInjective(a: Loc, b: Loc)
    ensures Key(a) == Key(b) <==> a == b
  {
    LocationKey.EncodeInjective(a.y, a.x, b.y, b.x);
  }

  /** The keys of the `path` dict of a node whose path holds the cells `cells`. */
  function Keys(cells: set<Loc>): set<string>
  {
    set l | l in cells :: Key(l)
  }

  /**
   * A node's path is kept as the set of its cells: a key is in the Python
   * dict exactly when its cell is in that set.
   */
  lemma KeysMembership(cells: set<Loc>, l: Loc)
    ensures Key(l) in Keys(cells) <==> l in cells
  {
    if Key(l) in Keys(cells) {
      var m :| m in cells && Key(m) == Key(l);
      KeyInjective(m, l);
    }
  }

  /** `b` is one king move (a step to one of the 8 neighbours) away from `a`. */
  predicate KingMove(a: Loc, b: Loc)
  {
    a != b && -1 <= b.y - a.y <= 1 && -1 <= b.x - a.x <= 1
  }

  /** `action_to_direction`, in its key order 0..7: up, up/right, right, ... up/left. */
  const Directions: seq<Loc> :=
    [Loc(-1, 0), Loc(-1, 1), Loc(0, 1), Loc(1, 1), Loc(1, 0), Loc(1, -1), Loc(0, -1), Loc(-1, -1)]

  /** The direction table holds each of the 8 king moves exactly once. */
  lemma DirectionsAreTheKingMoves(d: Loc)
    ensures KingMove(Loc(0, 0), d) <==> d in Directions
    ensures Distinct(Directions)
  {
  }

  /** The cost surface: a rectangular raster of floating-point values. */
  type Grid = seq<seq<real>>

  /** Surface value of an untraversable cell (`cost_reward == 1` in `expand`). */
  const NO_GO: real := -1.0

  ghost predicate Rectangular(g: Grid)
  {
    |g| > 0 && forall r :: 0 <= r < |g| ==> |g[r]| == |g[0]|
  }

  predicate InBounds(g: Grid, l: Loc)
  {
    0 <= l.y < |g| && 0 <= l.x < |g[l.y]|
  }

  /** All 8 neighbours of an interior cell lie on the raster. */
  predicate Interior(g: Grid, l: Loc)
  {
    1 <= l.y < |g| - 1 && 1 <= l.x < |g[l.y]| - 1
  }

  /**
   * Every traversable cell is interior: the raster is fenced by no-go cells,
   * so `expand` never indexes outside it.
   */
  ghost predicate Fenced(g: Grid)
  {
    && Rectangular(g)
    && forall y, x :: 0 <= y < |g| && 0 <= x < |g[y]| && g[y][x] != NO_GO ==>
         1 <= y < |g| - 1 && 1 <= x < |g[y]| - 1
  }

  lemma NeighbourInBounds(g: Grid, l: Loc, d: Loc)
    requires Rectangular(g) && Interior(g, l) && d in Directions
    ensures InBounds(g, Add(l, d))
  {
    assert |g[l.y + d.y]| == |g[0]| == |g[l.y]|;
  }

  /** The surface value at a cell. */
  function Cost(g: Grid, l: Loc): real
    requires InBounds(g, l)
  {
    g[l.y][l.x]
  }

  /** One row of the arena: the fields of a Python `Node` object. */
  datatype Node = Node(
    location: Loc,
    parent: Option<nat>,
    children: seq<nat>,
    selections: nat,
    reward: real,            // the root's `None` reward is 0.0 here; it is never read
    value: real,
    path: set<Loc>)          // the cells whose keys the `path` dict holds

  /**
   * The first `n` candidate cells of `expand`, in direction order: the
   * neighbours whose key is not in the node's path and whose surface value is
   * not `-1`.
   */
  function Accepted(g: Grid, loc: Loc, path: set<Loc>, n: nat): (r: seq<Loc>)
    requires Rectangular(g) && Interior(g, loc) && n <= |Directions|
    ensures forall c :: c in r ==> InBounds(g, c)
  {
    if n == 0 then []
    else
      var prev := Accepted(g, loc, path, n - 1);
      var c := Add(loc, Directions[n - 1]);
      NeighbourInBounds(g, loc, Directions[n - 1]);
      if c in path || Cost(g, c) == NO_GO then prev else prev + [c]
  }

  /** Every accepted cell is a neighbour off the path with a traversable surface. */
  lemma {:induction false} AcceptedSound(g: Grid, loc: Loc, path: set<Loc>, n: nat)
    requires Rectangular(g) && Interior(g, loc) && n <= |Directions|
    ensures |Accepted(g, loc, path, n)| <= n
    ensures forall c :: c in Accepted(g, loc, path, n) ==>
      (exists k :: 0 <= k < n && c == Add(loc, Directions[k])) &&
      KingMove(loc, c) && c !in path && Cost(g, c) != NO_GO
  {
    if n > 0 {
      AcceptedSound(g, loc, path, n - 1);
      assert KingMove(loc, Add(loc, Directions[n - 1]));
    }
  }

  /** The `n`-th direction's cell is accepted exactly when it is off the path and traversable. */
  lemma {:induction false} AcceptedComplete(g: Grid, loc: Loc, path: set<Loc>, n: nat, k: nat)
    requires Rectangular(g) && Interior(g, loc) && k < n <= |Directions|
    ensures InBounds(g, Add(loc, Directions[k]))
    ensures Add(loc, Directions[k]) in Accepted(g, loc, path, n) <==>
      Add(loc, Directions[k]) !in path && Cost(g, Add(loc, Directions[k])) != NO_GO
  {
    NeighbourInBounds(g, loc, Directions[k]);
    var c := Add(loc, Directions[k]);
    if k < n - 1 {
      AcceptedComplete(g, loc, path, n - 1, k);
      assert c != Add(loc, Directions[n - 1]) by {
        assert Directions[k] != Directions[n - 1];
      }
    } else {
      NotYetAccepted(g, loc, path, n);
    }
  }

  /** The `n`-th direction's cell is not among the first `n - 1` candidates. */
  lemma NotYetAccepted(g: Grid, loc: Loc, path: set<Loc>, n: nat)
    requires Rectangular(g) && Interior(g, loc) && 0 < n <= |Directions|
    ensures Add(loc, Directions[n - 1]) !in Accepted(g, loc, path, n - 1)
  {
    AcceptedSound(g, loc, path, n - 1);
    forall j | 0 <= j < n - 1
      ensures Add(loc, Directions[n - 1]) != Add(loc, Directions[j])
    {
      assert Directions[j] != Directions[n - 1];
    }
  }

  /** `expand` never creates two children on the same cell. */
  lemma {:induction false} AcceptedDistinct(g: Grid, loc: Loc, path: set<Loc>, n: nat)
    requires Rectangular(g) && Interior(g, loc) && n <= |Directions|
    ensures Distinct(Accepted(g, loc, path, n))
  {
    if n > 0 {
      AcceptedDistinct(g, loc, path, n - 1);
      NotYetAccepted(g, loc, path, n);
    }
  }

  /** Squared Euclidean distance; `np.sqrt` of it is a `Scoring` parameter. */
  function Dist2(a: Loc, b: Loc): nat
  {
    (a.y - b.y) * (a.y - b.y) + (a.x - b.x) * (a.x - b.x)
  }

  /**
   * The reward stored on a new child at `c` of a node at `loc`: 100 at the
   * target, otherwise `calculate_eucldian_reward` plus twice the negated cost.
   */
  function ChildReward(g: Grid, loc: Loc, c: Loc, target: Loc, sqrt: nat -> real): (r: real)
    requires InBounds(g, c)
    ensures c == target ==> r == 100.0
    ensures c != target && Cost(g, c) >= 0.0 ==> r <= sqrt(Dist2(loc, target)) - sqrt(Dist2(c, target)) - 1.42
  {
    if c == target then 100.0
    else (sqrt(Dist2(loc, target)) - sqrt(Dist2(c, target)) - 1.42) + (-Cost(g, c)) * 2.0
  }

  function Sum(xs: seq<real>): real
  {
    if xs == [] then 0.0 else Sum(xs[..|xs| - 1]) + xs[|xs| - 1]
  }

  /** `np.mean` of a non-empty list. */
  function Mean(xs: seq<real>): real
    requires |xs| > 0
  {
    Sum(xs) / (|xs| as real)
  }

  /** The indices `lo, lo+1, ..., hi-1`. */
  function Range(lo: nat, hi: nat): (r: seq<nat>)
    requires lo <= hi
    ensures |r| == hi - lo && forall k :: 0 <= k < |r| ==> r[k] == lo + k
  {
    seq(hi - lo, k requires 0 <= k < hi - lo => lo + k)
  }

  /** The new child row for cell `c` under node `i`. */
  function NewChild(nodes: seq<Node>, i: nat, g: Grid, target: Loc, sqrt: nat -> real, c: Loc): Node
    requires i < |nodes| && InBounds(g, c)
  {
    Node(c, Some(i), [], 0, ChildReward(g, nodes[i].location, c, target, sqrt), 0.0,
         nodes[i].path + {c})
  }

  /** The parent/children index discipline of the arena. */
  ghost predicate Ordered(nodes: seq<Node>)
  {
    && (forall i :: 0 <= i < |nodes| && nodes[i].parent.Some? ==> nodes[i].parent.value < i)
    && (forall i, c :: 0 <= i < |nodes| && c in nodes[i].children ==> i < c < |nodes|)
  }

  /** What `expand` keeps between a node `i` and each of its children `c`. */
  ghost predicate ChildLinked(nodes: seq<Node>, i: nat, c: nat)
    requires i < |nodes| && c < |nodes|
  {
    && (nodes[c].parent == Some(i) || nodes[c].parent == None)
    && KingMove(nodes[i].location, nodes[c].location)
    && nodes[c].location !in nodes[i].path
    && nodes[c].path == nodes[i].path + {nodes[c].location}
  }

  /**
   * The tree invariant. The current root has no parent, and every other
   * parentless row is an abandoned former root stored before it. Each node's
   * path holds its own key, and each child extends its parent's path with a
   * key that was not yet in it.
   */
  ghost predicate WellFormed(nodes: seq<Node>, root: nat)
  {
    && Ordered(nodes)
    && root < |nodes|
    && nodes[root].parent == None
    && (forall i :: 0 <= i < |nodes| && nodes[i].parent.None? ==> i <= root)
    && (forall i :: 0 <= i < |nodes| ==> nodes[i].location in nodes[i].path)
    && (forall i, c :: 0 <= i < |nodes| && c in nodes[i].children ==> ChildLinked(nodes, i, c))
  }

  /** Every node that has children has been selected at least once. */
  ghost predicate Counted(nodes: seq<Node>)
  {
    forall i :: 0 <= i < |nodes| && |nodes[i].children| > 0 ==> nodes[i].selections > 0
  }

  /** Two arenas that differ at most in the `selections` and `value` counters. */
  ghost predicate SameShape(a: seq<Node>, b: seq<Node>)
  {
    && |a| == |b|
    && forall j :: 0 <= j < |a| ==>
         a[j].location == b[j].location && a[j].parent == b[j].parent &&
         a[j].children == b[j].children && a[j].reward == b[j].reward && a[j].path == b[j].path
  }

  lemma SameShapeKeepsWellFormed(a: seq<Node>, b: seq<Node>, root: nat)
    requires SameShape(a, b) && WellFormed(a, root)
    ensures WellFormed(b, root)
  {
    assert forall i, c :: 0 <= i < |b| && c in b[i].children ==> c in a[i].children;
  }

  /** The child rows `expand` appends, one per accepted cell. */
  function Kids(nodes: seq<Node>, i: nat, g: Grid, target: Loc, sqrt: nat -> real, acc: seq<Loc>): (r: seq<Node>)
    requires i < |nodes| && forall c :: c in acc ==> InBounds(g, c)
    ensures |r| == |acc|
    ensures forall k :: 0 <= k < |acc| ==> r[k] == NewChild(nodes, i, g, target, sqrt, acc[k])
  {
    seq(|acc|, k requires 0 <= k < |acc| => NewChild(nodes, i, g, target, sqrt, acc[k]))
  }

  function Rewards(kids: seq<Node>): (r: seq<real>)
    ensures |r| == |kids| && forall k :: 0 <= k < |kids| ==> r[k] == kids[k].reward
  {
    seq(|kids|, k requires 0 <= k < |kids| => kids[k].reward)
  }

  /**
   * The arena after `expand` of node `i` accepts the cells `acc`: the new
   * children are appended, and the node's value becomes their mean reward.
   */
  function Expanded(nodes: seq<Node>, i: nat, g: Grid, target: Loc, sqrt: nat -> real, acc: seq<Loc>): (r: seq<Node>)
    requires i < |nodes| && |acc| > 0 && forall c :: c in acc ==> InBounds(g, c)
    ensures |r| == |nodes| + |acc|
    ensures forall j :: 0 <= j < |nodes| && j != i ==> r[j] == nodes[j]
    ensures r[i] == nodes[i].(children := nodes[i].children + Range(|nodes|, |nodes| + |acc|),
                              value := Mean(Rewards(r[|nodes|..])))
    ensures r[|nodes|..] == Kids(nodes, i, g, target, sqrt, acc)
    ensures forall j :: |nodes| <= j < |r| ==> r[j] == NewChild(nodes, i, g, target, sqrt, acc[j - |nodes|])
  {
    var kids := Kids(nodes, i, g, target, sqrt, acc);
    var n := |nodes|;
    var r := nodes[i := nodes[i].(children := nodes[i].children + Range(n, n + |acc|), value := Mean(Rewards(kids)))] + kids;
    assert r[n..] == kids;
    r
  }

  /** Expansion keeps the tree invariant: no new child repeats a cell of its path. */
  lemma ExpandedWellFormed(nodes: seq<Node>, root: nat, i: nat, g: Grid, target: Loc, sqrt: nat -> real)
    requires WellFormed(nodes, root) && i < |nodes| && Rectangular(g) && Interior(g, nodes[i].location)
    requires |Accepted(g, nodes[i].location, nodes[i].path, 8)| > 0
    ensures WellFormed(Expanded(nodes, i, g, target, sqrt, Accepted(g, nodes[i].location, nodes[i].path, 8)), root)
  {
    var acc := Accepted(g, nodes[i].location, nodes[i].path, 8);
    AcceptedSound(g, nodes[i].location, nodes[i].path, 8);
    var e := Expanded(nodes, i, g, target, sqrt, acc);
    var n := |nodes|;
    forall j, c | 0 <= j < |e| && c in e[j].children
      ensures j < c < |e| && ChildLinked(e, j, c)
    {
      if j == i && c !in nodes[i].children {
        assert e[c].location == acc[c - n] && acc[c - n] in acc;
      }
    }
  }

  /**
   * What an expansion appends: at most 8 children of node `i`, each a king
   * move onto a traversable cell off the node's path, each extending that
   * path by its own cell, and a child on the target rewarded 100.
   */
  lemma ExpandedChildren(nodes: seq<Node>, i: nat, g: Grid, target: Loc, sqrt: nat -> real)
    requires i < |nodes| && Rectangular(g) && Interior(g, nodes[i].location)
    requires |Accepted(g, nodes[i].location, nodes[i].path, 8)| > 0
    ensures var e := Expanded(nodes, i, g, target, sqrt, Accepted(g, nodes[i].location, nodes[i].path, 8));
      && |nodes| < |e| <= |nodes| + 8
      && forall j :: |nodes| <= j < |e| ==>
        && e[j].parent == Some(i) && e[j].children == [] && e[j].selections == 0
        && KingMove(nodes[i].location, e[j].location)
        && e[j].location !in nodes[i].path && Cost(g, e[j].location) != NO_GO
        && e[j].path == nodes[i].path + {e[j].location}
        && (e[j].location == target ==> e[j].reward == 100.0)
  {
    var acc := Accepted(g, nodes[i].location, nodes[i].path, 8);
    AcceptedSound(g, nodes[i].location, nodes[i].path, 8);
  }

  /** The discount `backpropagate` applies to a child's value. */
  const DISCOUNT: real := 0.98

  /** Every strict ancestor of `i` has been selected at least once. */
  ghost predicate AncestorsCounted(nodes: seq<Node>, i: nat)
    requires Ordered(nodes) && i < |nodes|
    decreases i
  {
    match nodes[i].parent
    case None => true
    case Some(p) => nodes[p].selections > 0 && AncestorsCounted(nodes, p)
  }

  /** The strict ancestors of `i`: the nodes whose `value` backpropagation updates. */
  ghost function Ancestors(nodes: seq<Node>, i: nat): set<nat>
    requires Ordered(nodes) && i < |nodes|
    decreases i
  {
    match nodes[i].parent
    case None => {}
    case Some(p) => {p} + Ancestors(nodes, p)
  }

  /** The strict ancestors of `i` that have a parent: the nodes whose `selections` it bumps. */
  ghost function Lifted(nodes: seq<Node>, i: nat): set<nat>
    requires Ordered(nodes) && i < |nodes|
    decreases i
  {
    match nodes[i].parent
    case None => {}
    case Some(p) => if nodes[p].parent.None? then {} else {p} + Lifted(nodes, p)
  }

  lemma {:induction false} AncestorsBelow(nodes: seq<Node>, i: nat)
    requires Ordered(nodes) && i < |nodes|
    ensures forall j :: j in Ancestors(nodes, i) ==> j < i
    ensures Lifted(nodes, i) <= Ancestors(nodes, i)
    decreases i
  {
    if nodes[i].parent.Some? {
      AncestorsBelow(nodes, nodes[i].parent.value);
    }
  }

  /** Ancestry reads only the `parent` links, so it survives a counter update. */
  lemma {:induction false} SameShapeKeepsAncestry(a: seq<Node>, b: seq<Node>, i: nat)
    requires Ordered(a) && SameShape(a, b) && i < |a|
    ensures Ordered(b)
    ensures Ancestors(a, i) == Ancestors(b, i) && Lifted(a, i) == Lifted(b, i)
    ensures (forall j :: 0 <= j < |a| ==> a[j].selections == b[j].selections) ==>
              AncestorsCounted(a, i) == AncestorsCounted(b, i)
    decreases i
  {
    assert forall j, c :: 0 <= j < |b| && c in b[j].children ==> c in a[j].children;
    if a[i].parent.Some? {
      SameShapeKeepsAncestry(a, b, a[i].parent.value);
    }
  }

  /** Ancestry of `i` reads only the `parent` links of the rows up to `i`. */
  lemma {:induction false} ParentsAgree(a: seq<Node>, b: seq<Node>, i: nat)
    requires Ordered(a) && Ordered(b) && i < |a| <= |b|
    requires forall j :: 0 <= j <= i ==> a[j].parent == b[j].parent
    ensures Ancestors(a, i) == Ancestors(b, i) && Lifted(a, i) == Lifted(b, i)
    decreases i
  {
    if a[i].parent.Some? {
      ParentsAgree(a, b, a[i].parent.value);
    }
  }

  /**
   * One step of `i.backpropagate()`: the parent's value moves towards the
   * discounted value of `i` by the step `1/selections`.
   */
  function Pulled(nodes: seq<Node>, i: nat): (r: seq<Node>)
    requires i < |nodes| && nodes[i].parent.Some? && nodes[i].parent.value < |nodes|
    requires nodes[nodes[i].parent.value].selections > 0
    ensures SameShape(nodes, r)
    ensures forall j :: 0 <= j < |nodes| ==> r[j].selections == nodes[j].selections
    ensures forall j :: 0 <= j < |nodes| && j != nodes[i].parent.value ==> r[j] == nodes[j]
  {
    var p := nodes[i].parent.value;
    var step := (nodes[i].value * DISCOUNT - nodes[p].value) / (nodes[p].selections as real);
    nodes[p := nodes[p].(value := nodes[p].value + step)]
  }

  /**
   * The arena after `i.backpropagate()`: after the step above, when the
   * parent is not the root it back-propagates in turn and only then counts
   * one more selection.
   */
  ghost function Backprop(nodes: seq<Node>, i: nat): (r: seq<Node>)
    requires Ordered(nodes) && i < |nodes| && nodes[i].parent.Some? && AncestorsCounted(nodes, i)
    ensures SameShape(nodes, r)
    decreases i
  {
    var p := nodes[i].parent.value;
    var n1 := Pulled(nodes, i);
    if nodes[p].parent.None? then n1
    else
      SameShapeKeepsAncestry(nodes, n1, p);
      var n2 := Backprop(n1, p);
      n2[p := n2[p].(selections := n2[p].selections + 1)]
  }

  /** Backpropagation bumps `selections` by one on exactly the lifted ancestors. */
  lemma {:induction false} BackpropSelections(nodes: seq<Node>, i: nat)
    requires Ordered(nodes) && i < |nodes| && nodes[i].parent.Some? && AncestorsCounted(nodes, i)
    ensures forall j :: 0 <= j < |nodes| ==>
      Backprop(nodes, i)[j].selections == nodes[j].selections + (if j in Lifted(nodes, i) then 1 else 0)
    decreases i
  {
    var p := nodes[i].parent.value;
    var n1 := Pulled(nodes, i);
    if nodes[p].parent.Some? {
      SameShapeKeepsAncestry(nodes, n1, p);
      BackpropSelections(n1, p);
      AncestorsBelow(n1, p);
    }
  }

  /** Backpropagation changes no node other than the strict ancestors. */
  lemma {:induction false} BackpropFrame(nodes: seq<Node>, i: nat)
    requires Ordered(nodes) && i < |nodes| && nodes[i].parent.Some? && AncestorsCounted(nodes, i)
    ensures forall j :: 0 <= j < |nodes| && j !in Ancestors(nodes, i) ==> Backprop(nodes, i)[j] == nodes[j]
    decreases i
  {
    var p := nodes[i].parent.value;
    var n1 := Pulled(nodes, i);
    if nodes[p].parent.Some? {
      SameShapeKeepsAncestry(nodes, n1, p);
      BackpropFrame(n1, p);
    }
  }

  /** A walk from `root` down `children` links. */
  ghost predicate Descent(nodes: seq<Node>, root: nat, trail: seq<nat>)
  {
    && |trail| >= 1 && trail[0] == root
    && (forall k :: 0 <= k < |trail| ==> trail[k] < |nodes|)
    && (forall k :: 0 < k < |trail| ==> trail[k] in nodes[trail[k - 1]].children)
  }

  lemma DescentPrefix(nodes: seq<Node>, root: nat, trail: seq<nat>, m: nat)
    requires Descent(nodes, root, trail) && 1 <= m <= |trail|
    ensures Descent(nodes, root, trail[..m])
  {
    var t := trail[..m];
    forall k | 0 < k < |t|
      ensures t[k] in nodes[t[k - 1]].children
    {
      assert t[k] == trail[k] && t[k - 1] == trail[k - 1];
    }
  }

  /** The indices on a trail, as a set. */
  ghost function Elements(trail: seq<nat>): set<nat>
  {
    if trail == [] then {} else Elements(trail[..|trail| - 1]) + {trail[|trail| - 1]}
  }

  lemma {:induction false} ElementsMembers(trail: seq<nat>)
    ensures forall j :: j in Elements(trail) <==> j in trail
  {
    if trail != [] {
      var t := trail[..|trail| - 1];
      ElementsMembers(t);
      assert trail == t + [trail[|trail| - 1]];
    }
  }

  /** The cells visited along a trail. */
  ghost function Cells(nodes: seq<Node>, trail: seq<nat>): set<Loc>
    requires forall k :: 0 <= k < |trail| ==> trail[k] < |nodes|
  {
    if trail == [] then {} else Cells(nodes, trail[..|trail| - 1]) + {nodes[trail[|trail| - 1]].location}
  }

  /** Below the root, the `parent` link of a child points back at its parent. */
  lemma ChildOfReachable(nodes: seq<Node>, root: nat, i: nat, c: nat)
    requires WellFormed(nodes, root) && root <= i < |nodes| && c in nodes[i].children
    ensures i < c < |nodes| && ChildLinked(nodes, i, c) && nodes[c].parent == Some(i)
  {
    assert ChildLinked(nodes, i, c);
  }

  /** A descent from the root follows `parent` links backwards and never climbs above the root. */
  lemma {:induction false} DescentLinks(nodes: seq<Node>, root: nat, trail: seq<nat>)
    requires WellFormed(nodes, root) && Descent(nodes, root, trail)
    ensures forall k :: 0 < k < |trail| ==> trail[k - 1] < trail[k] && nodes[trail[k]].parent == Some(trail[k - 1])
    ensures forall k :: 0 <= k < |trail| ==> root <= trail[k]
  {
    var m := |trail| - 1;
    if m > 0 {
      var t := trail[..m];
      DescentPrefix(nodes, root, trail, m);
      DescentLinks(nodes, root, t);
      assert forall k :: 0 <= k < m ==> t[k] == trail[k];
      ChildOfReachable(nodes, root, trail[m - 1], trail[m]);
    }
  }

  /**
   * The ancestors of the last node of a descent are exactly the trail before
   * it; its lifted ancestors are those other than the root.
   */
  lemma {:induction false} DescentAncestry(nodes: seq<Node>, root: nat, trail: seq<nat>)
    requires WellFormed(nodes, root) && Descent(nodes, root, trail)
    ensures Ancestors(nodes, trail[|trail| - 1]) == Elements(trail[..|trail| - 1])
    ensures Lifted(nodes, trail[|trail| - 1]) == Elements(trail[..|trail| - 1]) - {root}
  {
    var m := |trail| - 1;
    DescentLinks(nodes, root, trail);
    if m > 0 {
      var t := trail[..m];
      DescentPrefix(nodes, root, trail, m);
      DescentAncestry(nodes, root, t);
      var i := trail[m - 1];
      assert i == t[|t| - 1];
      assert nodes[trail[m]].parent == Some(i);
      assert trail[..m][..m - 1] == t[..m - 1];
      if m == 1 {
        assert nodes[i].parent == None;
      }
    }
  }

  lemma {:induction false} CellsMembers(nodes: seq<Node>, trail: seq<nat>)
    requires forall k :: 0 <= k < |trail| ==> trail[k] < |nodes|
    ensures forall l :: l in Cells(nodes, trail) <==> exists k :: 0 <= k < |trail| && nodes[trail[k]].location == l
  {
    if trail != [] {
      var t := trail[..|trail| - 1];
      CellsMembers(nodes, t);
      assert forall k :: 0 <= k < |t| ==> t[k] == trail[k];
    }
  }

  /** The path of a node below the root is the root's path plus the cells of the descent to it. */
  lemma {:induction false} DescentCells(nodes: seq<Node>, root: nat, trail: seq<nat>)
    requires WellFormed(nodes, root) && Descent(nodes, root, trail)
    ensures nodes[trail[|trail| - 1]].path == nodes[root].path + Cells(nodes, trail)
  {
    var m := |trail| - 1;
    if m == 0 {
      assert Cells(nodes, trail) == {nodes[root].location} by {
        assert trail[..0] == [];
      }
    } else {
      var t := trail[..m];
      DescentPrefix(nodes, root, trail, m);
      DescentCells(nodes, root, t);
      DescentLinks(nodes, root, t);
      assert trail[m - 1] == t[|t| - 1];
      ChildOfReachable(nodes, root, trail[m - 1], trail[m]);
    }
  }

  /**
   * No cell of a descent below its start is on the root's path, and no cell
   * repeats along it: the search never routes through a cell twice.
   */
  lemma {:induction false} DescentPath(nodes: seq<Node>, root: nat, trail: seq<nat>)
    requires WellFormed(nodes, root) && Descent(nodes, root, trail)
    ensures forall k :: 0 < k < |trail| ==> nodes[trail[k]].location !in nodes[root].path
    ensures forall a, b :: 0 <= a < b < |trail| ==> nodes[trail[a]].location != nodes[trail[b]].location
  {
    var m := |trail| - 1;
    if m > 0 {
      var t := trail[..m];
      DescentPrefix(nodes, root, trail, m);
      DescentPath(nodes, root, t);
      DescentCells(nodes, root, t);
      DescentLinks(nodes, root, t);
      var c := trail[m];
      var i := trail[m - 1];
      assert i == t[|t| - 1];
      ChildOfReachable(nodes, root, i, c);
      CellsMembers(nodes, t);
      assert nodes[c].location !in nodes[root].path + Cells(nodes, t);
      forall a | 0 <= a < m
        ensures nodes[trail[a]].location != nodes[c].location
      {
        assert t[a] == trail[a];
      }
      assert forall a, b :: 0 <= a < b < m ==> t[a] == trail[a] && t[b] == trail[b];
    }
  }

  /** `traverse`: the locations of the subtree at `i` in pre-order. */
  function Traverse(nodes: seq<Node>, i: nat): (r: seq<Loc>)
    requires Ordered(nodes) && i < |nodes|
    ensures |r| > 0 && r[0] == nodes[i].location
    decreases |nodes| - i, 1, 0
  {
    [nodes[i].location] + TraverseChildren(nodes, i, 0)
  }

  function TraverseChildren(nodes: seq<Node>, i: nat, k: nat): seq<Loc>
    requires Ordered(nodes) && i < |nodes| && k <= |nodes[i].children|
    decreases |nodes| - i, 0, |nodes[i].children| - k
  {
    if k == |nodes[i].children| then []
    else
      var c := nodes[i].children[k];
      assert c in nodes[i].children;
      Traverse(nodes, c) + TraverseChildren(nodes, i, k + 1)
  }

  /**
   * Re-rooting at a child of the root, which forgets its parent, keeps the
   * tree invariant.
   */
  lemma ReRootWellFormed(nodes: seq<Node>, root: nat, c: nat)
    requires WellFormed(nodes, root) && c in nodes[root].children
    ensures WellFormed(nodes[c := nodes[c].(parent := None)], c)
  {
    var e := nodes[c := nodes[c].(parent := None)];
    assert ChildLinked(nodes, root, c);
    assert forall i, d :: 0 <= i < |e| && d in e[i].children ==> d in nodes[i].children;
    forall i, d | 0 <= i < |e| && d in e[i].children
      ensures ChildLinked(e, i, d)
    {
      assert ChildLinked(nodes, i, d);
    }
  }

  /** The traversal reads only locations and children links. */
  lemma {:induction false} TraverseIgnoresParents(a: seq<Node>, b: seq<Node>, i: nat)
    requires Ordered(a) && Ordered(b) && |a| == |b| && i < |a|
    requires forall j :: 0 <= j < |a| ==> a[j].location == b[j].location && a[j].children == b[j].children
    ensures Traverse(a, i) == Traverse(b, i)
    decreases |a| - i, 1, 0
  {
    TraverseChildrenIgnoreParents(a, b, i, 0);
  }

  lemma {:induction false} TraverseChildrenIgnoreParents(a: seq<Node>, b: seq<Node>, i: nat, k: nat)
    requires Ordered(a) && Ordered(b) && |a| == |b| && i < |a| && k <= |a[i].children|
    requires forall j :: 0 <= j < |a| ==> a[j].location == b[j].location && a[j].children == b[j].children
    ensures TraverseChildren(a, i, k) == TraverseChildren(b, i, k)
    decreases |a| - i, 0, |a[i].children| - k
  {
    if k < |a[i].children| {
      assert a[i].children[k] in a[i].children;
      TraverseIgnoresParents(a, b, a[i].children[k]);
      TraverseChildrenIgnoreParents(a, b, i, k + 1);
    }
  }

  /** Every location below `i` is off the path of `i`. */
  lemma {:induction false} TraverseOffPath(nodes: seq<Node>, root: nat, i: nat)
    requires WellFormed(nodes, root) && i < |nodes|
    ensures Traverse(nodes, i)[0] == nodes[i].location
    ensures forall l :: l in Traverse(nodes, i)[1..] ==> l !in nodes[i].path
    decreases |nodes| - i, 1, 0
  {
    TraverseChildrenOffPath(nodes, root, i, 0);
    assert Traverse(nodes, i)[1..] == TraverseChildren(nodes, i, 0);
  }

  lemma {:induction false} TraverseChildrenOffPath(nodes: seq<Node>, root: nat, i: nat, k: nat)
    requires WellFormed(nodes, root) && i < |nodes| && k <= |nodes[i].children|
    ensures forall l :: l in TraverseChildren(nodes, i, k) ==> l !in nodes[i].path
    decreases |nodes| - i, 0, |nodes[i].children| - k
  {
    if k < |nodes[i].children| {
      var c := nodes[i].children[k];
      assert c in nodes[i].children;
      assert ChildLinked(nodes, i, c);
      TraverseOffPath(nodes, root, c);
      TraverseChildrenOffPath(nodes, root, i, k + 1);
      var sub := Traverse(nodes, c);
      assert sub == [sub[0]] + sub[1..];
    }
  }

  /**
   * Once a child `c` of the root becomes the root, the old root's cell is no
   * longer in the traversal.
   */
  lemma ReRootForgetsOldRoot(nodes: seq<Node>, root: nat, c: nat)
    requires WellFormed(nodes, root) && c in nodes[root].children
    ensures nodes[root].location !in Traverse(nodes, c)
  {
    assert ChildLinked(nodes, root, c);
    TraverseOffPath(nodes, root, c);
    var t := Traverse(nodes, c);
    assert t == [t[0]] + t[1..];
  }
}
