/**
 * `MCAgent` from Flask/mc_agent.py: a forest of independent search trees,
 * one per worker, each with its own exploration constant. At every step all
 * trees search, each votes for its next cell, the cell with the most votes
 * (the first one seen among ties) is appended to the route, and every tree
 * is pruned to that cell.
 */
module MctsAgent {
  import opened Wrappers
  import opened Text
  import LocationKey
  import opened MctsNode
  import opened MctsTree

  /** How many times `x` occurs in `xs`. */
  function Count<T(==)>(xs: seq<T>, x: T): nat
  {
    if xs == [] then 0 else Count(xs[..|xs| - 1], x) + (if xs[|xs| - 1] == x then 1 else 0)
  }

  lemma {:induction false} CountAbsent<T>(xs: seq<T>, x: T)
    requires x !in xs
    ensures Count(xs, x) == 0
  {
    if xs != [] {
      assert xs == xs[..|xs| - 1] + [xs[|xs| - 1]];
      CountAbsent(xs[..|xs| - 1], x);
    }
  }

  lemma {:induction false} CountPresent<T>(xs: seq<T>, x: T)
    requires x in xs
    ensures Count(xs, x) > 0
  {
    var init := xs[..|xs| - 1];
    assert xs == init + [xs[|xs| - 1]];
    if xs[|xs| - 1] != x {
      CountPresent(init, x);
    }
  }

  /**
   * The `votes` dict after the ballot loop, in insertion order: the distinct
   * keys in first-seen order, and how often each was voted for.
   */
  method CountVotes(keys: seq<string>) returns (order: seq<string>, counts: seq<nat>)
    ensures order == Dedup(keys) && |counts| == |order|
    ensures forall j :: 0 <= j < |order| ==> counts[j] == Count(keys, order[j])
  {
    order := [];
    counts := [];
    for i := 0 to |keys|
      invariant order == Dedup(keys[..i]) && |counts| == |order|
      invariant forall j :: 0 <= j < |order| ==> counts[j] == Count(keys[..i], order[j])
    {
      var key := keys[i];
      assert keys[..i + 1] == keys[..i] + [key];
      assert keys[..i + 1][..i] == keys[..i];
      DedupProperties(keys[..i]);
      if key in order {
        var j := IndexOf(order, key);
        counts := counts[j := counts[j] + 1];
      } else {
        CountAbsent(keys[..i], key);
        order := order + [key];
        counts := counts + [1];
      }
    }
    assert keys[..|keys|] == keys;
  }

  /** `max(votes, key=votes.get)`: the first of the largest counts; an empty dict is a `ValueError`. */
  method FirstMax(counts: seq<nat>) returns (r: Result<nat>)
    ensures |counts| == 0 <==> r == Err(ValueError)
    ensures r.Err? <==> |counts| == 0
    ensures r.Ok? ==> FirstLargest(counts, r.value)
  {
    if |counts| == 0 {
      return Err(ValueError);
    }
    var best := 0;
    for k := 1 to |counts|
      invariant best < k
      invariant forall j :: 0 <= j < best ==> counts[j] < counts[best]
      invariant forall j :: best < j < k ==> counts[j] <= counts[best]
    {
      if counts[k] > counts[best] {
        best := k;
      }
    }
    r := Ok(best);
  }

  /**
   * `w` wins the ballot `xs`: it has the most votes, and among the cells tied
   * with it, it was voted for first.
   */
  ghost predicate Winner<T>(xs: seq<T>, w: T)
  {
    && w in xs
    && (forall x :: x in xs ==> Count(xs, x) <= Count(xs, w))
    && (forall x :: x in xs && Count(xs, x) == Count(xs, w) ==> IndexOf(xs, w) <= IndexOf(xs, x))
  }

  /** The first largest entry of the tally is the winner of the ballot. */
  lemma TallyWinner(keys: seq<string>, order: seq<string>, counts: seq<nat>, w: nat)
    requires order == Dedup(keys) && |counts| == |order|
    requires forall j :: 0 <= j < |order| ==> counts[j] == Count(keys, order[j])
    requires FirstLargest(counts, w)
    ensures Winner(keys, order[w])
  {
    DedupProperties(keys);
    forall x | x in keys
      ensures Count(keys, x) <= Count(keys, order[w])
      ensures Count(keys, x) == Count(keys, order[w]) ==> IndexOf(keys, order[w]) <= IndexOf(keys, x)
    {
      var j := IndexOf(order, x);
      if j < w {
        assert counts[j] < counts[w];
      } else if j > w {
        DedupFirstSeenOrder(keys, w, j);
      }
    }
  }

  /** `[f(x) for x in xs]`. */
  function Map<A, B>(f: A -> B, xs: seq<A>): (r: seq<B>)
    ensures |r| == |xs| && forall k :: 0 <= k < |xs| ==> r[k] == f(xs[k])
  {
    seq(|xs|, k requires 0 <= k < |xs| => f(xs[k]))
  }

  ghost predicate Injective<A(!new), B>(f: A -> B)
  {
    forall a, b :: f(a) == f(b) ==> a == b
  }

  /** Under an injective map, counts, membership and first positions carry over. */
  lemma {:induction false} MapCount<A(!new), B>(f: A -> B, xs: seq<A>, l: A)
    requires Injective(f)
    ensures Count(Map(f, xs), f(l)) == Count(xs, l)
    ensures l in xs <==> f(l) in Map(f, xs)
    ensures l in xs ==> IndexOf(Map(f, xs), f(l)) == IndexOf(xs, l)
  {
    if xs != [] {
      var init := xs[..|xs| - 1];
      var last := xs[|xs| - 1];
      MapCount(f, init, l);
      assert Map(f, xs) == Map(f, init) + [f(last)];
      assert Map(f, xs)[..|xs| - 1] == Map(f, init);
      assert xs == init + [last];
      if l in init {
        IndexOfPrefix(init, last, l);
        IndexOfPrefix(Map(f, init), f(last), f(l));
      } else if l == last {
        var k := IndexOf(xs, l);
        assert k == |init|;
      }
    }
  }

  /** The winning image of an injective map is the image of the winner. */
  lemma MapWinner<A(!new), B>(f: A -> B, xs: seq<A>, w: A)
    requires Injective(f) && Winner(Map(f, xs), f(w))
    ensures Winner(xs, w)
  {
    MapCount(f, xs, w);
    forall x | x in xs
      ensures Count(xs, x) <= Count(xs, w)
      ensures Count(xs, x) == Count(xs, w) ==> IndexOf(xs, w) <= IndexOf(xs, x)
    {
      MapCount(f, xs, x);
    }
  }

  lemma KeyIsInjective()
    ensures Injective(Key)
  {
    forall a: Loc, b: Loc | Key(a) == Key(b)
      ensures a == b
    {
      KeyInjective(a, b);
    }
  }

  /** `np.sqrt(2)`, the exploration constant of a single worker, as a double. */
  const SQRT2: real := 1.4142135623730951

  /** `np.linspace(lo, hi, n)` for `n >= 2`, in exact arithmetic: `n` evenly spaced values from `lo` to `hi`. */
  function Linspace(lo: real, hi: real, n: nat): (r: seq<real>)
    requires n >= 2
    ensures |r| == n && r[0] == lo && r[n - 1] == hi
    ensures forall k :: 0 <= k < n - 1 ==> r[k + 1] - r[k] == (hi - lo) / ((n - 1) as real)
  {
    var step := (hi - lo) / ((n - 1) as real);
    assert ((n - 1) as real) * step == hi - lo;
    seq(n, k requires 0 <= k < n => lo + (k as real) * step)
  }

  /** The exploration constants of `n` workers: `linspace(0, 5, n)` when `n > 1`, else `[sqrt(2)]`. */
  function Constants(n: int): seq<real>
  {
    if n > 1 then Linspace(0.0, 5.0, n) else [SQRT2]
  }

  /** Every worker gets its own constant; several workers spread theirs from 0 to 5. */
  lemma ConstantsCover(n: int)
    ensures |Constants(n)| >= n && |Constants(n)| >= 1
    ensures n > 1 ==> |Constants(n)| == n && Constants(n)[0] == 0.0 && Constants(n)[n - 1] == 5.0
    ensures n <= 1 ==> Constants(n) == [SQRT2]
  {
  }

  /** The fields of an `MCAgent`. */
  datatype Agent = Agent(numWorkers: int, trajectories: int, c: seq<real>)

  /**
   * `MCAgent.__init__` as written: the default `num_workers=None` is replaced
   * by half the processor count in `self.num_workers`, but the test that
   * follows reads the argument, and `None > 1` raises `TypeError`.
   */
  function NewAgentAsWritten(trajectories: int, numWorkers: Option<int>, cpuCount: nat): (r: Result<Agent>)
    ensures numWorkers.None? <==> r == Err(TypeError)
    ensures numWorkers.Some? ==> r.Ok? && r.value.numWorkers == numWorkers.value && r.value.c == Constants(numWorkers.value)
  {
    var workers := if numWorkers.None? then cpuCount / 2 else numWorkers.value;
    match numWorkers
    case None => Err(TypeError)
    case Some(n) => Ok(Agent(workers, trajectories, Constants(n)))
  }

  /** The default worker count is unusable as written: the constructor always fails without one. */
  lemma DefaultWorkersFail(trajectories: int, cpuCount: nat)
    ensures NewAgentAsWritten(trajectories, None, cpuCount) == Err(TypeError)
  {
  }

  /** `MCAgent.__init__` as intended: the constants are chosen by `self.num_workers`. */
  function NewAgent(trajectories: int, numWorkers: Option<int>, cpuCount: nat): (a: Agent)
    ensures a.numWorkers == (if numWorkers.None? then cpuCount / 2 else numWorkers.value)
    ensures a.trajectories == trajectories && a.c == Constants(a.numWorkers)
  {
    var workers := if numWorkers.None? then cpuCount / 2 else numWorkers.value;
    Agent(workers, trajectories, Constants(workers))
  }

  /**
   * The corrected constructor agrees with the original whenever a worker
   * count is given, and without one it uses half the processors with one
   * constant per worker.
   */
  lemma NewAgentCorrected(trajectories: int, numWorkers: Option<int>, cpuCount: nat)
    ensures numWorkers.Some? ==> NewAgentAsWritten(trajectories, numWorkers, cpuCount) == Ok(NewAgent(trajectories, numWorkers, cpuCount))
    ensures var a := NewAgent(trajectories, numWorkers, cpuCount);
      |a.c| >= a.numWorkers && |a.c| >= 1
  {
    ConstantsCover(NewAgent(trajectories, numWorkers, cpuCount).numWorkers);
  }

  /** Two workers get exactly two exploration constants, 0 and 5. */
  lemma TwoWorkers(trajectories: int, cpuCount: nat)
    ensures NewAgent(trajectories, Some(2), cpuCount).c == [0.0, 5.0]
  {
    var c := NewAgent(trajectories, Some(2), cpuCount).c;
    ConstantsCover(2);
    assert |c| == 2 && c[0] == 0.0 && c[1] == 5.0;
  }

  /** One step of a route: a king move onto a cell that is on the raster and not no-go. */
  predicate Step(grid: Grid, a: Loc, b: Loc)
  {
    KingMove(a, b) && InBounds(grid, b) && Cost(grid, b) != NO_GO
  }

  /** A tree of the forest, rooted at the end of `path` and remembering exactly the cells of `path`. */
  ghost predicate TreeOk(t: MCTree, grid: Grid, target: Loc, path: seq<Loc>)
    reads t
  {
    && t.Valid() && Counted(t.nodes) && t.grid == grid && t.target == target
    && |path| > 0
    && t.nodes[t.root].location == path[|path| - 1]
    && t.nodes[t.root].path == (set l | l in path)
  }

  /** The forest: distinct trees, all in step with the route built so far. */
  ghost predicate ForestOk(forest: seq<MCTree>, grid: Grid, target: Loc, path: seq<Loc>)
    reads set t | t in forest
  {
    && |path| > 0
    && (forall i, j :: 0 <= i < j < |forest| ==> forest[i] != forest[j])
    && (forall i :: 0 <= i < |forest| ==> TreeOk(forest[i], grid, target, path))
  }

  /**
   * The child `ch` that a tree hands back is a move off the end of the
   * route onto a cell the route has not visited.
   */
  ghost predicate GoodMove(t: MCTree, ch: nat, grid: Grid, path: seq<Loc>)
    reads t
  {
    && |path| > 0 && ch < |t.nodes|
    && Step(grid, path[|path| - 1], t.nodes[ch].location)
    && t.nodes[ch].location !in path
  }

  lemma ChoiceIsGoodMove(t: MCTree, grid: Grid, target: Loc, path: seq<Loc>, r: Option<nat>)
    requires TreeOk(t, grid, target, path) && InArena(t.nodes, t.nodes[t.root].children)
    requires NextChoice(t.nodes, t.root, t.target, r) && r.Some?
    ensures GoodMove(t, r.value, grid, path)
  {
    var cs := t.nodes[t.root].children;
    var k :| 0 <= k < |cs| && r == Some(cs[k]);
    assert cs[k] in cs;
    assert ChildLinked(t.nodes, t.root, cs[k]);
    assert t.nodes[cs[k]].location !in (set l | l in path);
  }

  /**
   * `search` on one tree of the forest: it stays in step with the route, it
   * hands back the child its final scan picks, and that child is a good move.
   */
  method SearchTree(tree: MCTree, c: real, trajectories: int, sc: Scoring,
                    ghost grid: Grid, ghost target: Loc, ghost path: seq<Loc>)
    returns (r: Result<Option<nat>>)
    requires TreeOk(tree, grid, target, path)
    modifies tree
    ensures r.Err? ==> r.error == ValueError
    ensures r.Ok? ==> TreeOk(tree, grid, target, path)
    ensures r.Ok? ==> InArena(tree.nodes, tree.nodes[tree.root].children) && NextChoice(tree.nodes, tree.root, target, r.value)
    ensures r.Ok? && r.value.Some? ==> GoodMove(tree, r.value.value, grid, path)
  {
    r := tree.Search(trajectories, c, sc);
    if r.Ok? && r.value.Some? {
      ChoiceIsGoodMove(tree, grid, target, path, r.value);
    }
  }

  /** What one tree's `search` left behind: its arena and root, and the child it handed back. */
  datatype Vote = Vote(nodes: seq<Node>, root: nat, choice: nat)

  /**
   * `ballot` is exactly the cells the trees voted for: entry `k` is the cell
   * of the child that the `k`-th tree's `search`, rooted at `at`, handed back
   * from its own arena.
   */
  ghost predicate CastBy(target: Loc, at: Loc, ballot: seq<Loc>, votes: seq<Vote>)
  {
    && |votes| == |ballot|
    && forall k :: 0 <= k < |votes| ==>
         && votes[k].root < |votes[k].nodes|
         && votes[k].nodes[votes[k].root].location == at
         && InArena(votes[k].nodes, votes[k].nodes[votes[k].root].children)
         && NextChoice(votes[k].nodes, votes[k].root, target, Some(votes[k].choice))
         && votes[k].choice < |votes[k].nodes|
         && ballot[k] == votes[k].nodes[votes[k].choice].location
  }

  /**
   * `pool.starmap(search, ...)` and the ballot loop of `MCAgent.route`: the
   * first `m` trees (as many as `zip(forest, self.c)` pairs) search in
   * order, then each votes for the cell of the child it chose. A search that
   * fails is a `ValueError`; a tree that chose nothing is an
   * `AttributeError`.
   */
  method SearchAll(forest: seq<MCTree>, m: nat, c: seq<real>, trajectories: int, sc: Scoring,
                   ghost grid: Grid, ghost target: Loc, ghost path: seq<Loc>)
    returns (res: Result<seq<Loc>>, ghost votes: seq<Vote>)
    requires ForestOk(forest, grid, target, path) && m <= |forest| && m <= |c|
    modifies set t | t in forest
    ensures res.Err? ==> res.error == ValueError || res.error == AttributeError
    ensures res.Ok? ==> ForestOk(forest, grid, target, path)
    ensures res.Ok? ==> Polled(forest, m, grid, target, path, res.value, votes)
  {
    var searched := SearchEach(forest, m, c, trajectories, sc, grid, target, path);
    if searched.Err? {
      return Err(ValueError), [];
    }
    res, votes := Collect(forest, m, searched.value, grid, target, path);
  }

  /**
   * A round's ballot: one cell per voting tree, each cast by that tree's
   * search from the end of the route (`CastBy`), each vote taken from the
   * tree's arena as it now stands, and each cell a move off the route.
   */
  ghost predicate Polled(forest: seq<MCTree>, m: nat, grid: Grid, target: Loc, path: seq<Loc>,
                         ballot: seq<Loc>, votes: seq<Vote>)
    reads set t | t in forest
  {
    && |path| > 0 && m <= |forest| && |ballot| == m
    && CastBy(target, path[|path| - 1], ballot, votes)
    && (forall k :: 0 <= k < m ==> votes[k].nodes == forest[k].nodes && votes[k].root == forest[k].root)
    && (forall l :: l in ballot ==> Step(grid, path[|path| - 1], l) && l !in path)
  }

  /** What the first `m` trees' searches handed back: each tree's `NextChoice`, a good move when there is one. */
  ghost predicate Chosen(forest: seq<MCTree>, m: nat, choices: seq<Option<nat>>,
                         grid: Grid, target: Loc, path: seq<Loc>)
    reads set t | t in forest
  {
    && m <= |forest| && |choices| == m
    && forall k :: 0 <= k < m ==>
         && forest[k].root < |forest[k].nodes|
         && InArena(forest[k].nodes, forest[k].nodes[forest[k].root].children)
         && NextChoice(forest[k].nodes, forest[k].root, target, choices[k])
         && (choices[k].Some? ==> GoodMove(forest[k], choices[k].value, grid, path))
  }

  /** `pool.starmap(search, ...)`: the first `m` trees search in order; a failed search is a `ValueError`. */
  method SearchEach(forest: seq<MCTree>, m: nat, c: seq<real>, trajectories: int, sc: Scoring,
                    ghost grid: Grid, ghost target: Loc, ghost path: seq<Loc>)
    returns (res: Result<seq<Option<nat>>>)
    requires ForestOk(forest, grid, target, path) && m <= |forest| && m <= |c|
    modifies set t | t in forest
    ensures res.Err? ==> res.error == ValueError
    ensures res.Ok? ==> ForestOk(forest, grid, target, path) && Chosen(forest, m, res.value, grid, target, path)
  {
    var choices: seq<Option<nat>> := [];
    for t := 0 to m
      invariant forall i :: 0 <= i < |forest| ==> TreeOk(forest[i], grid, target, path)
      invariant Chosen(forest, t, choices, grid, target, path)
    {
      var tree := forest[t];
      assert forall i :: 0 <= i < |forest| && i != t ==> forest[i] != tree;
      var r := SearchTree(tree, c[t], trajectories, sc, grid, target, path);
      if r.Err? {
        return Err(ValueError);
      }
      choices := choices + [r.value];
    }
    res := Ok(choices);
  }

  /** The ballot loop: each searched tree votes for the cell of its chosen child; no choice is an `AttributeError`. */
  method Collect(forest: seq<MCTree>, m: nat, choices: seq<Option<nat>>,
                 ghost grid: Grid, ghost target: Loc, ghost path: seq<Loc>)
    returns (res: Result<seq<Loc>>, ghost votes: seq<Vote>)
    requires ForestOk(forest, grid, target, path) && Chosen(forest, m, choices, grid, target, path)
    ensures res.Err? <==> exists k :: 0 <= k < m && choices[k].None?
    ensures res.Err? ==> res.error == AttributeError
    ensures res.Ok? ==> Polled(forest, m, grid, target, path, res.value, votes)
  {
    votes := [];
    var ballot: seq<Loc> := [];
    for t := 0 to m
      invariant |ballot| == t && |votes| == t
      invariant forall k :: 0 <= k < t ==> choices[k].Some?
      invariant forall k :: 0 <= k < t ==> Step(grid, path[|path| - 1], ballot[k]) && ballot[k] !in path
      invariant forall k :: 0 <= k < t ==> votes[k].nodes == forest[k].nodes && votes[k].root == forest[k].root
      invariant CastBy(target, path[|path| - 1], ballot, votes)
    {
      match choices[t]
      case None =>
        return Err(AttributeError), votes;
      case Some(ch) =>
        ballot := ballot + [forest[t].nodes[ch].location];
        votes := votes + [Vote(forest[t].nodes, forest[t].root, ch)];
    }
    res := Ok(ballot);
  }

  lemma VisitedExtend(path: seq<Loc>, next: Loc)
    ensures (set l | l in path + [next]) == (set l | l in path) + {next}
  {
  }

  /** `tree.prune(key)` for one tree of the forest, at the cell `next` other than the target. */
  method PruneTree(tree: MCTree, key: string, ghost next: Loc, ghost grid: Grid, ghost target: Loc, ghost path: seq<Loc>)
    returns (res: Outcome)
    requires TreeOk(tree, grid, target, path) && key == Key(next) && next != target
    modifies tree
    ensures res.Fail? ==> res.error == ValueError
    ensures res.Pass? ==> TreeOk(tree, grid, target, path + [next])
  {
    ghost var n0, r0 := tree.nodes, tree.root;
    ghost var k;
    res, k := tree.Prune(key);
    ghost var cs := n0[r0].children;
    if k < |cs| {
      KeyInjective(n0[cs[k]].location, next);
      assert cs[k] in cs;
      assert ChildLinked(n0, r0, cs[k]);
      VisitedExtend(path, next);
    }
  }

  /**
   * `tree.prune(next_location_str)` for every tree, where the key is that of
   * a cell `next` off the end of the route, other than the target. A tree
   * without a root child at that cell is a `ValueError`.
   */
  method PruneAll(forest: seq<MCTree>, key: string, ghost next: Loc,
                  ghost grid: Grid, ghost target: Loc, ghost path: seq<Loc>)
    returns (res: Outcome)
    requires ForestOk(forest, grid, target, path) && key == Key(next) && next != target
    modifies set t | t in forest
    ensures res.Fail? ==> res.error == ValueError
    ensures res.Pass? ==> ForestOk(forest, grid, target, path + [next])
  {
    for t := 0 to |forest|
      invariant forall i :: 0 <= i < |forest| ==> TreeOk(forest[i], grid, target, if i < t then path + [next] else path)
    {
      var tree := forest[t];
      assert forall i :: 0 <= i < |forest| && i != t ==> forest[i] != tree;
      var outcome := PruneTree(tree, key, next, grid, target, path);
      if outcome.Fail? {
        return outcome;
      }
    }
    res := Pass;
  }

  /** `[MCTree(cost_surface, start, target) for _ in range(n)]`. */
  method Plant(grid: Grid, start: Loc, target: Loc, n: int) returns (forest: seq<MCTree>)
    requires Fenced(grid) && Interior(grid, start)
    ensures |forest| == (if n > 0 then n else 0)
    ensures ForestOk(forest, grid, target, [start])
    ensures forall t :: t in forest ==> fresh(t)
  {
    forest := [];
    assert (set l | l in [start]) == {start};
    var i := 0;
    while i < n
      invariant |forest| == (if i > 0 then i else 0) && (i <= n || i == 0)
      invariant ForestOk(forest, grid, target, [start])
      invariant forall t :: t in forest ==> fresh(t)
      decreases n - i
    {
      var tree := new MCTree(grid, start, target);
      forest := forest + [tree];
      i := i + 1;
    }
  }

  /**
   * A route from `start`: every step is a king move onto a cell that is not
   * no-go, no cell is visited twice, and the route does not pass through the
   * target.
   */
  ghost predicate Walk(grid: Grid, start: Loc, target: Loc, path: seq<Loc>)
  {
    && |path| >= 1 && path[0] == start
    && Distinct(path)
    && (forall k :: 0 <= k < |path| - 1 ==> Step(grid, path[k], path[k + 1]))
    && (forall k :: 0 < k < |path| - 1 ==> path[k] != target)
  }

  /**
   * The ballots behind a route: at every step, each voting tree proposed a
   * move off the route so far, and the appended cell won the vote.
   */
  ghost predicate Elected(grid: Grid, path: seq<Loc>, ballots: seq<seq<Loc>>, voters: nat)
  {
    && |ballots| == |path| - 1
    && forall k :: 0 <= k < |ballots| ==>
         && |ballots[k]| == voters
         && Winner(ballots[k], path[k + 1])
         && (forall l :: l in ballots[k] ==> Step(grid, path[k], l) && l !in path[..k + 1])
  }

  /** The number of trees that search and vote: `zip(forest, self.c)` stops at the shorter. */
  function Voters(agent: Agent): nat
  {
    if agent.numWorkers <= 0 then 0
    else if agent.numWorkers < |agent.c| then agent.numWorkers else |agent.c|
  }

  /**
   * The tally of `MCAgent.route`: count the votes by key in insertion order,
   * take the first key with the most votes, and decode it back into a cell.
   * An empty ballot makes `max` raise `ValueError`.
   */
  method Elect(cells: seq<Loc>) returns (res: Result<(Loc, string)>)
    ensures res.Err? <==> |cells| == 0
    ensures res.Err? ==> res.error == ValueError
    ensures res.Ok? ==> res.value.1 == Key(res.value.0) && Winner(cells, res.value.0)
  {
    var keys := Map(Key, cells);
    var order, counts := CountVotes(keys);
    NoVotesNoTally(keys);
    var best := FirstMax(counts);
    if best.Err? {
      return Err(ValueError);
    }
    var winner := order[best.value];
    ghost var next := WinningCell(cells, keys, order, counts, best.value);
    var decoded := LocationKey.Decode(winner);
    res := Ok((Loc(decoded.value.0, decoded.value.1), winner));
  }

  lemma NoVotesNoTally(keys: seq<string>)
    ensures |Dedup(keys)| == 0 ==> |keys| == 0
  {
    DedupProperties(keys);
    if |keys| > 0 {
      assert keys[0] in Dedup(keys);
    }
  }

  /** The first-largest key of the tally decodes to the cell that wins the ballot. */
  lemma WinningCell(cells: seq<Loc>, keys: seq<string>, order: seq<string>, counts: seq<nat>, w: nat)
    returns (next: Loc)
    requires keys == Map(Key, cells) && order == Dedup(keys) && |counts| == |order|
    requires forall j :: 0 <= j < |order| ==> counts[j] == Count(keys, order[j])
    requires FirstLargest(counts, w)
    ensures order[w] == Key(next) && LocationKey.Decode(order[w]) == Ok((next.y, next.x))
    ensures Winner(cells, next)
  {
    TallyWinner(keys, order, counts, w);
    var j :| 0 <= j < |keys| && keys[j] == order[w];
    next := cells[j];
    LocationKey.DecodeEncode(next.y, next.x);
    KeyIsInjective();
    MapWinner(Key, cells, next);
  }

  /**
   * One round of `MCAgent.route` after the pool is made: the voting trees
   * search and vote, and the tally elects the winning cell.
   */
  method Round(forest: seq<MCTree>, m: nat, agent: Agent, sc: Scoring,
               ghost grid: Grid, ghost target: Loc, ghost path: seq<Loc>)
    returns (res: Result<(Loc, string)>, ghost ballot: seq<Loc>, ghost votes: seq<Vote>)
    requires ForestOk(forest, grid, target, path) && m <= |forest| && m <= |agent.c|
    modifies set t | t in forest
    ensures res.Err? ==> res.error == ValueError || res.error == AttributeError
    ensures res.Ok? ==> ForestOk(forest, grid, target, path)
    ensures res.Ok? ==> res.value.1 == Key(res.value.0)
    ensures res.Ok? ==> Winner(ballot, res.value.0) && Polled(forest, m, grid, target, path, ballot, votes)
  {
    var voted;
    voted, votes := SearchAll(forest, m, agent.c, agent.trajectories, sc, grid, target, path);
    if voted.Err? {
      return Err(voted.error), [], votes;
    }
    var cells := voted.value;
    ballot := cells;
    res := Elect(cells);
  }

  /**
   * `MCAgent.route`: up to `maxSteps` rounds of search, vote, append the
   * winning cell and prune every tree to it, stopping right after the
   * target is appended. `Pool(n)` with fewer than one worker is a
   * `ValueError`; the other failures are those of the rounds.
   */
  method Route(agent: Agent, grid: Grid, start: Loc, target: Loc, maxSteps: int, sc: Scoring)
    returns (res: Result<seq<Loc>>, ghost ballots: seq<seq<Loc>>, ghost record: seq<seq<Vote>>)
    requires Fenced(grid) && Interior(grid, start)
    ensures res.Err? ==> res.error == ValueError || res.error == AttributeError
    ensures agent.numWorkers < 1 && maxSteps >= 1 ==> res == Err(ValueError)
    ensures res.Ok? ==> var path := res.value;
      && Walk(grid, start, target, path)
      && |path| <= (if maxSteps > 0 then maxSteps else 0) + 1
      && (|path| < (if maxSteps > 0 then maxSteps else 0) + 1 ==> path[|path| - 1] == target)
      && Elected(grid, path, ballots, Voters(agent))
      && Searched(target, path, ballots, record)
  {
    var forest := Plant(grid, start, target, agent.numWorkers);
    var path := [start];
    ballots := [];
    record := [];
    var m := Voters(agent);
    var steps := 0;
    while steps < maxSteps
      invariant |path| == steps + 1 && (steps <= maxSteps || steps == 0)
      invariant agent.numWorkers < 1 ==> steps == 0
      invariant ForestOk(forest, grid, target, path) && |forest| == (if agent.numWorkers > 0 then agent.numWorkers else 0)
      invariant forall t :: t in forest ==> fresh(t)
      invariant Progress(grid, start, target, path, ballots, record, m)
      invariant |path| == 1 || path[|path| - 1] != target
      decreases maxSteps - steps
    {
      if agent.numWorkers < 1 {
        return Err(ValueError), ballots, record;
      }
      var round, ballot, votes := Round(forest, m, agent, sc, grid, target, path);
      if round.Err? {
        return Err(round.error), ballots, record;
      }
      var (next, key) := round.value;
      RoundGrows(forest, grid, start, target, path, next, ballots, ballot, record, votes, m);
      ghost var before := path;
      path := path + [next];
      ballots := ballots + [ballot];
      record := record + [votes];
      steps := steps + 1;
      if next == target {
        break;
      }
      var pruned := PruneAll(forest, key, next, grid, target, before);
      if pruned.Fail? {
        return Err(ValueError), ballots, record;
      }
    }
    res := Ok(path);
  }

  /** What `route` has built so far: a walk, every step of it elected, every ballot cast by searches. */
  ghost predicate Progress(grid: Grid, start: Loc, target: Loc, path: seq<Loc>,
                           ballots: seq<seq<Loc>>, record: seq<seq<Vote>>, voters: nat)
  {
    Walk(grid, start, target, path) && Elected(grid, path, ballots, voters) && Searched(target, path, ballots, record)
  }

  /** Appending the winner of a round's polled ballot keeps the route's progress. */
  lemma RoundGrows(forest: seq<MCTree>, grid: Grid, start: Loc, target: Loc, path: seq<Loc>, next: Loc,
                   ballots: seq<seq<Loc>>, ballot: seq<Loc>, record: seq<seq<Vote>>, votes: seq<Vote>, voters: nat)
    requires Progress(grid, start, target, path, ballots, record, voters)
    requires |path| == 1 || path[|path| - 1] != target
    requires Winner(ballot, next) && Polled(forest, voters, grid, target, path, ballot, votes)
    ensures Progress(grid, start, target, path + [next], ballots + [ballot], record + [votes], voters)
  {
    RouteGrows(grid, start, target, path, next, ballots, ballot, voters);
    SearchedGrows(target, path, next, ballots, ballot, record, votes);
  }

  /**
   * Every ballot behind a route was cast by searches: at step `r`, each vote
   * is the child that a tree rooted at `path[r]` handed back.
   */
  ghost predicate Searched(target: Loc, path: seq<Loc>, ballots: seq<seq<Loc>>, record: seq<seq<Vote>>)
  {
    && |record| == |ballots| < |path|
    && forall r :: 0 <= r < |ballots| ==> CastBy(target, path[r], ballots[r], record[r])
  }

  lemma SearchedGrows(target: Loc, path: seq<Loc>, next: Loc, ballots: seq<seq<Loc>>, ballot: seq<Loc>,
                      record: seq<seq<Vote>>, votes: seq<Vote>)
    requires Searched(target, path, ballots, record) && |ballots| == |path| - 1
    requires CastBy(target, path[|path| - 1], ballot, votes)
    ensures Searched(target, path + [next], ballots + [ballot], record + [votes])
  {
    var p := path + [next];
    forall r | 0 <= r < |ballots| + 1
      ensures CastBy(target, p[r], (ballots + [ballot])[r], (record + [votes])[r])
    {
      if r < |ballots| {
        assert p[r] == path[r];
      }
    }
  }

  /** Appending the winner of a ballot of moves off the route extends the walk and its election. */
  lemma RouteGrows(grid: Grid, start: Loc, target: Loc, path: seq<Loc>, next: Loc,
                   ballots: seq<seq<Loc>>, ballot: seq<Loc>, voters: nat)
    requires Walk(grid, start, target, path) && (|path| == 1 || path[|path| - 1] != target)
    requires Elected(grid, path, ballots, voters)
    requires |ballot| == voters && Winner(ballot, next)
    requires forall l :: l in ballot ==> Step(grid, path[|path| - 1], l) && l !in path
    ensures Walk(grid, start, target, path + [next])
    ensures Elected(grid, path + [next], ballots + [ballot], voters)
  {
    var p := path + [next];
    var b := ballots + [ballot];
    assert p[..|path|] == path;
    forall k | 0 <= k < |b|
      ensures |b[k]| == voters && Winner(b[k], p[k + 1])
      ensures forall l :: l in b[k] ==> Step(grid, p[k], l) && l !in p[..k + 1]
    {
      if k < |ballots| {
        assert b[k] == ballots[k] && p[k + 1] == path[k + 1] && p[..k + 1] == path[..k + 1];
      }
    }
  }

  /** The two rasters `MLWrapper.route` tells apart by the start row. */
  datatype Region = Alaska | Lower48

  /**
   * The region check of `MLWrapper.route`: a start above row 275 needs a
   * target above it too; any other start needs a target strictly below it.
   */
  function RegionOf(start: Loc, target: Loc): (r: Result<Region>)
    ensures r == Ok(Alaska) <==> start.y < 275 && target.y < 275
    ensures r == Ok(Lower48) <==> start.y >= 275 && target.y > 275
    ensures r.Err? <==> r == Err(AssertionError)
  {
    if start.y < 275 then
      if target.y < 275 then Ok(Alaska) else Err(AssertionError)
    else if target.y > 275 then Ok(Lower48) else Err(AssertionError)
  }

  /** A target on row 275 itself is never accepted. */
  lemma Row275Rejected(start: Loc, target: Loc)
    requires target.y == 275
    ensures RegionOf(start, target) == Err(AssertionError)
  {
  }

  /** `MLWrapper.route`: the region check, then the agent's route with the default 1000 steps. */
  method WrapperRoute(agent: Agent, grid: Grid, start: Loc, target: Loc, sc: Scoring) returns (res: Result<seq<Loc>>)
    requires Fenced(grid) && Interior(grid, start)
    ensures RegionOf(start, target).Err? ==> res == Err(AssertionError)
    ensures res.Err? ==> res.error in {AssertionError, ValueError, AttributeError}
    ensures res.Ok? ==> Walk(grid, start, target, res.value) && |res.value| <= 1001
    ensures res.Ok? && |res.value| < 1001 ==> res.value[|res.value| - 1] == target
  {
    var region := RegionOf(start, target);
    if region.Err? {
      return Err(AssertionError);
    }
    ghost var ballots, record;
    res, ballots, record := Route(agent, grid, start, target, 1000, sc);
  }
}
