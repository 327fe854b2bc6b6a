/**
 * `GridWorldEnv` of Flask/custom_environments_2/envs/grid_world.py: a
 * small random grid with one-hot start and end layers, four moves that are
 * clipped at the border, and a reward that penalises pushing past the
 * bottom or right edge. Rendering is not part of this model.
 */
module GridWorldCustom {
  import opened Wrappers
  import GridCells
  import MctsNode

  type Cell = MctsNode.Loc

  const RENDER_MODES: seq<string> := ["human", "rgb_array"]

  /** `_action_to_direction`: down, right, up (`[-1, 0]`), left; any other key is a `KeyError`. */
  function ActionDirection(action: int): (r: Result<Cell>)
    ensures r.Ok? <==> 0 <= action < 4
    ensures r.Ok? ==> (r.value.y == 0 || r.value.x == 0) && -1 <= r.value.y <= 1 && -1 <= r.value.x <= 1
    ensures r.Ok? ==> r.value != MctsNode.Loc(0, 0)
  {
    if action == 0 then Ok(MctsNode.Loc(1, 0))
    else if action == 1 then Ok(MctsNode.Loc(0, 1))
    else if action == 2 then Ok(MctsNode.Loc(-1, 0))
    else if action == 3 then Ok(MctsNode.Loc(0, -1))
    else Err(KeyError)
  }

  /** The four actions move in four different directions. */
  lemma ActionsDistinct(a: int, b: int)
    requires 0 <= a < 4 && 0 <= b < 4 && a != b
    ensures ActionDirection(a).value != ActionDirection(b).value
  {
  }

  /** An `h` by `w` layer of zeros with a single 1 at `c`. */
  function OneHot(h: nat, w: nat, c: Cell): (r: seq<seq<int>>)
    ensures |r| == h && forall i :: 0 <= i < h ==> |r[i]| == w
    ensures forall i, j :: 0 <= i < h && 0 <= j < w ==> r[i][j] == (if MctsNode.Loc(i, j) == c then 1 else 0)
  {
    seq(h, i => seq(w, j => if MctsNode.Loc(i, j) == c then 1 else 0))
  }

  /** Two one-hot layers of cells on the grid are equal exactly when the cells are. */
  lemma OneHotInjective(h: nat, w: nat, a: Cell, b: Cell)
    requires 0 <= a.y < h && 0 <= a.x < w && 0 <= b.y < h && 0 <= b.x < w
    ensures OneHot(h, w, a) == OneHot(h, w, b) <==> a == b
  {
    if OneHot(h, w, a) == OneHot(h, w, b) {
      assert OneHot(h, w, a)[a.y][a.x] == 1;
      assert OneHot(h, w, b)[a.y][a.x] == 1;
    }
  }

  /** `np.clip(v, lo, hi)` for integers. */
  function Clip(v: int, lo: int, hi: int): int
  {
    if v < lo then lo else if v > hi then hi else v
  }

  function ClipReal(v: real, lo: real, hi: real): real
  {
    if v < lo then lo else if v > hi then hi else v
  }

  /**
   * `generate_grid`: the grid is the normal noise plus the column's parity,
   * clipped to [0, 1] (the noise is `noise`); the start and the end are
   * drawn from `draws`, the end again and again until its one-hot layer
   * differs from the start's; the end cell's grid value is set to 0.
   */
  method GenerateGrid(h: nat, w: nat, noise: seq<seq<real>>, draws: seq<nat>)
    returns (res: Result<(array2<real>, Cell, Cell)>)
    requires |noise| == h && forall i :: 0 <= i < h ==> |noise[i]| == w
    ensures (h == 0 || (w == 0 && |draws| > 0)) ==> res == Err(ValueError)
    ensures res.Err? ==> res.error == ValueError || res.error == DrawsExhausted
    ensures res.Ok? ==>
      var (grid, s, e) := res.value;
      && fresh(grid) && grid.Length0 == h && grid.Length1 == w
      && 0 <= s.y < h && 0 <= s.x < w && 0 <= e.y < h && 0 <= e.x < w
      && s != e && OneHot(h, w, s) != OneHot(h, w, e)
      && grid[e.y, e.x] == 0.0
      && forall i, j :: 0 <= i < h && 0 <= j < w && MctsNode.Loc(i, j) != e ==>
        grid[i, j] == ClipReal(noise[i][j] + (j % 2) as real, 0.0, 1.0)
  {
    var grid := new real[h, w]((i, j) =>
      if 0 <= i < h && 0 <= j < w then ClipReal(noise[i][j] + (j % 2) as real, 0.0, 1.0) else 0.0);
    var sy := GridCells.Draw(draws, 0, 0, h);
    if sy.Err? {
      return Err(sy.error);
    }
    var sx := GridCells.Draw(draws, 1, 0, w);
    if sx.Err? {
      return Err(sx.error);
    }
    var s := MctsNode.Loc(sy.value, sx.value);
    var k := 2;
    var e := s;
    var first := true;
    while first || OneHot(h, w, s) == OneHot(h, w, e)
      invariant 2 <= k <= |draws| + 2
      invariant 0 <= e.y < h && 0 <= e.x < w
      invariant !first ==> k >= 4
      decreases |draws| + 2 - k, first
    {
      var ey := GridCells.Draw(draws, k, 0, h);
      if ey.Err? {
        return Err(ey.error);
      }
      var ex := GridCells.Draw(draws, k + 1, 0, w);
      if ex.Err? {
        return Err(ex.error);
      }
      e := MctsNode.Loc(ey.value, ex.value);
      k := k + 2;
      first := false;
    }
    OneHotInjective(h, w, s, e);
    grid[e.y, e.x] := 0.0;
    res := Ok((grid, s, e));
  }

  /** What `step` returns as its reward: 100 at the target, otherwise the parts of the shaped penalty. */
  datatype Reward =
    | Reached
      /** `-(sqrt(sqDistance) / sqrt(initialSqDistance)) - cost - 1 + outOfBounds`. */
    | Shaped(sqDistance: int, initialSqDistance: int, cost: real, outOfBounds: int)

  datatype StepResult = StepResult(reward: Reward, terminated: bool, truncated: bool)

  /** The penalty for an attempted move past the last row or the last column (not past 0). */
  function OutOfBounds(agent: Cell, d: Cell, h: int, w: int): (r: int)
    ensures r == -10 <==> agent.y + d.y > h - 1 || agent.x + d.x > w - 1
    ensures r == 0 || r == -10
  {
    if agent.y + d.y > h - 1 || agent.x + d.x > w - 1 then -10 else 0
  }

  /** `np.clip(agent + direction, 0, shape - 1)`. */
  function Clipped(agent: Cell, d: Cell, h: int, w: int): (r: Cell)
    requires h >= 1 && w >= 1
    ensures 0 <= r.y < h && 0 <= r.x < w
    ensures 0 <= agent.y + d.y < h && 0 <= agent.x + d.x < w ==> r == MctsNode.Add(agent, d)
  {
    MctsNode.Loc(Clip(agent.y + d.y, 0, h - 1), Clip(agent.x + d.x, 0, w - 1))
  }

  class GridWorld {
    const h: nat
    const w: nat
    var ready: bool
    var grid: array2<real>
    var agent: Cell
    var goal: Cell
    var current: seq<seq<int>>
    var initialSqDistance: int

    /** After `reset`: the grid has the environment's shape and agent and target are on it. */
    predicate Valid()
      reads this
    {
      ready ==>
        && h >= 1 && w >= 1 && grid.Length0 == h && grid.Length1 == w
        && 0 <= agent.y < h && 0 <= agent.x < w && 0 <= goal.y < h && 0 <= goal.x < w
    }

    constructor (h: nat, w: nat)
      ensures this.h == h && this.w == w && !ready && Valid()
    {
      this.h := h;
      this.w := w;
      ready := false;
      grid := new real[0, 0];
    }

    /** `reset`: a new grid, the agent on the start, `current` the start's one-hot layer. */
    method Reset(noise: seq<seq<real>>, draws: seq<nat>) returns (res: Outcome)
      requires Valid()
      requires |noise| == h && forall i :: 0 <= i < h ==> |noise[i]| == w
      modifies this
      ensures Valid()
      ensures res.Fail? ==> res.error == ValueError || res.error == DrawsExhausted
      ensures res.Fail? ==> unchanged(this)
      ensures res.Pass? ==> ready && fresh(grid) && agent != goal && grid[goal.y, goal.x] == 0.0
      ensures res.Pass? ==> current == OneHot(h, w, agent) && initialSqDistance == GridCells.SqDist(agent, goal)
    {
      var made := GenerateGrid(h, w, noise, draws);
      if made.Err? {
        return Fail(made.error);
      }
      var (g, s, e) := made.value;
      grid := g;
      agent := s;
      goal := e;
      initialSqDistance := GridCells.SqDist(s, e);
      current := OneHot(h, w, s);
      ready := true;
      res := Pass;
    }

    /**
     * `step`: the agent moves by the action's vector clipped to the grid,
     * `current` marks its new cell, the episode terminates exactly at
     * the target with reward 100, and it is never truncated. The action is
     * looked up first, at Flask/custom_environments_2/envs/grid_world.py:215,
     * so an unknown action is a `KeyError` even before `reset`.
     */
    method Step(action: int) returns (res: Result<StepResult>)
      requires Valid()
      modifies this
      ensures Valid()
      ensures ActionDirection(action).Err? ==> res == Err(KeyError) && unchanged(this)
      ensures !old(ready) && ActionDirection(action).Ok? ==> res == Err(AttributeError) && unchanged(this)
      ensures res.Err? ==> res.error == AttributeError || res.error == KeyError
      ensures res.Ok? ==> old(ready) && ActionDirection(action).Ok?
      ensures res.Ok? ==> agent == Clipped(old(agent), ActionDirection(action).value, h, w)
      ensures res.Ok? ==> 0 <= agent.y < h && 0 <= agent.x < w && current == OneHot(h, w, agent)
      ensures res.Ok? ==> grid == old(grid) && goal == old(goal) && ready
      ensures res.Ok? ==> res.value.terminated == (agent == goal) && !res.value.truncated
      ensures res.Ok? ==> (res.value.reward == Reached <==> agent == goal)
      ensures res.Ok? && agent != goal ==> res.value.reward == Shaped(GridCells.SqDist(agent, goal), initialSqDistance,
        grid[agent.y, agent.x], OutOfBounds(old(agent), ActionDirection(action).value, h, w))
    {
      var d := ActionDirection(action);
      if d.Err? {
        return Err(d.error);
      }
      if !ready {
        return Err(AttributeError);
      }
      var outOfBounds := OutOfBounds(agent, d.value, h, w);
      agent := Clipped(agent, d.value, h, w);
      current := OneHot(h, w, agent);
      var terminated := agent == goal;
      var reward := if terminated then Reached
        else Shaped(GridCells.SqDist(agent, goal), initialSqDistance, grid[agent.y, agent.x], outOfBounds);
      res := Ok(StepResult(reward, terminated, false));
    }
  }

  /** `__init__`: only the render mode is checked. */
  method NewGridWorld(renderMode: Option<string>, h: nat, w: nat) returns (res: Result<GridWorld>)
    ensures res.Err? <==> renderMode.Some? && renderMode.value !in RENDER_MODES
    ensures res.Err? ==> res.error == AssertionError
    ensures res.Ok? ==> fresh(res.value) && res.value.h == h && res.value.w == w && !res.value.ready && res.value.Valid()
  {
    if renderMode.Some? && renderMode.value !in RENDER_MODES {
      return Err(AssertionError);
    }
    var env := new GridWorld(h, w);
    res := Ok(env);
  }
}
