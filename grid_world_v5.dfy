/**
 * `GridWorldEnv_v5` of Flask/grid_world/envs/grid_world_env_v5.py: the
 * constructor's checks and its rewrite of the cost surface, `reset`, and
 * `step` over the cost surface. Rendering, the resized national and
 * regional surfaces and the observation images are not part of this model.
 */
module GridWorldV5 {
  import opened Wrappers
  import opened GridCells
  import MctsNode

  const RENDER_MODES: seq<string> := ["human", "rgb_array"]

  /** The cost that marks a no-go cell in the original surface, and what it becomes. */
  const NO_GO: int := -1
  const NO_GO_COST: int := 255

  /** A cell `generate_locations` may draw: neither no-go nor outside the country. */
  predicate Drawable(v: int)
  {
    v != NO_GO && v != 0
  }

  /** A location the constructor accepts: none, or one whose cost can be read and is not 0. */
  predicate Inside(cost: array2<int>, loc: Option<Cell>)
    reads cost
  {
    loc.None? || (At(cost, loc.value).Ok? && At(cost, loc.value).value != 0)
  }

  /** `if loc is not None and cost_surface[loc[0], loc[1]] == 0: raise ValueError`. */
  function CheckInside(cost: array2<int>, loc: Option<Cell>): (r: Outcome)
    reads cost
    ensures r == Pass <==> Inside(cost, loc)
    ensures r.Fail? ==> (r.error == ValueError <==> At(cost, loc.value) == Ok(0))
  {
    if loc.None? then Pass
    else match At(cost, loc.value)
      case Err(e) => Fail(e)
      case Ok(v) => if v == 0 then Fail(ValueError) else Pass
  }

  /** What `step` returns besides the observation and `info`. */
  datatype StepResult = StepResult(reward: real, terminated: bool, truncated: bool)

  class GridWorldV5 {
    /** The caller's array itself, rewritten in place by the constructor. */
    const costSurface: array2<int>
    /** The copy of the surface taken before the rewrite. */
    const noGo: array2<int>
    const size: nat
    const start: Option<Cell>
    const target: Option<Cell>
    const maxDistance: int
    const distanceGoal: int
    const obsRadius: real

    var ready: bool
    var agent: Cell
    var goal: Cell
    var agentLog: seq<Cell>
    var targetLog: seq<Cell>

    constructor (costSurface: array2<int>, noGo: array2<int>, size: nat, start: Option<Cell>, target: Option<Cell>,
                 maxDistance: int, distanceGoal: int, obsRadius: real)
      ensures this.costSurface == costSurface && this.noGo == noGo && this.size == size
      ensures this.start == start && this.target == target && this.maxDistance == maxDistance
      ensures this.distanceGoal == distanceGoal && this.obsRadius == obsRadius
      ensures !ready && agentLog == [] && targetLog == []
    {
      this.costSurface := costSurface;
      this.noGo := noGo;
      this.size := size;
      this.start := start;
      this.target := target;
      this.maxDistance := maxDistance;
      this.distanceGoal := distanceGoal;
      this.obsRadius := obsRadius;
      ready := false;
      agentLog := [];
      targetLog := [];
    }

    /** `reset`: start and target from `generate_locations` on the original surface, then logged. */
    method Reset(draws: seq<nat>) returns (res: Outcome)
      modifies this
      ensures res.Fail? ==> res.error == ValueError || res.error == DrawsExhausted
      ensures res.Fail? ==> unchanged(this)
      ensures res.Pass? ==> ready
      ensures res.Pass? && start.Some? ==> agent == start.value
      ensures res.Pass? && target.Some? ==> goal == target.value
      ensures res.Pass? && start.None? ==> InGrid(noGo, agent) && Drawable(noGo[agent.y, agent.x])
      ensures res.Pass? && target.None? ==> InGrid(noGo, goal) && Drawable(noGo[goal.y, goal.x])
      ensures res.Pass? ==> agentLog == old(agentLog) + [agent] && targetLog == old(targetLog) + [goal]
    {
      var placed := GenerateLocations(noGo, Drawable, start, target, draws, maxDistance);
      if placed.Err? {
        return Fail(placed.error);
      }
      agent := placed.value.0;
      goal := placed.value.1;
      ready := true;
      agentLog := agentLog + [agent];
      targetLog := targetLog + [goal];
      res := Pass;
    }

    /**
     * `step`: the agent moves as `Moved` says over the cost surface. The
     * previous location is read after the move from the same array, so the
     * two distances agree and the Euclidean part of the reward is always 0.
     * The reward is 100 within `distance_goal` of the target, and otherwise
     * `-cost * 2/255 - 1`; the episode is never truncated. The action is
     * looked up first, at Flask/grid_world/envs/grid_world_env_v5.py:419,
     * so an unknown action is a `KeyError` even before `reset`.
     */
    method Step(action: int) returns (res: Result<StepResult>)
      modifies this
      ensures ActionDirection(action).Err? ==> res == Err(KeyError) && unchanged(this)
      ensures !old(ready) && ActionDirection(action).Ok? ==> res == Err(AttributeError) && unchanged(this)
      ensures old(ready) ==> ready && goal == old(goal)
      ensures res.Err? ==> res.error == AttributeError || res.error == KeyError || res.error == IndexError
      ensures old(ready) && Moved(costSurface, old(agent), action).Err? ==>
        res == Err(Moved(costSurface, old(agent), action).error) && agent == old(agent)
      ensures res.Ok? ==> Moved(costSurface, old(agent), action) == Ok(agent)
      ensures res.Ok? ==> !res.value.truncated
      ensures res.Ok? ==> res.value.terminated == WithinGoal(SqDist(agent, goal), distanceGoal)
      ensures res.Ok? && res.value.terminated ==> res.value.reward == 100.0
      ensures res.Ok? && !res.value.terminated ==>
        At(costSurface, agent).Ok? && res.value.reward == -(At(costSurface, agent).value as real) * (2.0 / 255.0) - 1.0
      ensures res.Ok? ==> agentLog == old(agentLog) + [agent] && targetLog == old(targetLog) + [goal]
    {
      var direction := ActionDirection(action);
      if direction.Err? {
        return Err(KeyError);
      }
      if !ready {
        return Err(AttributeError);
      }
      var moved := Moved(costSurface, agent, action);
      if moved.Err? {
        return Err(moved.error);
      }
      agent := moved.value;
      var previous := agent;
      var euclidean := DistanceReward(previous, agent, goal, 1);
      var terminated := WithinGoal(SqDist(agent, goal), distanceGoal);
      var reward: real;
      if terminated {
        reward := 100.0;
      } else {
        var cost := At(costSurface, agent);
        if cost.Err? {
          return Err(cost.error);
        }
        reward := euclidean as real + -(cost.value as real) * (2.0 / 255.0) + -1.0;
      }
      agentLog := agentLog + [agent];
      targetLog := targetLog + [goal];
      res := Ok(StepResult(reward, terminated, false));
    }
  }

  /** The Euclidean reward of a step whose previous location is its new one. */
  lemma AliasedRewardIsZero(location: Cell, target: Cell)
    ensures DistanceReward(location, location, target, 1) == 0
  {
  }

  /**
   * `__init__` for a surface given as an array: a non-square surface is a
   * `Warning`, an empty one a division by zero, a start or target with
   * cost 0 a `ValueError`. Past those checks `no_go` is a fresh copy of the
   * surface and every -1 in the caller's array becomes 255; a zero `size`
   * then fails inside `resize` to a `(0, 0)` shape, with an exception this
   * model does not name (`LibraryError`).
   */
  method NewGridWorldV5(costSurface: array2<int>, size: nat, renderMode: Option<string>, start: Option<Cell>,
                        target: Option<Cell>, maxDistance: int, distanceGoal: int, obsRadius: real)
    returns (res: Result<GridWorldV5>)
    modifies costSurface
    ensures costSurface.Length0 != costSurface.Length1 ==> res == Err(Warning) && unchanged(costSurface)
    ensures costSurface.Length0 == costSurface.Length1 > 0 && !old(Inside(costSurface, start)) ==>
      res.Err? && (res.error == ValueError <==> old(At(costSurface, start.value)) == Ok(0)) && unchanged(costSurface)
    ensures costSurface.Length0 == costSurface.Length1 > 0 && old(Inside(costSurface, start)) && !old(Inside(costSurface, target)) ==>
      res.Err? && (res.error == ValueError <==> old(At(costSurface, target.value)) == Ok(0)) && unchanged(costSurface)
    ensures res.Err? ==> res.error in {Warning, ZeroDivisionError, ValueError, IndexError, AssertionError, LibraryError}
    ensures res.Err? && res.error == LibraryError ==> size == 0
    ensures res.Ok? <==>
      && costSurface.Length0 == costSurface.Length1 > 0
      && old(Inside(costSurface, start)) && old(Inside(costSurface, target))
      && size > 0 && (renderMode.None? || renderMode.value in RENDER_MODES)
    ensures res.Ok? ==> fresh(res.value) && fresh(res.value.noGo) && res.value.costSurface == costSurface && !res.value.ready
    ensures res.Ok? ==> res.value.start == start && res.value.target == target && res.value.size == size
    ensures res.Ok? ==> res.value.maxDistance == maxDistance && res.value.distanceGoal == distanceGoal
    ensures res.Ok? ==> res.value.noGo.Length0 == costSurface.Length0 && res.value.noGo.Length1 == costSurface.Length1
    ensures res.Ok? ==> forall i, j :: 0 <= i < costSurface.Length0 && 0 <= j < costSurface.Length1 ==>
      && res.value.noGo[i, j] == old(costSurface[i, j])
      && costSurface[i, j] == (if old(costSurface[i, j]) == NO_GO then NO_GO_COST else old(costSurface[i, j]))
  {
    if costSurface.Length0 != costSurface.Length1 {
      return Err(Warning);
    }
    if costSurface.Length0 == 0 {
      return Err(ZeroDivisionError);
    }
    var startOk := CheckInside(costSurface, start);
    if startOk.Fail? {
      return Err(startOk.error);
    }
    var targetOk := CheckInside(costSurface, target);
    if targetOk.Fail? {
      return Err(targetOk.error);
    }
    var noGo := CopySurface(costSurface);
    ReplaceNoGo(costSurface);
    if size == 0 {
      return Err(LibraryError);
    }
    if !(renderMode.None? || renderMode.value in RENDER_MODES) {
      return Err(AssertionError);
    }
    var env := new GridWorldV5(costSurface, noGo, size, start, target, maxDistance, distanceGoal, obsRadius);
    res := Ok(env);
  }

  /** `self.cost_surface.copy()`. */
  method CopySurface(cost: array2<int>) returns (copy: array2<int>)
    ensures fresh(copy) && copy.Length0 == cost.Length0 && copy.Length1 == cost.Length1
    ensures forall i, j :: 0 <= i < cost.Length0 && 0 <= j < cost.Length1 ==> copy[i, j] == cost[i, j]
  {
    copy := new int[cost.Length0, cost.Length1]((i, j) reads cost =>
      if 0 <= i < cost.Length0 && 0 <= j < cost.Length1 then cost[i, j] else 0);
  }

  /** `self.cost_surface[self.cost_surface == -1] = 255`, in place. */
  method ReplaceNoGo(cost: array2<int>)
    modifies cost
    ensures forall i, j :: 0 <= i < cost.Length0 && 0 <= j < cost.Length1 ==>
      cost[i, j] == if old(cost[i, j]) == NO_GO then NO_GO_COST else old(cost[i, j])
  {
    forall i, j | 0 <= i < cost.Length0 && 0 <= j < cost.Length1 && cost[i, j] == NO_GO {
      cost[i, j] := NO_GO_COST;
    }
  }
}
