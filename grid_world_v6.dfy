/**
 * `GridWorldEnv_v6` of Flask/grid_world/envs/grid_world_env_v6.py: the
 * constructor's checks, `reset` placing the agent and the target, and
 * `step` moving the agent over the local cost raster, with its step
 * counter, rewards and `info` log. Rendering and the observation images
 * are not part of this model.
 */
module GridWorldV6 {
  import opened Wrappers
  import opened GridCells
  import MctsNode

  /** The entries of `env_config` the environment reads; of the rasters, only shapes matter besides `local` and `no_go`. */
  datatype Config = Config(
    start: Option<Cell>,
    target: Option<Cell>,
    maxDistance: int,
    distanceGoal: int,
    obsRadius: real,
    local: array2<int>,
    regionalRows: nat,
    nationalRows: nat,
    noGo: array2<bool>,
    maxSteps: int,
    renderMode: Option<string>)

  const RENDER_MODES: seq<string> := ["human", "rgb_array"]

  /** A given location that `__init__` accepts: `no_go` at it can be read and is false. */
  predicate OffNoGo(noGo: array2<bool>, loc: Option<Cell>)
    reads noGo
  {
    loc.None? || At(noGo, loc.value) == Ok(false)
  }

  /**
   * The checks of `__init__`, in the order the source makes them: a missing
   * configuration, the two shape ratios (a zero divisor), a start and then a
   * target on a `no_go` cell (or past the raster), the render mode.
   */
  function Validate(config: Option<Config>): (r: Outcome)
    reads if config.Some? then {config.value.noGo} else {}
    ensures config.None? ==> r == Fail(ValueError)
    ensures r == Pass <==>
      && config.Some?
      && config.value.regionalRows > 0 && config.value.nationalRows > 0
      && OffNoGo(config.value.noGo, config.value.start)
      && OffNoGo(config.value.noGo, config.value.target)
      && (config.value.renderMode.None? || config.value.renderMode.value in RENDER_MODES)
    ensures config.Some? && config.value.regionalRows > 0 && config.value.nationalRows > 0 ==>
      (config.value.start.Some? && At(config.value.noGo, config.value.start.value) == Ok(true) ==> r == Fail(ValueError))
    ensures config.Some? && config.value.regionalRows > 0 && config.value.nationalRows > 0 && OffNoGo(config.value.noGo, config.value.start) ==>
      (config.value.target.Some? && At(config.value.noGo, config.value.target.value) == Ok(true) ==> r == Fail(ValueError))
  {
    if config.None? then Fail(ValueError)
    else
      var c := config.value;
      if c.regionalRows == 0 || c.nationalRows == 0 then Fail(ZeroDivisionError)
      else match CheckFree(c.noGo, c.start)
        case Fail(e) => Fail(e)
        case Pass =>
          match CheckFree(c.noGo, c.target)
          case Fail(e) => Fail(e)
          case Pass =>
            if c.renderMode.None? || c.renderMode.value in RENDER_MODES then Pass
            else Fail(AssertionError)
  }

  /** `if loc is not None and self.no_go[loc[0], loc[1]]: raise ValueError`. */
  function CheckFree(noGo: array2<bool>, loc: Option<Cell>): (r: Outcome)
    reads noGo
    ensures r == Pass <==> OffNoGo(noGo, loc)
    ensures r.Fail? ==> (r.error == ValueError <==> At(noGo, loc.value) == Ok(true))
  {
    if loc.None? then Pass
    else match At(noGo, loc.value)
      case Err(e) => Fail(e)
      case Ok(blocked) => if blocked then Fail(ValueError) else Pass
  }

  /** What `step` returns besides the observation and `info`. */
  datatype StepResult = StepResult(reward: int, terminated: bool, truncated: bool)

  class GridWorldV6 {
    const start: Option<Cell>
    const target: Option<Cell>
    const maxDistance: int
    const distanceGoal: int
    const obsRadius: real
    const local: array2<int>
    const noGo: array2<bool>
    const maxSteps: int
    const size: nat
    const obsShape: (nat, nat, nat)

    /** `reset` has set `total_steps`, which it does before anything in it can fail. */
    var counted: bool
    /** A `reset` has placed the agent and the target, so the locations exist. */
    var ready: bool
    var totalSteps: int
    var agent: Cell
    var goal: Cell
    /** `info['agent']`, `info['target']` and `info['euclidean']`. */
    var agentLog: seq<Cell>
    var targetLog: seq<Cell>
    var euclideanLog: seq<int>

    /** The locations exist only once a `reset` has also set the counter. */
    predicate Valid()
      reads this
    {
      ready ==> counted
    }

    /** `__init__` once `Validate` has passed. */
    constructor (c: Config)
      requires Validate(Some(c)) == Pass
      ensures start == c.start && target == c.target && maxDistance == c.maxDistance
      ensures distanceGoal == c.distanceGoal && obsRadius == c.obsRadius && maxSteps == c.maxSteps
      ensures local == c.local && noGo == c.noGo
      ensures size == c.nationalRows && obsShape == (3, size, size)
      ensures !counted && !ready && Valid() && agentLog == [] && targetLog == [] && euclideanLog == []
    {
      start := c.start;
      target := c.target;
      maxDistance := c.maxDistance;
      distanceGoal := c.distanceGoal;
      obsRadius := c.obsRadius;
      local := c.local;
      noGo := c.noGo;
      maxSteps := c.maxSteps;
      size := c.nationalRows;
      obsShape := (3, c.nationalRows, c.nationalRows);
      counted := false;
      ready := false;
      agentLog := [];
      targetLog := [];
      euclideanLog := [];
    }

    /**
     * `reset` with the start/target generator drawing from `draws`: the step
     * counter restarts, even when drawing the locations then fails, the
     * agent is put on the start, and both locations are logged.
     */
    method Reset(draws: seq<nat>) returns (res: Outcome)
      modifies this
      ensures counted && totalSteps == 0 && Valid()
      ensures res.Fail? ==> res.error == ValueError || res.error == DrawsExhausted
      ensures res.Fail? ==> ready == old(ready) && agent == old(agent) && goal == old(goal)
      ensures res.Fail? ==> agentLog == old(agentLog) && targetLog == old(targetLog)
      ensures res.Pass? ==> ready
      ensures res.Pass? && start.Some? ==> agent == start.value
      ensures res.Pass? && target.Some? ==> goal == target.value
      ensures res.Pass? && start.None? ==> InGrid(noGo, agent) && !noGo[agent.y, agent.x]
      ensures res.Pass? && target.None? ==> InGrid(noGo, goal) && !noGo[goal.y, goal.x]
      ensures res.Pass? ==> agentLog == old(agentLog) + [agent] && targetLog == old(targetLog) + [goal]
      ensures euclideanLog == old(euclideanLog)
    {
      counted := true;
      totalSteps := 0;
      var placed := GenerateLocations(noGo, (blocked: bool) => !blocked, start, target, draws, maxDistance);
      if placed.Err? {
        return Fail(placed.error);
      }
      agent := placed.value.0;
      goal := placed.value.1;
      ready := true;
      agentLog := agentLog + [agent];
      targetLog := targetLog + [goal];
      res := Pass;
    }

    /**
     * `step`: once a `reset` has set the counter, it goes up by one before
     * anything else can fail. The action is looked up next, at
     * Flask/grid_world/envs/grid_world_env_v6.py:398, so an unknown action is
     * a `KeyError` even when a failed `reset` left no locations; then the agent
     * moves as `Moved` says; the Euclidean reward (5, 0 or -5) is logged;
     * the episode is truncated once the counter reaches `max_steps` and
     * terminated within `distance_goal` of the target, where the reward is
     * 100 and otherwise the Euclidean reward less the local cost.
     */
    method Step(action: int) returns (res: Result<StepResult>)
      requires Valid()
      modifies this
      ensures Valid()
      ensures !old(counted) ==> res == Err(AttributeError) && unchanged(this)
      ensures old(counted) ==> counted && ready == old(ready) && totalSteps == old(totalSteps) + 1 && goal == old(goal)
      ensures old(counted) && ActionDirection(action).Err? ==> res == Err(KeyError)
      ensures old(counted) && !old(ready) && ActionDirection(action).Ok? ==> res == Err(AttributeError)
      ensures !old(ready) || ActionDirection(action).Err? ==>
        && agent == old(agent) && agentLog == old(agentLog) && targetLog == old(targetLog)
        && euclideanLog == old(euclideanLog)
      ensures res.Err? ==> res.error == AttributeError || res.error == KeyError || res.error == IndexError
      ensures old(ready) && Moved(local, old(agent), action).Err? ==>
        res == Err(Moved(local, old(agent), action).error) && agent == old(agent) && euclideanLog == old(euclideanLog)
      ensures res.Ok? ==> Moved(local, old(agent), action) == Ok(agent)
      ensures res.Ok? ==> euclideanLog == old(euclideanLog) + [DistanceReward(old(agent), agent, goal, 5)]
      ensures res.Ok? ==> res.value.truncated == (totalSteps >= maxSteps)
      ensures res.Ok? ==> res.value.terminated == WithinGoal(SqDist(agent, goal), distanceGoal)
      ensures res.Ok? && res.value.terminated ==> res.value.reward == 100
      ensures res.Ok? && !res.value.terminated ==>
        At(local, agent).Ok? && res.value.reward == DistanceReward(old(agent), agent, goal, 5) - At(local, agent).value
      ensures res.Ok? ==> agentLog == old(agentLog) + [agent] && targetLog == old(targetLog) + [goal]
    {
      if !counted {
        return Err(AttributeError);
      }
      totalSteps := totalSteps + 1;
      var direction := ActionDirection(action);
      if direction.Err? {
        return Err(KeyError);
      }
      if !ready {
        return Err(AttributeError);
      }
      var moved := Moved(local, agent, action);
      if moved.Err? {
        return Err(moved.error);
      }
      var previous := agent;
      agent := moved.value;
      var euclidean := DistanceReward(previous, agent, goal, 5);
      euclideanLog := euclideanLog + [euclidean];
      var truncated := totalSteps >= maxSteps;
      var terminated := WithinGoal(SqDist(agent, goal), distanceGoal);
      var reward;
      if terminated {
        reward := 100;
      } else {
        var cost := At(local, agent);
        if cost.Err? {
          return Err(cost.error);
        }
        reward := euclidean - cost.value;
      }
      agentLog := agentLog + [agent];
      targetLog := targetLog + [goal];
      res := Ok(StepResult(reward, terminated, truncated));
    }
  }

  /** `__init__`: the environment, or the exception its checks raise. */
  method NewGridWorldV6(config: Option<Config>) returns (res: Result<GridWorldV6>)
    ensures res.Err? <==> Validate(config).Fail?
    ensures res.Err? ==> res.error == Validate(config).error
    ensures res.Ok? ==>
      && fresh(res.value) && !res.value.counted && !res.value.ready && res.value.Valid()
      && res.value.local == config.value.local && res.value.noGo == config.value.noGo
      && res.value.start == config.value.start && res.value.target == config.value.target
      && res.value.maxSteps == config.value.maxSteps && res.value.distanceGoal == config.value.distanceGoal
      && res.value.size == config.value.nationalRows
  {
    var checked := Validate(config);
    if checked.Fail? {
      return Err(checked.error);
    }
    var env := new GridWorldV6(config.value);
    res := Ok(env);
  }
}
