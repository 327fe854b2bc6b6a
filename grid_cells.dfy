/**
 * What the gym grid-world environments share: numpy's indexing of a 2-D
 * raster, the king-move action table, circles drawn into observation
 * images, the start/target draw of `generate_locations`, and the slice
 * bounds of a local observation window
 * (Flask/grid_world/envs/grid_world_env_v6.py and grid_world_env_v5.py).
 */
module GridCells {
  import opened Wrappers
  import MctsNode

  type Cell = MctsNode.Loc

  /** A numpy index `i` into an axis of length `n`: negative indices count from the end. */
  function AxisIndex(n: nat, i: int): (r: Result<nat>)
    ensures r.Ok? <==> -(n as int) <= i < n
    ensures r.Ok? ==> r.value < n && (r.value == i || r.value == i + n)
  {
    if 0 <= i < n then Ok(i)
    else if -(n as int) <= i < 0 then Ok(i + n)
    else Err(IndexError)
  }

  /** `a[y, x]` for a numpy array: wrap-around for negative indices, `IndexError` past either end. */
  function At<T>(a: array2<T>, c: Cell): (r: Result<T>)
    reads a
    ensures r.Err? ==> r.error == IndexError
    ensures 0 <= c.y < a.Length0 && 0 <= c.x < a.Length1 ==> r == Ok(a[c.y, c.x])
  {
    match AxisIndex(a.Length0, c.y)
    case Err(e) => Err(e)
    case Ok(y) =>
      match AxisIndex(a.Length1, c.x)
      case Err(e) => Err(e)
      case Ok(x) => Ok(a[y, x])
  }

  /** `_action_to_direction[action]`: a key outside 0..7 raises `KeyError`. */
  function ActionDirection(action: int): (r: Result<Cell>)
    ensures r.Ok? <==> 0 <= action < 8
    ensures r.Ok? ==> MctsNode.KingMove(MctsNode.Loc(0, 0), r.value)
  {
    if 0 <= action < 8 then
      MctsNode.DirectionsAreTheKingMoves(MctsNode.Directions[action]);
      Ok(MctsNode.Directions[action])
    else Err(KeyError)
  }

  /** The eight actions move in eight different directions. */
  lemma ActionsDistinct(a: int, b: int)
    requires 0 <= a < 8 && 0 <= b < 8 && a != b
    ensures ActionDirection(a).value != ActionDirection(b).value
  {
    MctsNode.DirectionsAreTheKingMoves(MctsNode.Loc(0, 0));
  }

  /** Every king move is the direction of some action. */
  lemma ActionsCoverKingMoves(d: Cell)
    requires MctsNode.KingMove(MctsNode.Loc(0, 0), d)
    ensures exists a :: 0 <= a < 8 && ActionDirection(a) == Ok(d)
  {
    MctsNode.DirectionsAreTheKingMoves(d);
    var a :| 0 <= a < 8 && MctsNode.Directions[a] == d;
    assert ActionDirection(a) == Ok(d);
  }

  /**
   * The agent's cell after a step from `agent` by `action`, or the exception
   * the step raises: the move is made exactly when the raster (`local` in
   * v6, the cost surface in v5) reads non-zero at the new cell.
   */
  function Moved(local: array2<int>, agent: Cell, action: int): (r: Result<Cell>)
    reads local
    ensures ActionDirection(action).Err? ==> r == Err(KeyError)
    ensures r.Ok? ==>
      var next := MctsNode.Add(agent, ActionDirection(action).value);
      At(local, next).Ok? &&
      (r.value == next <==> At(local, next).value != 0) &&
      (r.value != next ==> r.value == agent)
    ensures r.Err? ==> r.error == KeyError || r.error == IndexError
  {
    match ActionDirection(action)
    case Err(e) => Err(e)
    case Ok(d) =>
      var next := MctsNode.Add(agent, d);
      MctsNode.DirectionsAreTheKingMoves(d);
      match At(local, next)
      case Err(e) => Err(e)
      case Ok(v) => if v == 0 then Ok(agent) else Ok(next)
  }

  /** A step either stays put or makes one king move. */
  lemma MovedIsKingMoveOrStay(local: array2<int>, agent: Cell, action: int)
    requires Moved(local, agent, action).Ok?
    ensures Moved(local, agent, action).value == agent || MctsNode.KingMove(agent, Moved(local, agent, action).value)
  {
  }

  /** The squared Euclidean distance; `np.sqrt` of it is compared, and `sqrt` is monotone. */
  function SqDist(a: Cell, b: Cell): (d: int)
    ensures d >= 0
    ensures d == 0 <==> a == b
  {
    (a.y - b.y) * (a.y - b.y) + (a.x - b.x) * (a.x - b.x)
  }

  /** `distance <= distance_goal`, with the distance given squared. */
  predicate WithinGoal(sqDist: int, goal: int)
  {
    0 <= goal && sqDist <= goal * goal
  }

  /** The sign reward: `closer` for a step towards the target, 0 for none, `-closer` for one away. */
  function DistanceReward(previous: Cell, current: Cell, target: Cell, closer: int): (r: int)
    ensures SqDist(current, target) < SqDist(previous, target) ==> r == closer
    ensures closer != 0 ==> (r == closer <==> SqDist(current, target) < SqDist(previous, target))
    ensures SqDist(current, target) == SqDist(previous, target) ==> r == 0
    ensures SqDist(current, target) > SqDist(previous, target) ==> r == -closer
  {
    var now := SqDist(current, target);
    var before := SqDist(previous, target);
    if now < before then closer else if now == before then 0 else -closer
  }

  /** Cell `(y, x)` lies strictly inside the circle: `(y-cy)**2 + (x-cx)**2 < radius**2`. */
  predicate InCircle(y: int, x: int, cy: real, cx: real, radius: real)
  {
    (y as real - cy) * (y as real - cy) + (x as real - cx) * (x as real - cx) < radius * radius
  }

  /**
   * `draw_circle`: every pixel strictly inside the circle becomes `ink`
   * (1 in the v6 environment, 255 in v5), every other pixel is left as it
   * was, and the same array is returned.
   */
  method DrawCircle(img: array2<real>, cy: real, cx: real, radius: real, ink: real) returns (r: array2<real>)
    modifies img
    ensures r == img
    ensures forall i, j :: 0 <= i < img.Length0 && 0 <= j < img.Length1 ==>
      img[i, j] == if InCircle(i, j, cy, cx, radius) then ink else old(img[i, j])
  {
    forall i, j | 0 <= i < img.Length0 && 0 <= j < img.Length1 && InCircle(i, j, cy, cx, radius) {
      img[i, j] := ink;
    }
    r := img;
  }

  /** Python `int(v)` for a float: truncation towards zero. */
  function Trunc(v: real): (r: int)
    ensures v >= 0.0 ==> r as real <= v < r as real + 1.0
    ensures v < 0.0 ==> r as real - 1.0 < v <= r as real
  {
    if v >= 0.0 then v.Floor else -((-v).Floor)
  }

  /**
   * The slice `[start:end]` of `_get_local_obs` along one axis: centred on
   * `int(location * resolution)`, `size // 2` before it and `size // 2`
   * after it, plus one more when `size` is odd.
   */
  function Window(location: int, resolution: real, size: nat): (w: (int, int))
    ensures w.1 - w.0 == size
    ensures w.0 == Trunc(location as real * resolution) - size / 2
  {
    var centre := Trunc(location as real * resolution);
    var odd := if size % 2 == 1 then 1 else 0;
    (centre - size / 2, centre + size / 2 + odd)
  }

  /** The lowest and one-past-highest value `rng.integers` may draw for a target coordinate. */
  function TargetRange(start: int, length: nat, maxDistance: int): (int, int)
  {
    (if 0 < start - maxDistance then start - maxDistance else 0,
     if length < start + maxDistance then length else start + maxDistance)
  }

  /**
   * One `rng.integers(lo, hi, 1)[0]`, taken from the supplied draws at
   * position `k`: an empty range is a `ValueError`, running out of draws
   * is `DrawsExhausted`.
   */
  function Draw(draws: seq<nat>, k: nat, lo: int, hi: int): (r: Result<int>)
    ensures r.Ok? ==> lo <= r.value < hi && k < |draws|
    ensures r.Err? ==> (r.error == ValueError <==> hi <= lo)
    ensures r.Err? ==> r.error == ValueError || r.error == DrawsExhausted
  {
    if hi <= lo then Err(ValueError)
    else if k >= |draws| then Err(DrawsExhausted)
    else Ok(lo + draws[k] % (hi - lo))
  }

  predicate InGrid<T>(a: array2<T>, c: Cell)
  {
    0 <= c.y < a.Length0 && 0 <= c.x < a.Length1
  }

  /**
   * `generate_locations`: a given start or target is kept as it is; a
   * missing start is drawn anywhere on the raster, a missing target within
   * `maxDistance` rows and columns of the start, and a draw is retried
   * until it lands on a cell `free` accepts (`not no_go[y, x]` in v6, a
   * value neither -1 nor 0 in v5). The random generator is the sequence
   * `draws`; the source's loop has no bound, so running out of draws is
   * `DrawsExhausted`.
   */
  method GenerateLocations<T>(grid: array2<T>, free: T -> bool, start: Option<Cell>, target: Option<Cell>,
                              draws: seq<nat>, maxDistance: int)
    returns (res: Result<(Cell, Cell)>)
    ensures start.Some? && target.Some? ==> res == Ok((start.value, target.value))
    ensures res.Ok? && start.Some? ==> res.value.0 == start.value
    ensures res.Ok? && target.Some? ==> res.value.1 == target.value
    ensures res.Ok? && start.None? ==> InGrid(grid, res.value.0) && free(grid[res.value.0.y, res.value.0.x])
    ensures res.Ok? && target.None? ==>
      var (s, t) := res.value;
      && InGrid(grid, t) && free(grid[t.y, t.x])
      && TargetRange(s.y, grid.Length0, maxDistance).0 <= t.y < TargetRange(s.y, grid.Length0, maxDistance).1
      && TargetRange(s.x, grid.Length1, maxDistance).0 <= t.x < TargetRange(s.x, grid.Length1, maxDistance).1
    ensures start.None? && (grid.Length0 == 0 || (grid.Length1 == 0 && |draws| > 0)) ==> res == Err(ValueError)
    ensures res.Err? ==> res.error == ValueError || res.error == DrawsExhausted
  {
    var k := 0;
    var s: Cell;
    if start.Some? {
      s := start.value;
    } else {
      while true
        invariant k <= |draws|
        invariant grid.Length1 == 0 ==> k == 0
        decreases |draws| - k
      {
        var y := Draw(draws, k, 0, grid.Length0);
        if y.Err? {
          return Err(y.error);
        }
        var x := Draw(draws, k + 1, 0, grid.Length1);
        if x.Err? {
          return Err(x.error);
        }
        k := k + 2;
        if free(grid[y.value, x.value]) {
          s := MctsNode.Loc(y.value, x.value);
          break;
        }
      }
    }
    if target.Some? {
      return Ok((s, target.value));
    }
    var rows := TargetRange(s.y, grid.Length0, maxDistance);
    var cols := TargetRange(s.x, grid.Length1, maxDistance);
    while true
      invariant k <= |draws|
      decreases |draws| - k
    {
      var y := Draw(draws, k, rows.0, rows.1);
      if y.Err? {
        return Err(y.error);
      }
      var x := Draw(draws, k + 1, cols.0, cols.1);
      if x.Err? {
        return Err(x.error);
      }
      k := k + 2;
      if free(grid[y.value, x.value]) {
        return Ok((s, MctsNode.Loc(y.value, x.value)));
      }
    }
  }
}
