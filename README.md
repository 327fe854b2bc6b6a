# CO2 pipeline routing tool: a verified model of its routing core

This project models, in Dafny, the deterministic core of the CO2 Pipeline
Routing Tool's Python back end, and proves properties of that model.

- **Monte Carlo tree search router** (`Flask/mc_agent.py`). The search tree is an
  arena of nodes (`MctsNode`). `MCTree` (`MctsTree`) is a class whose methods
  select by UCB, expand, back-propagate, run trajectories, choose the next move
  and prune to a new root, all in place. `MCAgent` (`MctsAgent`) builds a forest
  of trees, runs the voting loop and implements the region rule of
  `MLWrapper.route`. The `"yyy,xxx"` location keys and their decoding are in
  `LocationKey`.
- **Raster / game-frame conversions** of the learned-agent wrappers
  (`Flask/agent.py`, `Flask/agent_abs_path.py`): `CostSurfaces` and
  `AbsPathCostSurface`. This includes the Alaska switch of `MLWrapper.route`.
- **The three gym grid worlds**: `GridWorldV6`, `GridWorldV5` and
  `GridWorldCustom`. Each environment is a class with `Reset` and `Step`, plus
  constructor validation. `GridCells` holds what they share: numpy indexing,
  the king-move action table, `draw_circle` on an array, `generate_locations`
  on a supplied random sequence, and the observation-window arithmetic.
- **String helpers**:
  - `get_file_name` and `CleanDatetime` (`LineBuilder`);
  - the report helpers of both report builders (`ReportBuilder`,
    `OldReportBuilder`): integer `PrettyNumber`, field-title sanitising, the
    null filter, `List` de-duplication, the county and state lists, and the
    "Counties by State" table.
- Python exceptions become `Result`/`Outcome` values (`Wrappers`). `Text`
  models the Python string operations used (`str.split`, `str.replace`,
  `str(n)`, `', '.join`) and first-seen de-duplication.

Loops in the source are `while`/`for` loops here, each with invariants. Every
method is proved against pure functions (`Accepted`, `Expanded`, `Backprop`,
`Dedup`, `ReplaceEach`, `Cleaned`, `Moved`, ...), and the properties of those
functions are proved as lemmas.

## Model

| member | source | states |
|---|---|---|
| LocationKey.DecodeEncode | Flask/mc_agent.py:322-329 | decoding the `zfill(3)` key of any cell `(y, x)` by `split(',')` and `int` gives back `Ok((y, x))` |
| LocationKey.EncodeInjective | Flask/mc_agent.py:178-179 | two cells have the same key iff they are the same cell |
| LocationKey.KeyExample | Flask/mc_agent.py:178-179 | the key of `(7, 42)` is `"007,042"` |
| LocationKey.Encode | Flask/mc_agent.py:178-179 | the key splits at commas into exactly its two `zfill(3)` fields; `DecodeEncode` and `EncodeInjective` state the round trip and injectivity |
| LocationKey.Decode | Flask/mc_agent.py:329 | only `ValueError` and `IndexError` are raised; a decoded pair comes from the first two comma-separated fields parsed by `int` |
| MctsNode.KeyInjective | Flask/mc_agent.py:178-179 | node keys are equal iff the locations are equal |
| MctsNode.KeysMembership | Flask/mc_agent.py:182-183 | a key is in the path dict iff its cell is in the node's path set |
| MctsNode.DirectionsAreTheKingMoves | Flask/mc_agent.py:127-136 | the direction table is duplicate-free and holds exactly the 8 king moves |
| MctsNode.AcceptedSound | Flask/mc_agent.py:175-189 | every expansion candidate is a king move from the node, off its path, and not a `-1` cell; there are at most 8 |
| MctsNode.AcceptedComplete | Flask/mc_agent.py:175-189 | a direction's cell is a candidate iff it is off the path and its surface value is not `-1` |
| MctsNode.AcceptedDistinct | Flask/mc_agent.py:175-200 | `expand` never creates two children on the same cell |
| MctsNode.Accepted | Flask/mc_agent.py:175-189 | the candidate cells of `expand` lie on the raster; `AcceptedSound`, `AcceptedComplete` and `AcceptedDistinct` state which cells they are |
| MctsNode.ChildReward | Flask/mc_agent.py:191-196 | a child on the target gets 100; elsewhere, a non-negative cost can only lower the reward below the Euclidean term; `ExpandedChildren` ties it to each new child |
| MctsNode.Expanded | Flask/mc_agent.py:173-205 | the expanded arena keeps every other node. It appends one child per candidate, adds their indices to the node's children, and sets the node's value to the mean child reward |
| MctsNode.ExpandedChildren | Flask/mc_agent.py:173-205 | there are 1 to 8 new children. Each is a fresh leaf one king move away, on a traversable cell off the parent's path, whose path is the parent's plus its own cell; a child on the target has reward 100 |
| MctsNode.ExpandedWellFormed | Flask/mc_agent.py:182-183 | expansion preserves the tree invariant (each child's path is its parent's plus a new cell) |
| MctsNode.AncestorsBelow | Flask/mc_agent.py:207-211 | every strict ancestor has a smaller index, so the parent chain ends |
| MctsNode.Pulled | Flask/mc_agent.py:208 | one back-propagation step changes only the parent's value; the shape and all selection counts stay the same |
| MctsNode.BackpropSelections | Flask/mc_agent.py:207-211 | back-propagation adds one selection to exactly the strict ancestors below the root |
| MctsNode.BackpropFrame | Flask/mc_agent.py:207-211 | back-propagation changes no node outside the strict ancestors |
| MctsNode.Backprop | Flask/mc_agent.py:207-211 | back-propagation keeps the arena's shape; `BackpropSelections` and `BackpropFrame` state which counts and values change |
| MctsNode.DescentLinks | Flask/mc_agent.py:263-266 | along a descent from the root, each step goes to a child whose parent link points back, and no step goes above the root |
| MctsNode.DescentAncestry | Flask/mc_agent.py:207-211 | the ancestors of a descent's last node are exactly the earlier trail nodes; the lifted ones are those other than the root |
| MctsNode.DescentCells | Flask/mc_agent.py:198-200 | a node's path is the root's path plus the cells of the descent to it |
| MctsNode.DescentPath | Flask/mc_agent.py:182-183 | no cell repeats along a descent, and none below the root is on the root's path |
| MctsNode.ReRootWellFormed | Flask/mc_agent.py:248-250 | making a root child the root, with no parent, keeps the tree invariant |
| MctsNode.TraverseIgnoresParents | Flask/mc_agent.py:222-226 | `traverse` does not depend on parent links, so re-rooting leaves it unchanged |
| MctsNode.TraverseOffPath | Flask/mc_agent.py:222-226 | `traverse` starts at the node itself, and the rest of it is off the node's path |
| MctsNode.ReRootForgetsOldRoot | Flask/mc_agent.py:248-250 | after re-rooting at a child, the old root's cell is not in the traversal |
| MctsNode.Traverse | Flask/mc_agent.py:222-226 | the traversal starts with the node's own cell; `TraverseOffPath`, `TraverseIgnoresParents` and `ReRootForgetsOldRoot` state the rest |
| MctsTree.Scores | Flask/mc_agent.py:163-164 | one UCB score per child, in child order |
| MctsTree.FirstBestUnique | Flask/mc_agent.py:166-168 | a strict `>` scan has exactly one first-best position |
| MctsTree.Bump | Flask/mc_agent.py:259 | a bump adds one selection to one node and changes nothing else |
| MctsTree.WalkedStep | Flask/mc_agent.py:263-270 | one more `select` step from a non-target node extends the walked trail |
| MctsTree.AncestorsCountedFromSelections | Flask/mc_agent.py:208 | every strict ancestor reached has a positive selection count, so the division always has divisor at least 1 |
| MctsTree.TrailCounted | Flask/mc_agent.py:207-211 | before back-propagation, all ancestors of the trail's end are counted |
| MctsTree.TrailSelections | Flask/mc_agent.py:258-278 | one trajectory adds exactly one selection to every node of its trail, none to any other node, and zero to new children |
| MctsTree.TrailBumps | Flask/mc_agent.py:259 | the counted nodes are the lifted ancestors of the end plus the end and the root |
| MctsTree.ExpandedCells | Flask/mc_agent.py:185-189 | new children sit on interior, traversable cells |
| MctsTree.MCTree.constructor | Flask/mc_agent.py:216-220 | a new tree holds only the root at `start`, whose path is `{start}` |
| MctsTree.MCTree.Select | Flask/mc_agent.py:157-170 | no child gives `None`; otherwise the result is the first child with the highest UCB score |
| MctsTree.MCTree.Candidates | Flask/mc_agent.py:175-201 | the loop over the 8 directions builds exactly the children and rewards given by `Kids` for the accepted cells |
| MctsTree.MCTree.Expand | Flask/mc_agent.py:173-205 | no candidate gives `ValueError`, with every node but the leaf unchanged and the leaf unchanged except for its value (the source has just set it to the mean of no rewards); otherwise the arena becomes `Expanded`, and the tree invariant holds |
| MctsTree.MCTree.Backpropagate | Flask/mc_agent.py:207-211 | the arena becomes `Backprop(old, i)` |
| MctsTree.MCTree.Descend | Flask/mc_agent.py:260-270 | the node reached ends a trail that picks the first-best child at each step, stopping at a leaf or right after stepping onto the target |
| MctsTree.MCTree.Credit | Flask/mc_agent.py:276-278 | exactly the lifted ancestors and the node itself count one more selection |
| MctsTree.MCTree.Settle | Flask/mc_agent.py:272-278 | the end of a trajectory expands unless at the target, then credits the trail; its failures are those of `Expand` |
| MctsTree.MCTree.Trajectory | Flask/mc_agent.py:258-278 | one trajectory adds one selection to each trail node and to nothing else, and keeps the tree invariant |
| MctsTree.MCTree.Search | Flask/mc_agent.py:252-295 | `search` adds `num_trajectories` selections to the root, keeps the invariant, returns the `NextChoice` child, and fails only with `ValueError` |
| MctsTree.MCTree.ChooseNext | Flask/mc_agent.py:280-295 | the first child at the target, else the first child with the strictly highest positive selection count, else none |
| MctsTree.NextChoice | Flask/mc_agent.py:280-295 | a chosen child is one of the root's children; `NextChoiceUnique` shows the choice is determined, and `ChooseNext` computes it |
| MctsTree.NextChoiceUnique | Flask/mc_agent.py:280-295 | `search` has at most one answer: two choices that both satisfy `NextChoice` are equal |
| MctsTree.MCTree.FindChild | Flask/mc_agent.py:231-237 | the first root child whose key equals the given key, or the child count when none does |
| MctsTree.MCTree.Prune | Flask/mc_agent.py:228-250 | the first child with the key becomes the root with no parent. No match gives `ValueError`, a target child gives `AssertionError`, and a failure changes nothing. The invariant holds and the old root leaves the traversal |
| MctsAgent.CountVotes | Flask/mc_agent.py:319-325 | the vote dict in insertion order: the distinct keys in first-seen order, each with its exact count |
| MctsAgent.FirstMax | Flask/mc_agent.py:328 | `max(votes, key=votes.get)` gives the first of the largest counts; an empty dict gives `ValueError` |
| MctsAgent.TallyWinner | Flask/mc_agent.py:319-328 | the first-largest tally entry wins the ballot: it has the most votes and, among ties, was voted for first |
| MctsAgent.MapWinner | Flask/mc_agent.py:322-328 | voting by injective key picks the same cell as voting by cell |
| MctsAgent.Linspace | Flask/mc_agent.py:306 | `n` evenly spaced values from `lo` to `hi` |
| MctsAgent.ConstantsCover | Flask/mc_agent.py:305-308 | more than one worker gets `n` constants from 0 to 5; otherwise the constants are `[sqrt(2)]` |
| MctsAgent.NewAgentAsWritten | Flask/mc_agent.py:299-308 | `num_workers=None` raises `TypeError`; a given count is kept and gets its constants |
| MctsAgent.DefaultWorkersFail | Flask/mc_agent.py:302-305 | the default worker count always fails as written |
| MctsAgent.NewAgent | Flask/mc_agent.py:299-308 | corrected: the worker count is the given one or `cpu_count // 2`, with constants chosen by it |
| MctsAgent.NewAgentCorrected | Flask/mc_agent.py:299-308 | the corrected constructor agrees with the original whenever a count is given |
| MctsAgent.TwoWorkers | Flask/mc_agent.py:305-306 | two workers get exactly the constants `[0, 5]` |
| MctsAgent.ChoiceIsGoodMove | Flask/mc_agent.py:284-295 | a chosen child is a king move off the route's end onto an unvisited, not no-go cell |
| MctsAgent.SearchTree | Flask/mc_agent.py:315-318 | each tree's search keeps it in step with the route, hands back exactly the `NextChoice` child of its root (a target child, else the first most-selected child), and that child is a good move |
| MctsAgent.SearchAll | Flask/mc_agent.py:315-326 | the `zip`-many trees search in order and all stay in step with the route. The ballot is `Polled`: vote `k` is the cell of the `NextChoice` child of tree `k`'s root, recorded against that tree's arena as it stands after `tree.root = root`, and each vote is a move off the route. The only failures are `ValueError` and `AttributeError` |
| MctsAgent.SearchEach | Flask/mc_agent.py:315-318 | each of the first `m` trees searches once, in order; every answer is that tree's `NextChoice`, a good move when present; a failed search is `ValueError` |
| MctsAgent.Collect | Flask/mc_agent.py:321-326 | `node.location` of a missing choice raises `AttributeError` exactly when some tree chose nothing; otherwise the ballot holds, in tree order, the cell of each tree's chosen child |
| MctsAgent.Elect | Flask/mc_agent.py:319-329 | an empty ballot makes `max` raise `ValueError` and nothing else fails; otherwise the tally's first-largest key decodes to the ballot `Winner`, returned with that key |
| MctsAgent.WinningCell | Flask/mc_agent.py:319-329 | the first-largest key of the vote dict is the key of a ballot cell that decodes back to it and wins the ballot |
| MctsAgent.PruneTree | Flask/mc_agent.py:339-340 | pruning one tree to the appended cell keeps it in step with the longer route |
| MctsAgent.PruneAll | Flask/mc_agent.py:339-340 | every tree is pruned to the appended cell; a missing child gives `ValueError` |
| MctsAgent.Plant | Flask/mc_agent.py:311 | `num_workers` fresh, distinct trees rooted at `start` |
| MctsAgent.Round | Flask/mc_agent.py:314-330 | one voting round returns the ballot winner with its key. The ballot is `Polled` as for `SearchAll`: one vote per voting tree, each the cell of that tree's `NextChoice` child, each a king move onto an unvisited cell |
| MctsAgent.Route | Flask/mc_agent.py:310-342 | the route starts at `start`, moves by king moves onto unvisited, not no-go cells, and has at most `max_steps + 1` cells. A shorter route ends at the target. Each step elects the winner of a ballot, and every ballot is `Searched`: its votes are the `NextChoice` children of trees rooted at that step's cell. `Pool(0)` gives `ValueError` |
| MctsAgent.RouteGrows | Flask/mc_agent.py:328-330 | appending a ballot winner of moves off the route extends the walk and its election |
| MctsAgent.SearchedGrows | Flask/mc_agent.py:321-330 | a round's ballot, cast from the route's last cell, extends the record of searched ballots as the route grows |
| MctsAgent.RoundGrows | Flask/mc_agent.py:321-330 | appending the winner of a polled ballot keeps the route a walk, every step elected and every ballot cast by searches |
| MctsAgent.RegionOf | Flask/mc_agent.py:360-366 | Alaska iff both rows are < 275; lower 48 iff the start row is >= 275 and the target row is > 275; otherwise `AssertionError` |
| MctsAgent.Row275Rejected | Flask/mc_agent.py:360-366 | a target on row 275 is always rejected |
| MctsAgent.WrapperRoute | Flask/mc_agent.py:352-373 | a region failure gives `AssertionError`; otherwise the result is a valid walk of at most 1001 cells, ending at the target if shorter |
| CostSurfaces.Contains | Flask/agent.py:50 | `sub in s` iff `sub` occurs at some index |
| CostSurfaces.ToGame | Flask/agent.py:71-81 | `from_game` undoes `to_game` for any frame |
| CostSurfaces.GameRoundTrip | Flask/agent.py:71-94 | the two conversions undo each other in both orders |
| CostSurfaces.ToGameShift | Flask/agent.py:71-81 | `to_game` shifts by `pad_width - clip` on each axis |
| CostSurfaces.FromGame | Flask/agent.py:84-94 | `from_game` moves a cell by the fixed offset `clip - pad_width` on each axis; `GameRoundTrip` states it undoes `to_game` in both orders |
| CostSurfaces.CostSurface.constructor | Flask/agent.py:36-39 | observation size 112, regional ratio `6/3` = 2.0, national ratio 6, nothing loaded |
| CostSurfaces.CostSurface.LoadRasters | Flask/agent.py:41-57 | `None` gives `AssertionError` and no change. Otherwise `alaska` holds iff the name contains `AL`, with frame `(211,161)/(0,0)` for Alaska and `(136,136)/(75,350)` for the rest |
| CostSurfaces.MlWrapper.constructor | Flask/agent.py:183-185 | the surface is loaded from the given directory |
| CostSurfaces.MlWrapper.Route | Flask/agent.py:190-196 | corrected: a start in the Alaska box needs a target in the box (else `AssertionError` and no change) and switches to the Alaska frame; both cells are converted by the loaded frame |
| CostSurfaces.AlaskaDirIsAlaska | Flask/agent.py:50-53 | the Alaska directory name selects the Alaska frame |
| CostSurfaces.DefaultDirIsLower48 | Flask/agent.py:50-57 | the default directory name selects the lower-48 frame |
| CostSurfaces.AlaskaTargetAsWrittenIgnoresColumn | Flask/agent.py:193 | the written target test reduces to `row < 250` |
| CostSurfaces.AlaskaTargetAsWrittenAdmitsEast | Flask/agent.py:192-193 | the written test admits a target in the Alaska rows but east of the box |
| AbsPathCostSurface.ToGame | Flask/agent_abs_path.py:87-97 | `from_game` undoes `to_game` |
| AbsPathCostSurface.GameRoundTrip | Flask/agent_abs_path.py:87-110 | the conversions undo each other in both orders |
| AbsPathCostSurface.ToGameInjective | Flask/agent_abs_path.py:87-110 | both conversions map distinct cells to distinct cells |
| AbsPathCostSurface.ToGameKeepsDifferences | Flask/agent_abs_path.py:87-97 | differences between cells are preserved |
| AbsPathCostSurface.FromGame | Flask/agent_abs_path.py:100-110 | `from_game` moves a cell by the fixed offset `(75, 350) - pad_width`; `GameRoundTrip` and `ToGameInjective` state the inverse and injectivity |
| AbsPathCostSurface.AgreesWithLower48 | Flask/agent_abs_path.py:61-110 | the fixed constants give the same conversions as the lower-48 frame of `Flask/agent.py` |
| GridCells.AxisIndex | Flask/grid_world/envs/grid_world_env_v6.py:402 | a numpy index is valid iff `-n <= i < n`, and a negative one counts from the end |
| GridCells.At | Flask/grid_world/envs/grid_world_env_v6.py:402 | array reads raise only `IndexError` and agree with the array in range |
| GridCells.ActionDirection | Flask/grid_world/envs/grid_world_env_v6.py:181-190 | keys 0..7 give a king move; any other key gives `KeyError` |
| GridCells.ActionsDistinct | Flask/grid_world/envs/grid_world_env_v6.py:181-190 | the 8 actions are 8 different moves |
| GridCells.ActionsCoverKingMoves | Flask/grid_world/envs/grid_world_env_v6.py:181-190 | every king move is some action |
| GridCells.Moved | Flask/grid_world/envs/grid_world_env_v6.py:398-409 | the agent moves by the action's vector iff the raster at the new cell is non-zero, else stays; a bad action gives `KeyError`, a bad index gives `IndexError` |
| GridCells.MovedIsKingMoveOrStay | Flask/grid_world/envs/grid_world_env_v5.py:419-428 | a step either stays put or makes one king move |
| GridCells.SqDist | Flask/grid_world/envs/grid_world_env_v6.py:424-425 | the squared distance is non-negative and zero iff the cells coincide |
| GridCells.DistanceReward | Flask/grid_world/envs/grid_world_env_v6.py:427-432 | `+closer` if nearer, 0 if equal, `-closer` if farther; for a non-zero `closer`, the reward is `+closer` only when nearer |
| GridCells.DrawCircle | Flask/grid_world/envs/grid_world_env_v6.py:43-51 | pixels strictly inside the circle become the ink, others are unchanged, and the same array is returned. The v5 copy at `Flask/grid_world/envs/grid_world_env_v5.py:96-104` is the same, with ink 255. |
| GridCells.Trunc | Flask/grid_world/envs/grid_world_env_v6.py:222 | `int(v)` truncates toward zero |
| GridCells.Window | Flask/grid_world/envs/grid_world_env_v6.py:210-227 | the slice has exactly `size` cells for odd and even sizes, starting `size // 2` before the centre. The v5 windows at `Flask/grid_world/envs/grid_world_env_v5.py:244-257` use the same arithmetic. |
| GridCells.Draw | Flask/grid_world/envs/grid_world_env_v6.py:17-18 | a draw lies in `[lo, hi)`; an empty range gives `ValueError` |
| GridCells.GenerateLocations | Flask/grid_world/envs/grid_world_env_v6.py:13-41 | given cells are kept; a drawn start is a free cell on the grid; a drawn target is free and within `max_distance` of the start. The v5 copy at `Flask/grid_world/envs/grid_world_env_v5.py:57-94` is the same, with `free` meaning neither -1 nor 0. |
| GridWorldV6.Validate | Flask/grid_world/envs/grid_world_env_v6.py:74-124 | `None` gives `ValueError`. A configuration passes iff both shape ratios have non-zero divisors, start and target are readable and off `no_go`, and the render mode is known. With valid shapes, a start on `no_go` gives `ValueError`, and after it a target on `no_go` |
| GridWorldV6.CheckFree | Flask/grid_world/envs/grid_world_env_v6.py:120-124 | a location passes iff it is absent or readable and not `no_go`; `ValueError` iff it reads `True` |
| GridWorldV6.GridWorldV6.constructor | Flask/grid_world/envs/grid_world_env_v6.py:97-111 | the fields are those of the configuration; no `reset` has run, so neither the counter nor the locations exist; the logs are empty |
| GridWorldV6.GridWorldV6.Reset | Flask/grid_world/envs/grid_world_env_v6.py:330-356 | the counter restarts even when drawing the locations then fails; given cells are kept; drawn ones are off `no_go`; both are logged |
| GridWorldV6.GridWorldV6.Step | Flask/grid_world/envs/grid_world_env_v6.py:390-453 | before any `reset` there is no counter and the result is `AttributeError` with no change. Otherwise the counter goes up by 1 first; then an unknown action is `KeyError`, and a known one with no locations (only failed resets) is `AttributeError`. Otherwise the move is `Moved`, and the reward 5/0/-5 is logged. `truncated` iff the counter is `>= max_steps`; `terminated` iff within `distance_goal`, with reward 100, else the Euclidean reward minus the local cost |
| GridWorldV6.NewGridWorldV6 | Flask/grid_world/envs/grid_world_env_v6.py:69-193 | construction fails iff validation fails, with the same exception |
| GridWorldV5.CheckInside | Flask/grid_world/envs/grid_world_env_v5.py:161-165 | a location passes iff it is absent or readable with non-zero cost; `ValueError` iff the cost is 0 |
| GridWorldV5.GridWorldV5.constructor | Flask/grid_world/envs/grid_world_env_v5.py:148-154 | the fields are the arguments; nothing is logged |
| GridWorldV5.GridWorldV5.Reset | Flask/grid_world/envs/grid_world_env_v5.py:355-380 | given cells are kept; drawn ones are neither -1 nor 0 on the original surface |
| GridWorldV5.GridWorldV5.Step | Flask/grid_world/envs/grid_world_env_v5.py:414-478 | an unknown action is `KeyError` whether or not the world was reset; a known action before `reset` is `AttributeError`; both change nothing. Otherwise the move is `Moved` on the surface, and the episode is never truncated. `terminated` iff within `distance_goal`, with reward 100, else `-cost*2/255 - 1` |
| GridWorldV5.AliasedRewardIsZero | Flask/grid_world/envs/grid_world_env_v5.py:428-453 | with the previous location read after the move, the Euclidean reward is 0 |
| GridWorldV5.NewGridWorldV5 | Flask/grid_world/envs/grid_world_env_v5.py:122-225 | non-square gives `Warning` and no change. A start, then a target, that fails the check gives `ValueError` iff its cost is 0, and no change. Success holds iff the surface is square and non-empty, both cells pass, `size > 0` and the render mode is known. A zero `size` fails inside `resize`, with an exception whose kind is left open (`LibraryError`). On success `no_go` is a fresh copy of the original, and every -1 of the caller's array is now 255 |
| GridWorldV5.CopySurface | Flask/grid_world/envs/grid_world_env_v5.py:168 | a fresh array equal to the surface |
| GridWorldV5.ReplaceNoGo | Flask/grid_world/envs/grid_world_env_v5.py:171 | exactly the -1 cells become 255 |
| GridWorldCustom.ActionDirection | Flask/custom_environments_2/envs/grid_world.py:94-99 | keys 0..3 give non-zero axis moves; other keys give `KeyError` |
| GridWorldCustom.ActionsDistinct | Flask/custom_environments_2/envs/grid_world.py:94-99 | the 4 actions are 4 different moves |
| GridWorldCustom.OneHot | Flask/custom_environments_2/envs/grid_world.py:25-31 | an `h` by `w` layer with a single 1, at the cell |
| GridWorldCustom.OneHotInjective | Flask/custom_environments_2/envs/grid_world.py:33 | two layers are equal iff their cells are |
| GridWorldCustom.GenerateGrid | Flask/custom_environments_2/envs/grid_world.py:13-40 | the start and end cells differ and are on the grid, and the end cell's value is 0; an empty range gives `ValueError` |
| GridWorldCustom.OutOfBounds | Flask/custom_environments_2/envs/grid_world.py:217-220 | -10 iff the move passes the last row or column; moving below 0 costs nothing |
| GridWorldCustom.Clipped | Flask/custom_environments_2/envs/grid_world.py:223-225 | the clipped cell is on the grid, and equals the unclipped move when that is |
| GridWorldCustom.GridWorld.constructor | Flask/custom_environments_2/envs/grid_world.py:61-64 | the shape is kept; not reset yet |
| GridWorldCustom.GridWorld.Reset | Flask/custom_environments_2/envs/grid_world.py:159-196 | a fresh grid with agent != goal, goal value 0, and `current` the start's layer |
| GridWorldCustom.GridWorld.Step | Flask/custom_environments_2/envs/grid_world.py:210-256 | an unknown action is `KeyError` whether or not the world was reset; a known action before `reset` is `AttributeError`; both change nothing. Otherwise the agent is the clipped move, `current` is its one-hot layer, `terminated` iff at the target with reward 100, never truncated |
| GridWorldCustom.NewGridWorld | Flask/custom_environments_2/envs/grid_world.py:61-102 | `AssertionError` iff the render mode is unknown |
| LineBuilder.LastIndex | Flask/line_builder.py:14-15 | the index of the last occurrence, with none after it, or -1 |
| LineBuilder.GetFileName | Flask/line_builder.py:11-16 | the result has no `\`. It is the last `\` segment without its final `.` suffix, or the whole segment when the segment has no `.` |
| LineBuilder.CleanDatetime | Flask/line_builder.py:18-32 | the loop computes `Cleaned` |
| LineBuilder.CleanedChars | Flask/line_builder.py:26-30 | the length is the index of the first `.`; each kept character is replaced one for one |
| LineBuilder.CleanedHasNoSeparators | Flask/line_builder.py:25-32 | no `' '`, `'-'`, `':'` or `'.'` remains |
| LineBuilder.CleanedIdempotent | Flask/line_builder.py:18-32 | cleaning twice is cleaning once |
| LineBuilder.CleanedTimestamp | Flask/line_builder.py:25-30 | `2024-01-02 03:04:05.123456` becomes `2024_01_02_03_04_05` |
| ReportBuilder.GroupedRemoveCommas | Flask/report_builder/report_builder.py:168-169 | removing the commas of a grouping gives the digits back |
| ReportBuilder.GroupedPieces | Flask/report_builder/report_builder.py:168-169 | the first comma group has 1 to 3 digits, every other group exactly 3 |
| ReportBuilder.PrettyIntRemoveCommas | Flask/report_builder/report_builder.py:168-169 | removing the commas of `f'{n:,}'` gives `str(n)`, negatives included |
| ReportBuilder.PrettyNumber | Flask/report_builder/report_builder.py:160-174 | an int is grouped with commas; a float is handed to rounding; anything else (including `bool`) is returned unchanged. The older `PrettyNumber` at `Flask/report_builder/report_builder_new_wrong_gdal.py:138-150` is the same function. |
| ReportBuilder.PrettyMillion | Flask/report_builder/report_builder.py:168-169 | `1234567` becomes `1,234,567` |
| ReportBuilder.SanitiseTitle | Flask/report_builder/report_builder.py:414-417 | the loop computes the replacements of all `replacers`. The older loop at `Flask/report_builder/report_builder_new_wrong_gdal.py:361-363` is the same, with the same `replacers` (line 26). |
| ReportBuilder.SanitisedChars | Flask/report_builder/report_builder.py:34 | the length is kept, each replacer becomes `_`, all else is unchanged, and no replacer is left |
| ReportBuilder.NonNull | Flask/report_builder/report_builder.py:477 | a value is kept iff it is non-null, with its multiplicity; null values are gone. The older filter at `Flask/report_builder/report_builder_new_wrong_gdal.py:423` is the same test, with the same `null_list` (line 319). |
| ReportBuilder.NonNullAppend | Flask/report_builder/report_builder.py:477 | the filter keeps the list's order: filtering a concatenation concatenates the filtered parts |
| ReportBuilder.NonNullSnoc | Flask/report_builder/report_builder.py:477 | appending a value appends it to the filtered list exactly when it is not null |
| ReportBuilder.NonNullSingle | Flask/report_builder/report_builder.py:477 | a one-value list keeps its value iff it is not null |
| ReportBuilder.NullExamples | Flask/report_builder/report_builder.py:380 | `0`, `'nan'`, `None` and `0.0` are null; `'0.5'`, `7` and `False` are not |
| ReportBuilder.UniqueListValues | Flask/report_builder/report_builder.py:567-575 | `TypeError` iff some value is not a string; otherwise the first-seen de-duplication of all pieces of the values split at the pipe character. The older `List` loop at `Flask/report_builder/report_builder_new_wrong_gdal.py:514-522` is the same |
| ReportBuilder.UniqueListProperties | Flask/report_builder/report_builder.py:567-575 | the list is duplicate-free, has exactly the pieces, and keeps first-seen order |
| ReportBuilder.PiecesCover | Flask/report_builder/report_builder.py:569-570 | every pipe-separated piece of every value is among the pieces |
| ReportBuilder.CountiesAndStates | Flask/report_builder/report_builder.py:605-610 | counties are de-duplicated in first-seen order; each is paired with the state of its first tract. The older loop at `Flask/report_builder/report_builder_new_wrong_gdal.py:549-554` is the same. |
| ReportBuilder.CountiesOrder | Flask/report_builder/report_builder.py:605-610 | counties are distinct and ordered by their first tract |
| ReportBuilder.CountiesOf | Flask/report_builder/report_builder.py:653-656 | a state's counties are counties of the list |
| ReportBuilder.StateTable | Flask/report_builder/report_builder.py:649-659 | one row per state, listing in order the counties paired with it |
| ReportBuilder.CountyInOneRow | Flask/report_builder/report_builder.py:649-659 | for distinct counties, each one is in its own state's row and in no other |
| OldReportBuilder.OldStateTableAsWritten | Flask/report_builder/report_builder_new_wrong_gdal.py:592-603 | as written: every state's row lists all counties |
| OldReportBuilder.OldTableMixesStates | Flask/report_builder/report_builder_new_wrong_gdal.py:596-601 | for counties A, B in states S1, S2, the older table puts `A, B` under S1, where the corrected one has `A` |
| OldReportBuilder.SingleStateAgrees | Flask/report_builder/report_builder_new_wrong_gdal.py:596-601 | on a single-state route, the corrected row lists every county, as the older one does |

## Left out

- I/O is not modelled: `np.load` of the rasters, the Flask endpoints, PDF writing, CSV codec retries, shapefile output, and printing.
- Rendering is not modelled: pygame frames and the `visualize`/`plot_path` plots.
- The observation images are not modelled: `_get_obs`, channel stacking and `skimage` `resize`. The observation windows are modelled only through their slice bounds `Window`. The broadcast error numpy raises for a window cut off at the raster edge is not modelled.
- Floating point: the UCB exploration term and `np.sqrt` distances are abstract parameters (`Scoring`). Value updates, means and `np.linspace` use exact `real` arithmetic, not IEEE doubles. The root's `reward=None` is stored as 0.0 and is never read.
- `multiprocessing.Pool` runs the searches one after another in forest order. `starmap` keeps that order and the trees share nothing.
- Indexing in `expand` is unchecked. The model requires every traversable cell to have all 8 neighbours on the raster (`Fenced`), instead of modelling numpy wrap-around there.
- MctsTree.MCTree.Expand: requires a leaf, which is the only way `search` calls it.
- MctsTree.MCTree.Expand: with no candidate, the source sets the leaf's value to the mean of no rewards (`nan`) before raising. Reals have no `nan`, so the contract leaves that one value unspecified.
- MctsAgent.WrapperRoute: returns the path once. The source returns `(lucy_path, path)`, the same list twice.
- `traverse` calls `node.location.tolist()`. On a root built by `route`, whose location is a Python list, that raises `AttributeError`. `route` never calls `traverse`, so `MctsNode.Traverse` models it on cells whatever their container.
- MctsTree.MCTree.Prune: only the string-key form is modelled. The `Node` argument branch is not reachable from `route`.
- Random number generators are not modelled: draws come from a supplied sequence. Running out of it is `DrawsExhausted`, where the source would draw forever. Normal noise comes from a supplied array.
- GridCells.GenerateLocations: the `ValueError` for an empty axis is stated only for an empty row axis, or an empty column axis with draws left.
- Float reward formulas: the custom environment's shaped reward is returned by its components (`Shaped`). The v5 cost reward uses exact reals.
- The v5 constructor's branch that loads a surface from a file path is not modelled.
- GridWorldV5.NewGridWorldV5: with `size == 0` the failure comes from inside skimage's `resize` to a `(0, 0)` shape, which is not modelled. The model states only that construction fails (`LibraryError`), not which exception is raised.
- The float branch of `PrettyNumber` (`round(value, 2)` and its formatting) is not modelled: the result carries the float's text.
- `str` of a float is represented by the text it carries.
- `list(set(states))` and the `sort` of the older table have no fixed order. The tables are compared as sets, and the states are enumerated in first-seen order, which gives the same set.
- `Flask/base.py`, `Flask/rout.py`, the GDAL coordinate transforms, the learned policy (`PPOAgent`, torch) and the UI are not part of this model.

## Findings

| source | as written | input that shows it | evidently intended | confidence | as-written member | corrected member |
|---|---|---|---|---|---|---|
| Flask/mc_agent.py:302-305 | `num_workers > 1` tests the argument, not `self.num_workers` | `MCAgent(trajectories=100)` (default `None`) raises `TypeError` | test the defaulted count `cpu_count()//2` | high (not executed) | MctsAgent.DefaultWorkersFail | MctsAgent.NewAgent |
| Flask/agent.py:193 | `target[0]<250 and target[0]<350` reads the row twice | start (100, 100), target (100, 600): the check passes and the Alaska raster is loaded for a target outside it | `target[0]<250 and target[1]<350` | high (not executed) | CostSurfaces.AlaskaTargetAsWrittenAdmitsEast | CostSurfaces.MlWrapper.Route |
| Flask/report_builder/report_builder_new_wrong_gdal.py:594-601 | `c_i` moves once per state over the de-duplicated `states`, so `s == states[c_i]` always holds | counties A, B in states S1, S2: row S1 lists `A, B` | `c_i` counts counties over the original pairing, as in Flask/report_builder/report_builder.py:651-657 | high (not executed) | OldReportBuilder.OldTableMixesStates | ReportBuilder.StateTable |
