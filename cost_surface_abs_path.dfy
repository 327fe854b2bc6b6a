/**
 * The coordinate conversions of the `CostSurface` in Flask/agent_abs_path.py:
 * a fixed clip of (75, 350) and a square padding of 136.
 */
module AbsPathCostSurface {
  import CostSurfaces

  const PAD_WIDTH: int := 136
  const CLIP_Y: int := 75
  const CLIP_X: int := 350

  /** `to_game_coordiantes`. */
  function ToGame(y: int, x: int): (r: (int, int))
    ensures FromGame(r.0, r.1) == (y, x)
  {
    (y - CLIP_Y + PAD_WIDTH, x - CLIP_X + PAD_WIDTH)
  }

  /** `from_game_coordiantes`. */
  function FromGame(y: int, x: int): (r: (int, int))
    ensures (y - r.0, x - r.1) == (PAD_WIDTH - CLIP_Y, PAD_WIDTH - CLIP_X)
  {
    (y - PAD_WIDTH + CLIP_Y, x - PAD_WIDTH + CLIP_X)
  }

  /** Each conversion undoes the other. */
  lemma GameRoundTrip(y: int, x: int)
    ensures FromGame(ToGame(y, x).0, ToGame(y, x).1) == (y, x)
    ensures ToGame(FromGame(y, x).0, FromGame(y, x).1) == (y, x)
  {
  }

  /** Distinct cells stay distinct, in both directions. */
  lemma ToGameInjective(y1: int, x1: int, y2: int, x2: int)
    ensures ToGame(y1, x1) == ToGame(y2, x2) <==> (y1, x1) == (y2, x2)
    ensures FromGame(y1, x1) == FromGame(y2, x2) <==> (y1, x1) == (y2, x2)
  {
  }

  /** A translation: differences between cells are kept. */
  lemma ToGameKeepsDifferences(y1: int, x1: int, y2: int, x2: int)
    ensures ToGame(y1, x1).0 - ToGame(y2, x2).0 == y1 - y2
    ensures ToGame(y1, x1).1 - ToGame(y2, x2).1 == x1 - x2
  {
  }

  /** The fixed constants are those Flask/agent.py loads for a non-Alaska directory. */
  lemma AgreesWithLower48(y: int, x: int)
    ensures ToGame(y, x) == CostSurfaces.ToGame(CostSurfaces.LOWER48_FRAME, y, x)
    ensures FromGame(y, x) == CostSurfaces.FromGame(CostSurfaces.LOWER48_FRAME, y, x)
  {
  }
}
