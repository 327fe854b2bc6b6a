/**
 * `CostSurface` and the Alaska switch of `MLWrapper.route` from
 * Flask/agent.py: the raster set chosen by directory name, and the shift
 * between raster cells and the padded "game" frame the learned agent sees.
 */
module CostSurfaces {
  import opened Wrappers

  /** `sub` starts at index `i` of `s`. */
  predicate OccursAt(s: string, sub: string, i: int)
  {
    0 <= i <= |s| - |sub| && s[i..i + |sub|] == sub
  }

  /** Python `sub in s` for strings, scanning from the left. */
  function Contains(s: string, sub: string): (r: bool)
    ensures r <==> exists i :: OccursAt(s, sub, i)
    decreases |s|
  {
    if |s| < |sub| then false
    else if s[..|sub|] == sub then assert OccursAt(s, sub, 0); true
    else
      var r := Contains(s[1..], sub);
      ShiftOccurs(s, sub);
      r
  }

  lemma ShiftOccurs(s: string, sub: string)
    requires |s| >= |sub| && s[..|sub|] != sub
    ensures (exists i :: OccursAt(s[1..], sub, i)) <==> (exists i :: OccursAt(s, sub, i))
  {
    assert forall i :: OccursAt(s[1..], sub, i) <==> OccursAt(s, sub, i + 1) by {
      forall i
        ensures OccursAt(s[1..], sub, i) <==> OccursAt(s, sub, i + 1)
      {
        if 0 <= i <= |s| - 1 - |sub| {
          assert s[1..][i..i + |sub|] == s[i + 1..i + 1 + |sub|];
        }
      }
    }
    if exists i :: OccursAt(s, sub, i) {
      var i :| OccursAt(s, sub, i);
      assert i != 0;
      assert OccursAt(s[1..], sub, i - 1);
    }
  }

  /** The offsets between the two frames: `pad_width` and `clip`, each as (row, column). */
  datatype Frame = Frame(padY: int, padX: int, clipY: int, clipX: int)

  const ALASKA_FRAME := Frame(211, 161, 0, 0)
  const LOWER48_FRAME := Frame(136, 136, 75, 350)

  /** `to_game_coordiantes`: drop the clipped rows and columns, then add the padding. */
  function ToGame(f: Frame, y: int, x: int): (r: (int, int))
    ensures FromGame(f, r.0, r.1) == (y, x)
  {
    (y - f.clipY + f.padY, x - f.clipX + f.padX)
  }

  /** `from_game_coordiantes`: remove the padding, then add back the clipped part. */
  function FromGame(f: Frame, y: int, x: int): (r: (int, int))
    ensures (y - r.0, x - r.1) == (f.padY - f.clipY, f.padX - f.clipX)
  {
    (y - f.padY + f.clipY, x - f.padX + f.clipX)
  }

  /** The two conversions undo each other, in both orders, for any loaded frame. */
  lemma GameRoundTrip(f: Frame, y: int, x: int)
    ensures FromGame(f, ToGame(f, y, x).0, ToGame(f, y, x).1) == (y, x)
    ensures ToGame(f, FromGame(f, y, x).0, FromGame(f, y, x).1) == (y, x)
  {
  }

  /** The conversion is a translation by the padding less the clip. */
  lemma ToGameShift(f: Frame, y: int, x: int)
    ensures ToGame(f, y, x).0 - y == f.padY - f.clipY && ToGame(f, y, x).1 - x == f.padX - f.clipX
  {
  }

  /**
   * The raster-handling fields of a `CostSurface`; the arrays `np.load`
   * reads are not part of this model. `loaded` records whether
   * `load_rasters` has set `alaska`, `pad_width` and `clip`.
   */
  class CostSurface {
    const obsSize: int
    const localRegionalRatio: real  // `6/3`, true division
    const localNationalRatio: int
    var loaded: bool
    var alaska: bool
    var frame: Frame

    constructor ()
      ensures obsSize == 112 && localRegionalRatio == 2.0 && localNationalRatio == 6 && !loaded
    {
      obsSize := 112;
      localRegionalRatio := 6.0 / 3.0;
      localNationalRatio := 6;
      loaded := false;
      alaska := false;
      frame := Frame(0, 0, 0, 0);
    }

    /**
     * `load_rasters`: no directory is an `AssertionError`; a directory name
     * containing `AL` selects the Alaska frame, any other the lower-48 one.
     */
    method LoadRasters(rasterDir: Option<string>) returns (res: Outcome)
      modifies this
      ensures rasterDir.None? ==> res == Fail(AssertionError) && unchanged(this)
      ensures rasterDir.Some? ==> res == Pass && loaded
      ensures rasterDir.Some? ==> (alaska <==> Contains(rasterDir.value, "AL"))
      ensures rasterDir.Some? ==> frame == (if alaska then ALASKA_FRAME else LOWER48_FRAME)
    {
      if rasterDir.None? {
        return Fail(AssertionError);
      }
      if Contains(rasterDir.value, "AL") {
        alaska := true;
        frame := ALASKA_FRAME;
      } else {
        alaska := false;
        frame := LOWER48_FRAME;
      }
      loaded := true;
      res := Pass;
    }
  }

  /** `MLWrapper`'s cost surface, loaded at construction from `rasterDir`. */
  class MlWrapper {
    const surface: CostSurface

    constructor (rasterDir: string)
      ensures fresh(surface) && surface.loaded
      ensures surface.alaska <==> Contains(rasterDir, "AL")
      ensures surface.frame == (if surface.alaska then ALASKA_FRAME else LOWER48_FRAME)
    {
      var s := new CostSurface();
      var loaded := s.LoadRasters(Some(rasterDir));
      surface := s;
    }

    /**
     * The part of `MLWrapper.route` before the learned policy runs. A start
     * in the Alaska box needs a target in that box and reloads the Alaska
     * rasters; then both cells are moved into the game frame the policy
     * receives.
     */
    method Route(start: (int, int), target: (int, int)) returns (res: Result<((int, int), (int, int))>)
      requires surface.loaded
      modifies surface
      ensures InAlaskaBox(start) && !AlaskaTarget(target) ==> res == Err(AssertionError) && unchanged(surface)
      ensures InAlaskaBox(start) && AlaskaTarget(target) ==> res.Ok? && surface.alaska && surface.frame == ALASKA_FRAME
      ensures !InAlaskaBox(start) ==> res.Ok? && unchanged(surface)
      ensures surface.loaded
      ensures res.Ok? ==> res.value == (ToGame(surface.frame, start.0, start.1), ToGame(surface.frame, target.0, target.1))
      ensures res.Ok? && InAlaskaBox(start) ==> InAlaskaBox(target)
    {
      if InAlaskaBox(start) {
        if !AlaskaTarget(target) {
          return Err(AssertionError);
        }
        AlaskaDirIsAlaska();
        var loaded := surface.LoadRasters(Some(ALASKA_DIR));
      }
      res := Ok((ToGame(surface.frame, start.0, start.1), ToGame(surface.frame, target.0, target.1)));
    }
  }

  const ALASKA_DIR: string := "./cost_surfaces/AL_10km_112nat_336reg_672loc/"

  /** A start in the Alaska corner of the lower-48 raster: above row 250 and left of column 350. */
  predicate InAlaskaBox(cell: (int, int))
  {
    cell.0 < 250 && cell.1 < 350
  }

  /** The target check as written: both tests read the row. */
  predicate AlaskaTargetAsWritten(cell: (int, int))
  {
    cell.0 < 250 && cell.0 < 350
  }

  /** The target check as intended: the target lies in the same box as the start. */
  predicate AlaskaTarget(cell: (int, int))
  {
    InAlaskaBox(cell)
  }

  /** The Alaska directory's name selects the Alaska frame. */
  lemma AlaskaDirIsAlaska()
    ensures Contains(ALASKA_DIR, "AL")
  {
    assert ALASKA_DIR[16] == 'A' && ALASKA_DIR[17] == 'L';
    assert ALASKA_DIR[16..18] == "AL";
    assert OccursAt(ALASKA_DIR, "AL", 16);
  }

  /** The default directory of `MLWrapper` selects the lower-48 frame. */
  const DEFAULT_DIR: string := "./cost_surfaces/10km_112nat_336reg_672loc/"

  lemma DefaultDirIsLower48()
    ensures !Contains(DEFAULT_DIR, "AL")
  {
    assert forall i :: 0 <= i < |DEFAULT_DIR| ==> DEFAULT_DIR[i] != 'A';
    AbsentInitial(DEFAULT_DIR, "AL");
  }

  /** A string without the first character of `sub` does not contain `sub`. */
  lemma AbsentInitial(s: string, sub: string)
    requires |sub| > 0 && forall i :: 0 <= i < |s| ==> s[i] != sub[0]
    ensures !Contains(s, sub)
  {
  }

  /** The target check as written never reads the column: it is just `row < 250`. */
  lemma AlaskaTargetAsWrittenIgnoresColumn(cell: (int, int))
    ensures AlaskaTargetAsWritten(cell) <==> cell.0 < 250
  {
  }

  /**
   * A start and a target in the Alaska rows, the target far east of the
   * Alaska columns: the check as written lets the pair through.
   */
  lemma AlaskaTargetAsWrittenAdmitsEast()
    ensures InAlaskaBox((100, 100)) && AlaskaTargetAsWritten((100, 600)) && !InAlaskaBox((100, 600))
  {
  }
}
