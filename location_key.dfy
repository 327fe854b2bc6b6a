/**
 * The dictionary keys the Monte Carlo search uses for raster cells:
 * `str(y).zfill(3) + ',' + str(x).zfill(3)`, and the decoding
 * `int(key.split(',')[0]), int(key.split(',')[1])` that turns a winning
 * vote back into a location.
 */
module LocationKey {
  import opened Wrappers
  import opened Text

  /** Python `s.zfill(width)`: zeros inserted after an optional sign. */
  function ZFill(s: string, width: nat): string
  {
    if |s| >= width then s
    else if |s| > 0 && (s[0] == '-' || s[0] == '+') then [s[0]] + Zeros(width - |s|) + s[1..]
    else Zeros(width - |s|) + s
  }

  /** The key of one coordinate: `str(n).zfill(3)`. */
  function Field(n: int): string
  {
    ZFill(IntToString(n), 3)
  }

  /** The key of a cell `(y, x)`: splitting it at commas gives back exactly its two fields. */
  function Encode(y: int, x: int): (r: string)
    ensures Split(r, ',') == [Field(y), Field(x)]
  {
    FieldHasNoComma(y);
    FieldHasNoComma(x);
    SplitAtFirstSeparator(Field(y), ',', Field(x));
    SplitWithoutSeparator(Field(x), ',');
    Field(y) + [','] + Field(x)
  }

  /** Python `int(s)` for an optionally signed run of decimal digits. */
  function ParseInt(s: string): Result<int>
  {
    if |s| > 0 && (s[0] == '-' || s[0] == '+') then
      if |s| > 1 && IsDigits(s[1..]) then
        var v: int := DigitsValue(s[1..]);
        Ok(if s[0] == '-' then -v else v)
      else Err(ValueError)
    else if |s| > 0 && IsDigits(s) then Ok(DigitsValue(s))
    else Err(ValueError)
  }

  /**
   * `int(key.split(',')[0])` then `int(key.split(',')[1])`, in that order, so a
   * bad first field raises `ValueError` before a missing second one raises
   * `IndexError`.
   */
  function Decode(key: string): (r: Result<(int, int)>)
    ensures r.Err? ==> r.error == ValueError || r.error == IndexError
    ensures r.Ok? ==>
      && |Split(key, ',')| >= 2
      && ParseInt(Split(key, ',')[0]) == Ok(r.value.0)
      && ParseInt(Split(key, ',')[1]) == Ok(r.value.1)
  {
    var parts := Split(key, ',');
    match ParseInt(parts[0])
    case Err(e) => Err(e)
    case Ok(y) =>
      if |parts| < 2 then Err(IndexError)
      else match ParseInt(parts[1])
        case Err(e) => Err(e)
        case Ok(x) => Ok((y, x))
  }

  lemma FieldHasNoComma(n: int)
    ensures ',' !in Field(n)
  {
    var s := IntToString(n);
    assert forall i :: 0 <= i < |s| ==> s[i] == '-' || '0' <= s[i] <= '9';
  }

  lemma ParseField(n: int)
    ensures ParseInt(Field(n)) == Ok(n)
  {
    if n < 0 {
      ParseNegativeField(n);
    } else {
      ParseNonNegativeField(n);
    }
  }

  lemma ParseNonNegativeField(n: nat)
    ensures ParseInt(Field(n)) == Ok(n)
  {
    var digits := NatToString(n);
    DigitsValueOfNatToString(n);
    assert IntToString(n) == digits;
    var f := Field(n);
    if |digits| < 3 {
      assert f == Zeros(3 - |digits|) + digits;
      DigitsValueLeadingZeros(3 - |digits|, digits);
    } else {
      assert f == digits;
    }
    assert f[0] != '-' && f[0] != '+';
  }

  lemma ParseNegativeField(n: int)
    requires n < 0
    ensures ParseInt(Field(n)) == Ok(n)
  {
    var digits := NatToString(-n);
    DigitsValueOfNatToString(-n);
    var padded := PadDigits(digits);
    SignedField(n, digits);
    ParseNegative(padded);
    var v: int := DigitsValue(padded);
    assert v == -n;
  }

  /** The digits of a negative field after the sign, padded to width 2. */
  function PadDigits(digits: string): (r: string)
    requires |digits| >= 1 && IsDigits(digits)
    ensures |r| >= 1 && IsDigits(r) && DigitsValue(r) == DigitsValue(digits)
  {
    if |digits| >= 2 then digits
    else
      DigitsValueLeadingZeros(2 - |digits|, digits);
      Zeros(2 - |digits|) + digits
  }

  lemma SignedField(n: int, digits: string)
    requires n < 0 && digits == NatToString(-n)
    ensures Field(n) == ['-'] + PadDigits(digits)
  {
    var s := IntToString(n);
    assert s == ['-'] + digits;
    assert s[1..] == digits;
  }

  lemma ParseNegative(d: string)
    requires |d| > 0 && IsDigits(d)
    ensures ParseInt(['-'] + d) == Ok(-(DigitsValue(d) as int))
  {
    assert (['-'] + d)[1..] == d;
  }

  /** Decoding a key gives back the cell it was made from. */
  lemma DecodeEncode(y: int, x: int)
    ensures Decode(Encode(y, x)) == Ok((y, x))
  {
    FieldHasNoComma(y);
    FieldHasNoComma(x);
    ParseField(y);
    ParseField(x);
  }

  /** Distinct cells have distinct keys, so a key set is a set of cells. */
  lemma EncodeInjective(y1: int, x1: int, y2: int, x2: int)
    ensures Encode(y1, x1) == Encode(y2, x2) <==> (y1, x1) == (y2, x2)
  {
    DecodeEncode(y1, x1);
    DecodeEncode(y2, x2);
  }

  /** The fixed-width form used for raster cells below 1000. */
  lemma KeyExample()
    ensures Encode(7, 42) == "007,042"
  {
    assert NatToString(7) == "7";
    assert NatToString(42) == "42";
  }
}
