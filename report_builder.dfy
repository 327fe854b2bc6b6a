/**
 * The list and string helpers of the route report in
 * Flask/report_builder/report_builder.py: number formatting, field-title
 * sanitising, the null filter, the de-duplicated `List` values, and the
 * county and state lists behind the "Counties by State" table. The
 * dataframes are given as the columns the report reads.
 */
module ReportBuilder {
  import opened Wrappers
  import opened Text

  /** A cell of a report dataframe or schema: the Python types the helpers tell apart. */
  datatype Value =
    | IntV(i: int)
      /** A float, known here only by its `str` text (`"0.0"`, `"nan"`, ...). */
    | FloatV(repr: string)
    | BoolV(b: bool)
    | StrV(s: string)
    | NoneV

  // Thousands grouping

  /** The digits `d` with a comma before every group of three, counted from the right. */
  function Grouped(d: string): string
    decreases |d|
  {
    if |d| <= 3 then d else Grouped(d[..|d| - 3]) + "," + d[|d| - 3..]
  }

  /** `s` without its commas. */
  function RemoveCommas(s: string): (r: string)
    ensures ',' !in r
  {
    if s == [] then []
    else RemoveCommas(s[..|s| - 1]) + (if s[|s| - 1] == ',' then [] else [s[|s| - 1]])
  }

  lemma {:induction false} RemoveCommasAppend(a: string, b: string)
    ensures RemoveCommas(a + b) == RemoveCommas(a) + RemoveCommas(b)
    decreases |b|
  {
    if b != [] {
      assert (a + b)[..|a + b| - 1] == a + b[..|b| - 1];
      RemoveCommasAppend(a, b[..|b| - 1]);
    } else {
      assert a + b == a;
    }
  }

  lemma {:induction false} RemoveCommasNone(s: string)
    requires ',' !in s
    ensures RemoveCommas(s) == s
    decreases |s|
  {
    if s != [] {
      RemoveCommasNone(s[..|s| - 1]);
    }
  }

  /** Grouping only inserts commas: taking them out again gives the digits back. */
  lemma {:induction false} GroupedRemoveCommas(d: string)
    requires ',' !in d
    ensures RemoveCommas(Grouped(d)) == d
    decreases |d|
  {
    if |d| <= 3 {
      RemoveCommasNone(d);
    } else {
      var head, tail := d[..|d| - 3], d[|d| - 3..];
      assert d == head + tail;
      assert ',' !in head && ',' !in tail;
      var g := Grouped(head);
      assert RemoveCommas(",") == [];
      calc {
        RemoveCommas(Grouped(d));
        RemoveCommas((g + ",") + tail);
        { RemoveCommasAppend(g + ",", tail); }
        RemoveCommas(g + ",") + RemoveCommas(tail);
        { RemoveCommasAppend(g, ","); RemoveCommasNone(tail); }
        RemoveCommas(g) + tail;
        { GroupedRemoveCommas(head); }
        head + tail;
      }
    }
  }

  /** Between the commas stand groups of exactly three digits, after a first group of one to three. */
  lemma {:induction false} GroupedPieces(d: string)
    requires |d| >= 1 && ',' !in d
    ensures var p := Split(Grouped(d), ',');
      && 1 <= |p[0]| <= 3
      && (forall i :: 1 <= i < |p| ==> |p[i]| == 3)
      && (|p| - 1) * 3 < |d| <= |p| * 3
    decreases |d|
  {
    if |d| <= 3 {
      SplitWithoutSeparator(d, ',');
    } else {
      var head, tail := d[..|d| - 3], d[|d| - 3..];
      GroupedPieces(head);
      assert Grouped(d) == Grouped(head) + [','] + tail;
      SplitAtLastSeparator(Grouped(head), ',', tail);
    }
  }

  /** `f'{value:,}'` for an `int`. */
  function PrettyInt(n: int): string
  {
    if n < 0 then "-" + Grouped(NatToString(-n)) else Grouped(NatToString(n))
  }

  /** Taking the commas out of the formatted number gives `str(value)`. */
  lemma PrettyIntRemoveCommas(n: int)
    ensures RemoveCommas(PrettyInt(n)) == IntToString(n)
  {
    if n < 0 {
      var digits := NatToString(-n);
      GroupedRemoveCommas(digits);
      RemoveCommasAppend("-", Grouped(digits));
      assert RemoveCommas("-") == "-" by {
        assert "-"[..0] == [];
      }
    } else {
      GroupedRemoveCommas(NatToString(n));
    }
  }

  /** What `PrettyNumber` gives back. */
  datatype Pretty =
    | Formatted(text: string)
      /** `f'{round(value, 2):,}'`, whose float formatting is not modelled. */
    | RoundedFloat(repr: string)
    | Unchanged(value: Value)

  /**
   * `PrettyNumber`: an `int` (not a `bool`, whose type is not `int`) gets
   * its comma grouping, a float is rounded and grouped, anything else is
   * returned as it is.
   */
  function PrettyNumber(v: Value): (r: Pretty)
    ensures v.IntV? ==> r.Formatted? && RemoveCommas(r.text) == IntToString(v.i)
    ensures v.FloatV? ==> r == RoundedFloat(v.repr)
    ensures !v.IntV? && !v.FloatV? ==> r == Unchanged(v)
  {
    match v
    case IntV(n) => PrettyIntRemoveCommas(n); Formatted(PrettyInt(n))
    case FloatV(repr) => RoundedFloat(repr)
    case _ => Unchanged(v)
  }

  /** `PrettyNumber(1234567)` is `"1,234,567"`. */
  lemma PrettyMillion(n: int)
    requires n == 1234567
    ensures PrettyNumber(IntV(n)).text == "1,234,567"
  {
    MillionDigits(n);
    GroupedMillion(NatToString(n));
  }

  lemma MillionDigits(n: nat)
    requires n == 1234567
    ensures NatToString(n) == "1234567"
  {
    assert NatToString(1) == "1";
    assert NatToString(12) == "12";
    assert NatToString(123) == "123";
    assert NatToString(1234) == "1234";
    assert NatToString(12345) == "12345";
    assert NatToString(123456) == "123456";
  }

  lemma GroupedMillion(d: string)
    requires d == "1234567"
    ensures Grouped(d) == "1,234,567"
  {
    assert Grouped("1234") == "1,234" by {
      assert "1234"[..1] == "1" && "1234"[1..] == "234";
    }
    assert d[..4] == "1234" && d[4..] == "567";
  }

  // Field titles

  /** `replacers`: the characters a field title has replaced by `'_'`, in the order of replacement. */
  const REPLACERS: seq<char> := [' ', '-', '(', ')', '%', ',', '.', '=', '>', '/']

  /** The loop `for r in replacers: title_ = title_.replace(r, '_')`. */
  method SanitiseTitle(title: string) returns (r: string)
    ensures r == ReplaceEach(title, REPLACERS)
  {
    r := title;
    for i := 0 to |REPLACERS|
      invariant r == ReplaceEach(title, REPLACERS[..i])
    {
      assert REPLACERS[..i + 1][..i] == REPLACERS[..i];
      r := ReplaceChar(r, REPLACERS[i], '_');
    }
    assert REPLACERS[..|REPLACERS|] == REPLACERS;
  }

  /** A sanitised title keeps its length, has `'_'` for every replacer and every other character kept. */
  lemma SanitisedChars(title: string)
    ensures |ReplaceEach(title, REPLACERS)| == |title|
    ensures forall i :: 0 <= i < |title| ==>
      ReplaceEach(title, REPLACERS)[i] == if title[i] in REPLACERS then '_' else title[i]
    ensures forall c :: c in REPLACERS ==> c !in ReplaceEach(title, REPLACERS)
  {
    ReplaceEachChars(title, REPLACERS);
  }

  // Null values

  /** `str(v)`; a float's text is carried in the value. */
  function Str(v: Value): string
  {
    match v
    case IntV(n) => IntToString(n)
    case FloatV(repr) => repr
    case BoolV(b) => if b then "True" else "False"
    case StrV(s) => s
    case NoneV => "None"
  }

  /**
   * `null_list` as `str(vd) not in null_list` sees it: a string never
   * equals the list's numbers 0 and 0.0, so only its strings count.
   */
  const NULL_STRINGS: seq<string> := ["", "None", "0", "0.0", "nan"]

  predicate IsNull(v: Value)
  {
    Str(v) in NULL_STRINGS
  }

  /** `[vd for vd in values if str(vd) not in null_list]`. */
  function NonNull(values: seq<Value>): (r: seq<Value>)
    ensures forall v :: v in r <==> v in values && !IsNull(v)
    ensures forall v :: !IsNull(v) ==> multiset(r)[v] == multiset(values)[v]
    ensures forall v :: IsNull(v) ==> multiset(r)[v] == 0
  {
    if values == [] then []
    else
      var init := values[..|values| - 1];
      var last := values[|values| - 1];
      assert values == init + [last];
      var r := NonNull(init);
      if IsNull(last) then r else r + [last]
  }

  /** The filter keeps the order of the list: it distributes over concatenation. */
  lemma {:induction false} NonNullAppend(a: seq<Value>, b: seq<Value>)
    ensures NonNull(a + b) == NonNull(a) + NonNull(b)
    decreases |b|
  {
    if b == [] {
      assert a + b == a;
    } else {
      var init, last := b[..|b| - 1], b[|b| - 1];
      assert b == init + [last];
      NonNullAppend(a, init);
      NonNullAppendStep(a, init, last);
    }
  }

  lemma NonNullAppendStep(a: seq<Value>, init: seq<Value>, last: Value)
    requires NonNull(a + init) == NonNull(a) + NonNull(init)
    ensures NonNull(a + (init + [last])) == NonNull(a) + NonNull(init + [last])
  {
    var t := if IsNull(last) then [] else [last];
    Associative(a, init, [last]);
    NonNullSnoc(a + init, last);
    NonNullSnoc(init, last);
    Associative(NonNull(a), NonNull(init), t);
  }

  lemma Associative<T>(x: seq<T>, y: seq<T>, z: seq<T>)
    ensures x + (y + z) == (x + y) + z
  {
  }

  /** Appending one value appends it to the filtered list exactly when it is not null. */
  lemma NonNullSnoc(values: seq<Value>, v: Value)
    ensures NonNull(values + [v]) == NonNull(values) + (if IsNull(v) then [] else [v])
  {
    assert (values + [v])[..|values|] == values;
  }

  /** A single value passes the filter exactly when it is not null. */
  lemma NonNullSingle(v: Value)
    ensures NonNull([v]) == if IsNull(v) then [] else [v]
  {
    NonNullSnoc([], v);
    assert [] + [v] == [v];
  }

  /** `IntV(0)`, `"nan"` and `None` are dropped; `"0.5"` is kept. */
  lemma NullExamples()
    ensures IsNull(IntV(0)) && IsNull(StrV("nan")) && IsNull(NoneV) && IsNull(FloatV("0.0"))
    ensures !IsNull(StrV("0.5")) && !IsNull(IntV(7)) && !IsNull(BoolV(false))
  {
    assert IntToString(0) == "0";
    assert IntToString(7) == "7";
  }

  // `List` values

  /** The `'|'`-separated pieces of the values, in order. */
  function Pieces(values: seq<string>): seq<string>
  {
    if values == [] then [] else Pieces(values[..|values| - 1]) + Split(values[|values| - 1], '|')
  }

  lemma DedupAppend<T>(xs: seq<T>, x: T)
    ensures Dedup(xs + [x]) == if x in Dedup(xs) then Dedup(xs) else Dedup(xs) + [x]
  {
    assert (xs + [x])[..|xs|] == xs;
  }

  /** The text of each string value (a non-string stands as `""`; the loop below rejects it). */
  function Texts(values: seq<Value>): (r: seq<string>)
    ensures |r| == |values|
  {
    if values == [] then []
    else
      var last := values[|values| - 1];
      Texts(values[..|values| - 1]) + [if last.StrV? then last.s else ""]
  }

  predicate StringsOnly(values: seq<Value>)
  {
    forall k :: 0 <= k < |values| ==> values[k].StrV?
  }

  /** The inner loop: each of `parts` not yet in `full` is appended. */
  method AppendNew(full: seq<string>, parts: seq<string>, ghost seen: seq<string>) returns (r: seq<string>)
    requires full == Dedup(seen)
    ensures r == Dedup(seen + parts)
  {
    r := full;
    assert seen + parts[..0] == seen;
    for j := 0 to |parts|
      invariant r == Dedup(seen + parts[..j])
    {
      DedupAppend(seen + parts[..j], parts[j]);
      assert seen + parts[..j + 1] == seen + parts[..j] + [parts[j]];
      if parts[j] !in r {
        r := r + [parts[j]];
      }
    }
    assert parts[..|parts|] == parts;
  }

  /**
   * The loop building `full_unqiue_values` over the non-null values: a
   * string with `'|'` adds each of its pieces not yet listed, any other
   * string itself if not yet listed; `'|' in v` on a non-string raises
   * `TypeError`.
   */
  method UniqueListValues(values: seq<Value>) returns (res: Result<seq<string>>)
    ensures res.Err? <==> exists k :: 0 <= k < |values| && !values[k].StrV?
    ensures res.Err? ==> res.error == TypeError
    ensures res.Ok? ==> res.value == Dedup(Pieces(Texts(values)))
  {
    var full: seq<string> := [];
    assert values[..0] == [];
    for i := 0 to |values|
      invariant StringsOnly(values[..i])
      invariant full == Dedup(Pieces(Texts(values[..i])))
    {
      if !values[i].StrV? {
        assert 0 <= i < |values| && !values[i].StrV?;
        return Err(TypeError);
      }
      var v := values[i].s;
      var parts: seq<string>;
      if '|' in v {
        parts := Split(v, '|');
      } else {
        parts := [v];
        SplitWithoutSeparator(v, '|');
      }
      ghost var seen := Pieces(Texts(values[..i]));
      PiecesStep(values, i);
      full := AppendNew(full, parts, seen);
    }
    assert values[..|values|] == values;
    res := Ok(full);
  }

  lemma PiecesStep(values: seq<Value>, i: nat)
    requires i < |values| && values[i].StrV?
    ensures StringsOnly(values[..i]) ==> StringsOnly(values[..i + 1])
    ensures Pieces(Texts(values[..i + 1])) == Pieces(Texts(values[..i])) + Split(values[i].s, '|')
  {
    assert values[..i + 1][..i] == values[..i];
  }

  /** Every piece of every value is listed, exactly once, in first-seen order. */
  lemma UniqueListProperties(values: seq<string>, i: nat, j: nat)
    requires i < j < |Dedup(Pieces(values))|
    ensures Distinct(Dedup(Pieces(values)))
    ensures forall p :: p in Dedup(Pieces(values)) <==> p in Pieces(values)
    ensures IndexOf(Pieces(values), Dedup(Pieces(values))[i]) < IndexOf(Pieces(values), Dedup(Pieces(values))[j])
  {
    DedupProperties(Pieces(values));
    DedupFirstSeenOrder(Pieces(values), i, j);
  }

  /** A piece of the `k`-th value is among the pieces. */
  lemma {:induction false} PiecesCover(values: seq<string>, k: nat, p: string)
    requires k < |values| && p in Split(values[k], '|')
    ensures p in Pieces(values)
  {
    if k < |values| - 1 {
      PiecesCover(values[..|values| - 1], k, p);
    }
  }

  // Counties and states

  /**
   * The loop over the tracts' county column: each county the first time it
   * is seen, with the state of the first tract naming it
   * (`STATE_NAME[CNTY_NAME.index(c)]`).
   */
  method CountiesAndStates(countyColumn: seq<string>, stateColumn: seq<string>)
    returns (counties: seq<string>, states: seq<string>)
    requires |countyColumn| == |stateColumn|
    ensures counties == Dedup(countyColumn)
    ensures |states| == |counties|
    ensures forall k :: 0 <= k < |counties| ==>
      counties[k] in countyColumn && states[k] == stateColumn[IndexOf(countyColumn, counties[k])]
  {
    counties := [];
    states := [];
    for i := 0 to |countyColumn|
      invariant counties == Dedup(countyColumn[..i])
      invariant |states| == |counties|
      invariant forall k :: 0 <= k < |counties| ==>
        counties[k] in countyColumn && states[k] == stateColumn[IndexOf(countyColumn, counties[k])]
    {
      var c := countyColumn[i];
      assert countyColumn[..i + 1] == countyColumn[..i] + [c];
      DedupAppend(countyColumn[..i], c);
      if c !in counties {
        counties := counties + [c];
        states := states + [stateColumn[IndexOf(countyColumn, c)]];
      }
    }
    assert countyColumn[..|countyColumn|] == countyColumn;
  }

  /** The counties listed are distinct and in the order their first tracts appear. */
  lemma CountiesOrder(countyColumn: seq<string>, i: nat, j: nat)
    requires i < j < |Dedup(countyColumn)|
    ensures Distinct(Dedup(countyColumn))
    ensures Dedup(countyColumn)[i] in countyColumn && Dedup(countyColumn)[j] in countyColumn
    ensures IndexOf(countyColumn, Dedup(countyColumn)[i]) < IndexOf(countyColumn, Dedup(countyColumn)[j])
  {
    DedupProperties(countyColumn);
    DedupFirstSeenOrder(countyColumn, i, j);
  }

  /** The counties whose paired state is `s`, in list order. */
  function CountiesOf(counties: seq<string>, states: seq<string>, s: string): (r: seq<string>)
    requires |counties| == |states|
    ensures forall c :: c in r ==> c in counties
  {
    if counties == [] then []
    else
      var n := |counties| - 1;
      CountiesOf(counties[..n], states[..n], s) + (if states[n] == s then [counties[n]] else [])
  }

  /** The rows of the "Counties by State" table: one per state, with its counties joined by `", "`. */
  function StateTableOf(counties: seq<string>, states: seq<string>): set<(string, string)>
    requires |counties| == |states|
  {
    set s | s in states :: (s, Join(CountiesOf(counties, states, s), ", "))
  }

  /**
   * The table loop: for each distinct state, a pass over the counties with
   * the index `c_i` collecting those paired with it; the rows are then made
   * a set. (`list(set(states))` has no fixed order; any order gives the
   * same set.)
   */
  method StateTable(counties: seq<string>, states: seq<string>) returns (table: set<(string, string)>)
    requires |counties| == |states|
    ensures table == StateTableOf(counties, states)
  {
    var uniqueStates := Dedup(states);
    DedupProperties(states);
    var rows: seq<(string, string)> := [];
    for u := 0 to |uniqueStates|
      invariant |rows| == u
      invariant forall k :: 0 <= k < u ==> rows[k] == (uniqueStates[k], Join(CountiesOf(counties, states, uniqueStates[k]), ", "))
    {
      var s := uniqueStates[u];
      var countyList: seq<string> := [];
      var ci := 0;
      while ci < |counties|
        invariant 0 <= ci <= |counties|
        invariant countyList == CountiesOf(counties[..ci], states[..ci], s)
      {
        assert counties[..ci + 1][..ci] == counties[..ci] && states[..ci + 1][..ci] == states[..ci];
        if s == states[ci] {
          countyList := countyList + [counties[ci]];
        }
        ci := ci + 1;
      }
      assert counties[..ci] == counties && states[..ci] == states;
      rows := rows + [(s, Join(countyList, ", "))];
    }
    table := set r | r in rows;
    assert forall s :: s in states <==> s in uniqueStates;
    forall row | row in StateTableOf(counties, states)
      ensures row in table
    {
      var k := IndexOf(uniqueStates, row.0);
      assert rows[k] == row;
    }
  }

  /** Each county of the distinct list appears in the row of its own state and in no other. */
  lemma {:induction false} CountyInOneRow(counties: seq<string>, states: seq<string>, k: nat, s: string)
    requires |counties| == |states| && Distinct(counties) && k < |counties|
    ensures counties[k] in CountiesOf(counties, states, s) <==> s == states[k]
  {
    var n := |counties| - 1;
    assert Distinct(counties[..n]);
    if k < n {
      CountyInOneRow(counties[..n], states[..n], k, s);
      assert counties[n] != counties[k];
    } else {
      assert counties[n] !in counties[..n];
    }
  }
}
