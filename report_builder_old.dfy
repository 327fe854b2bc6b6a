/**
 * The "Counties by State" table of the older report module
 * (Flask/report_builder/report_builder_new_wrong_gdal.py). Its other
 * helpers (number formatting, title sanitising, the `List` values, the
 * county and state lists) are the ones of `ReportBuilder`.
 */
module OldReportBuilder {
  import opened Text
  import ReportBuilder

  /** Every state paired with all counties: what the older loop produces. */
  function AllCountiesTable(counties: seq<string>, states: seq<string>): set<(string, string)>
  {
    set s | s in states :: (s, Join(counties, ", "))
  }

  /**
   * The older table loop, as written: `states` is first replaced by its
   * distinct values (`list(set(states))`, then sorted), and the index `c_i`
   * moves once per state rather than once per county, so the test
   * `s == states[c_i]` compares the state with itself and every county is
   * collected into every row.
   */
  method OldStateTableAsWritten(counties: seq<string>, states: seq<string>) returns (table: set<(string, string)>)
    ensures table == AllCountiesTable(counties, states)
  {
    var uniqueStates := Dedup(states);
    DedupProperties(states);
    var rows: seq<(string, string)> := [];
    var ci := 0;
    for u := 0 to |uniqueStates|
      invariant ci == u == |rows|
      invariant forall k :: 0 <= k < u ==> rows[k] == (uniqueStates[k], Join(counties, ", "))
    {
      var s := uniqueStates[u];
      var countyList: seq<string> := [];
      for c := 0 to |counties|
        invariant countyList == counties[..c]
      {
        if s == uniqueStates[ci] {
          countyList := countyList + [counties[c]];
        }
      }
      assert counties[..|counties|] == counties;
      ci := ci + 1;
      rows := rows + [(s, Join(countyList, ", "))];
    }
    table := set r | r in rows;
    forall row | row in AllCountiesTable(counties, states)
      ensures row in table
    {
      var k := IndexOf(uniqueStates, row.0);
      assert rows[k] == row;
    }
  }

  /**
   * Two counties in two states: the older table lists both counties under
   * each state, where the corrected table gives each state its own county.
   */
  lemma OldTableMixesStates(counties: seq<string>, states: seq<string>)
    requires counties == ["A", "B"] && states == ["S1", "S2"]
    ensures ("S1", "A, B") in AllCountiesTable(counties, states)
    ensures ("S1", "A, B") !in ReportBuilder.StateTableOf(counties, states)
    ensures ("S1", "A") in ReportBuilder.StateTableOf(counties, states)
  {
    assert Join(counties, ", ") == "A, B" by {
      assert counties[..1] == ["A"];
    }
    assert ReportBuilder.CountiesOf(counties, states, "S1") == ["A"] by {
      assert counties[..1] == ["A"] && states[..1] == ["S1"];
      assert ReportBuilder.CountiesOf(["A"], ["S1"], "S1") == ["A"] by {
        assert ["A"][..0] == [] && ["S1"][..0] == [];
      }
      assert states[1] != "S1";
    }
    assert "A" != "A, B";
  }

  /** On a route within one state the corrected row of that state lists every county, as the older row does. */
  lemma {:induction false} SingleStateAgrees(counties: seq<string>, states: seq<string>, s: string)
    requires |counties| == |states|
    requires forall k :: 0 <= k < |states| ==> states[k] == s
    ensures ReportBuilder.CountiesOf(counties, states, s) == counties
  {
    if counties != [] {
      var n := |counties| - 1;
      SingleStateAgrees(counties[..n], states[..n], s);
      assert counties == counties[..n] + [counties[n]];
    }
  }
}
