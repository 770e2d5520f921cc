/** DatasetPrep.rename_by_agg in preparedatasets.py: after aggregation, a
    string column is renamed after its aggregation method ("Total ", "Avg ",
    "Max ", "Min " prefixes) unless its name already says so. */
module Renaming {
  import opened Wrappers
  import opened Text
  import opened AggMethods

  /** A DataFrame column label: a string, or anything else (after a weekly
      aggregation with several methods the labels are tuples). */
  datatype Label = StrLabel(name: string) | OtherLabel(id: int)

  /** The new name of string column `col` aggregated by `how`, as written.
      A method list (`Many`) never equals a single method name. The `max`
      branch's "Maximum" test can never pass (WordAbsent), and the `min`
      branch tests "Maximum" but replaces "Minimum", so a minimised name
      mentioning "Maximum" is kept. The `max` branch is stated in MaxBranch. */
  function RenameColAsWritten(col: string, how: Agg): (r: string)
    ensures how.Many? || how.how !in {Sum, Mean, Max, Min} ==> r == col
    ensures how == One(Sum) ==> r == (if Contains(Lower(col), "total") then col else "Total " + col)
    ensures how == One(Mean) ==> r == (if Contains(Lower(col), "avg") then col
                                       else if Contains(col, "Average") then ReplaceAll(col, "Average", "Avg")
                                       else "Avg " + col)
    ensures how == One(Min) ==> r == (if Contains(Lower(col), "minimum") || Contains(col, "Maximum")
                                      then col else "Min " + col)
  {
    var low := Lower(col);
    if how == One(Sum) && !Contains(low, "total") then "Total " + col
    else if how == One(Mean) && !Contains(low, "avg") then
      if Contains(col, "Average") then ReplaceAll(col, "Average", "Avg") else "Avg " + col
    else if how == One(Max) && !Contains(low, "maximum") then
      if Contains(col, "Maximum") then ReplaceAll(col, "Maximum", "Max")
      else if !Contains(Squash(col), "menstrualcyclestart") then "Max " + col
      else col
    else if how == One(Min) && !Contains(low, "minimum") then
      LowerKeywords();
      WordAbsent(col, "Minimum");
      ReplaceAllAbsent(col, "Minimum", "Min");
      if Contains(col, "Maximum") then ReplaceAll(col, "Minimum", "Min") else "Min " + col
    else col
  }

  /** The same rule with the `min` branch testing for "Minimum", mirroring the
      `max` branch; like that test, it can never pass (WordAbsent), so a
      minimised column without "minimum" in its name always gets "Min ". */
  function RenameCol(col: string, how: Agg): (r: string)
    ensures how.Many? || how.how !in {Sum, Mean, Max, Min} ==> r == col
    ensures how == One(Sum) ==> r == (if Contains(Lower(col), "total") then col else "Total " + col)
    ensures how == One(Mean) ==> r == (if Contains(Lower(col), "avg") then col
                                       else if Contains(col, "Average") then ReplaceAll(col, "Average", "Avg")
                                       else "Avg " + col)
    ensures how == One(Min) ==> r == (if Contains(Lower(col), "minimum") then col else "Min " + col)
  {
    var low := Lower(col);
    if how == One(Sum) && !Contains(low, "total") then "Total " + col
    else if how == One(Mean) && !Contains(low, "avg") then
      if Contains(col, "Average") then ReplaceAll(col, "Average", "Avg") else "Avg " + col
    else if how == One(Max) && !Contains(low, "maximum") then
      if Contains(col, "Maximum") then ReplaceAll(col, "Maximum", "Max")
      else if !Contains(Squash(col), "menstrualcyclestart") then "Max " + col
      else col
    else if how == One(Min) && !Contains(low, "minimum") then "Min " + col
    else col
  }

  /** A capitalised keyword cannot occur in a name whose lower-cased form
      lacks the lower-cased keyword: the `'Maximum' in col` test of the max
      branch, and a "Minimum" replacement in the min branch, never find one. */
  lemma WordAbsent(col: string, word: string)
    requires !Contains(Lower(col), Lower(word))
    ensures !Contains(col, word)
  {
    if Contains(col, word) {
      LowerContains(col, word);
    }
  }

  /** A maximised column gains "Max " unless its name already says maximum
      or, spaces removed, mentions the start of a menstrual cycle: the
      `'Maximum' in col` replacement never runs. Both rules agree here. */
  lemma MaxBranch(col: string)
    ensures RenameColAsWritten(col, One(Max)) == RenameCol(col, One(Max))
    ensures RenameCol(col, One(Max)) ==
      if Contains(Lower(col), "maximum") || Contains(Squash(col), "menstrualcyclestart") then col else "Max " + col
  {
    if !Contains(Lower(col), "maximum") {
      LowerKeywords();
      WordAbsent(col, "Maximum");
    }
  }

  lemma LowerKeywords()
    ensures Lower("Maximum") == "maximum" && Lower("Minimum") == "minimum"
  {
    assert Lower("Maximum") == "maximum";
    assert Lower("Minimum") == "minimum";
  }

  /** The labels renamed by `rename`: every string label by its method,
      other labels kept. A string label missing from the map raises KeyError,
      for the first such label in column order. */
  function RenameLabels(cols: seq<Label>, aggregation: map<string, Agg>, rename: (string, Agg) -> string)
    : (r: Result<seq<Label>>)
    ensures r.Ok? <==> forall k :: 0 <= k < |cols| && cols[k].StrLabel? ==> cols[k].name in aggregation
    ensures r.Ok? ==> |r.value| == |cols|
    ensures r.Ok? ==> forall k :: 0 <= k < |cols| ==>
      r.value[k] == if cols[k].StrLabel? then StrLabel(rename(cols[k].name, aggregation[cols[k].name])) else cols[k]
    ensures r.Err? ==> exists k :: (0 <= k < |cols| && cols[k].StrLabel? && cols[k].name !in aggregation
                                    && r.error == KeyError(cols[k].name)
                                    && forall j :: 0 <= j < k && cols[j].StrLabel? ==> cols[j].name in aggregation)
  {
    if cols == [] then Ok([])
    else if cols[0].StrLabel? && cols[0].name !in aggregation then Err(KeyError(cols[0].name))
    else
      var head := if cols[0].StrLabel? then StrLabel(rename(cols[0].name, aggregation[cols[0].name])) else cols[0];
      match RenameLabels(cols[1..], aggregation, rename)
      case Err(e) =>
        var k :| 0 <= k < |cols[1..]| && cols[1..][k].StrLabel? && cols[1..][k].name !in aggregation
          && e == KeyError(cols[1..][k].name)
          && forall j :: 0 <= j < k && cols[1..][j].StrLabel? ==> cols[1..][j].name in aggregation;
        assert cols[k + 1] == cols[1..][k];
        assert forall j :: 1 <= j < k + 1 ==> cols[j] == cols[1..][j - 1];
        Err(e)
      case Ok(rest) =>
        assert forall k :: 1 <= k < |cols| ==> cols[k] == cols[1..][k - 1];
        Ok([head] + rest)
  }

  /** rename_by_agg as written: the labels renamed by RenameColAsWritten. */
  function RenameByAgg(cols: seq<Label>, aggregation: map<string, Agg>): (r: Result<seq<Label>>)
    ensures r.Ok? <==> forall k :: 0 <= k < |cols| && cols[k].StrLabel? ==> cols[k].name in aggregation
    ensures r.Ok? ==> |r.value| == |cols| && forall k :: 0 <= k < |cols| ==>
      r.value[k] == if cols[k].StrLabel? then StrLabel(RenameColAsWritten(cols[k].name, aggregation[cols[k].name])) else cols[k]
    ensures r.Err? ==> exists k :: (0 <= k < |cols| && cols[k].StrLabel? && cols[k].name !in aggregation
                                    && r.error == KeyError(cols[k].name)
                                    && forall j :: 0 <= j < k && cols[j].StrLabel? ==> cols[j].name in aggregation)
  {
    RenameLabels(cols, aggregation, RenameColAsWritten)
  }

  /** rename_by_agg with the corrected min rule: the labels renamed by RenameCol. */
  function RenameByAggCorrected(cols: seq<Label>, aggregation: map<string, Agg>): (r: Result<seq<Label>>)
    ensures r.Ok? <==> forall k :: 0 <= k < |cols| && cols[k].StrLabel? ==> cols[k].name in aggregation
    ensures r.Ok? ==> |r.value| == |cols| && forall k :: 0 <= k < |cols| ==>
      r.value[k] == if cols[k].StrLabel? then StrLabel(RenameCol(cols[k].name, aggregation[cols[k].name])) else cols[k]
    ensures r.Err? ==> exists k :: (0 <= k < |cols| && cols[k].StrLabel? && cols[k].name !in aggregation
                                    && r.error == KeyError(cols[k].name)
                                    && forall j :: 0 <= j < k && cols[j].StrLabel? ==> cols[j].name in aggregation)
  {
    RenameLabels(cols, aggregation, RenameCol)
  }

  // ---------------------------------------------------------------------------
  // Properties

  /** A column whose name already carries the keyword of its method keeps it. */
  lemma KeywordKeepsName(col: string, how: Method)
    requires how == Sum ==> Contains(Lower(col), "total")
    requires how == Mean ==> Contains(Lower(col), "avg")
    requires how == Max ==> Contains(Lower(col), "maximum")
    requires how == Min ==> Contains(Lower(col), "minimum")
    ensures RenameCol(col, One(how)) == col
  {
  }

  /** Summed and averaged columns are renamed once: renaming the result again
      by the same method changes nothing. */
  lemma RenameSumMeanIdempotent(col: string, how: Method)
    requires how == Sum || how == Mean
    ensures RenameCol(RenameCol(col, One(how)), One(how)) == RenameCol(col, One(how))
  {
    var r := RenameCol(col, One(how));
    if how == Sum && !Contains(Lower(col), "total") {
      TotalPrefixContains(col);
    } else if how == Mean && !Contains(Lower(col), "avg") {
      if Contains(col, "Average") {
        ReplaceAllPlants(col, "Average", "Avg");
        LowerContains(r, "Avg");
        assert Lower("Avg") == "avg";
      } else {
        AvgPrefixContains(col);
      }
    }
  }

  lemma TotalPrefixContains(col: string)
    ensures Contains(Lower("Total " + col), "total")
  {
    assert Lower("Total " + col)[..5] == "total";
    ContainsPrefix(Lower("Total " + col), "total");
  }

  lemma AvgPrefixContains(col: string)
    ensures Contains(Lower("Avg " + col), "avg")
  {
    assert Lower("Avg " + col)[..3] == "avg";
    ContainsPrefix(Lower("Avg " + col), "avg");
  }

  /** An averaged column named "...Average..." is renamed by replacing that
      word, and the name is otherwise kept when "Average" does not occur. */
  lemma AverageBecomesAvg(col: string)
    requires !Contains(Lower(col), "avg") && Contains(col, "Average")
    ensures RenameCol(col, One(Mean)) == ReplaceAll(col, "Average", "Avg")
    ensures Contains(RenameCol(col, One(Mean)), "Avg")
  {
    ReplaceAllPlants(col, "Average", "Avg");
  }

  // ---------------------------------------------------------------------------
  // The min branch as written

  /** As written, the min branch tests for "Maximum", so a minimised column
      whose name mentions "Maximum" keeps its name instead of getting "Min ". */
  lemma MinBranchAsWritten(col: string)
    requires Contains(col, "Maximum") && !Contains(Lower(col), "minimum")
    ensures RenameColAsWritten(col, One(Min)) == col
    ensures RenameCol(col, One(Min)) == "Min " + col
  {
  }

  /** "Maximum Speed" aggregated by min keeps its name as written. */
  lemma MaximumSpeedByMin(col: string)
    requires col == "Maximum Speed"
    ensures RenameColAsWritten(col, One(Min)) == col
    ensures RenameCol(col, One(Min)) == "Min " + col
  {
    MaximumSpeedFacts(col);
    MinBranchAsWritten(col);
  }

  lemma MaximumSpeedFacts(col: string)
    requires col == "Maximum Speed"
    ensures Contains(col, "Maximum")
    ensures !Contains(Lower(col), "minimum")
  {
    assert col[..7] == "Maximum";
    ContainsPrefix(col, "Maximum");
    NoMinimum(Lower(col));
  }

  lemma NoMinimum(low: string)
    requires low == "maximum speed"
    ensures !Contains(low, "minimum")
  {
    assert 'n' !in low;
    if Contains(low, "minimum") {
      ContainsCharsOf(low, "minimum", 'n');
    }
  }

  /** Where the name does not mention "Maximum" the two agree. */
  lemma RenameAgreesWithoutMaximum(col: string, how: Agg)
    requires !Contains(col, "Maximum")
    ensures RenameColAsWritten(col, how) == RenameCol(col, how)
  {
  }

  /** rename_by_agg as written and corrected agree on every frame none of
      whose string labels mentions "Maximum", errors included. */
  lemma {:induction false} RenameByAggAgreesWithoutMaximum(cols: seq<Label>, aggregation: map<string, Agg>)
    requires forall k :: 0 <= k < |cols| && cols[k].StrLabel? ==> !Contains(cols[k].name, "Maximum")
    ensures RenameByAgg(cols, aggregation) == RenameByAggCorrected(cols, aggregation)
  {
    if cols != [] && !(cols[0].StrLabel? && cols[0].name !in aggregation) {
      assert forall k :: 0 <= k < |cols[1..]| ==> cols[1..][k] == cols[k + 1];
      RenameByAggAgreesWithoutMaximum(cols[1..], aggregation);
      if cols[0].StrLabel? {
        RenameAgreesWithoutMaximum(cols[0].name, aggregation[cols[0].name]);
      }
    }
  }

  /** The frame-level input of the finding: a single 'Maximum Speed' column
      aggregated by min keeps its name as written, and is renamed 'Min
      Maximum Speed' by the corrected rule. */
  lemma RenameByAggMaximumSpeed(col: string)
    requires col == "Maximum Speed"
    ensures RenameByAgg([StrLabel(col)], map[col := One(Min)]) == Ok([StrLabel(col)])
    ensures RenameByAggCorrected([StrLabel(col)], map[col := One(Min)]) == Ok([StrLabel("Min " + col)])
  {
    MaximumSpeedByMin(col);
    var cols, m := [StrLabel(col)], map[col := One(Min)];
    var r, c := RenameByAgg(cols, m), RenameByAggCorrected(cols, m);
    assert cols[0].StrLabel? && cols[0].name == col && col in m;
    assert r.Ok? && |r.value| == 1 && r.value[0] == StrLabel(col);
    assert c.Ok? && |c.value| == 1 && c.value[0] == StrLabel("Min " + col);
    assert r.value == [StrLabel(col)];
    assert c.value == [StrLabel("Min " + col)];
  }
}
