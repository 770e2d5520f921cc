/** The aggregation-method tables of preparedatasets.py. Given the column names
    of a table, each builds the dictionary handed to `DataFrame.agg`: for every
    column, the pandas aggregation that summarises it per day, week or month.
    A Python dict from column name to method becomes a `map`; the loops that
    fill it become folds over the column list, in the loop's own order. */
module AggMethods {
  import opened Wrappers
  import opened Text

  datatype Method = Sum | Mean | Max | Min | First | Last | Std

  /** What `DataFrame.agg` receives for one column: one method name, or a list of them. */
  datatype Agg = One(how: Method) | Many(hows: seq<Method>)

  // ---------------------------------------------------------------------------
  // find_substr_in_list

  /** The names that match `.*txt.*`, in list order and with their repetitions. */
  function FindSubstrInList(txt: string, names: seq<string>): (r: seq<string>)
    ensures |r| <= |names|
    ensures forall x :: multiset(r)[x] == if Contains(x, txt) then multiset(names)[x] else 0
  {
    if names == [] then []
    else
      var init, last := names[..|names| - 1], names[|names| - 1];
      assert names == init + [last];
      var rest := FindSubstrInList(txt, init);
      if Contains(last, txt) then rest + [last] else rest
  }

  /** Matching distributes over concatenation, so the matches keep the list's
      order: those of an earlier part come before those of a later one. */
  lemma {:induction false} FindSubstrInListConcat(txt: string, a: seq<string>, b: seq<string>)
    ensures FindSubstrInList(txt, a + b) == FindSubstrInList(txt, a) + FindSubstrInList(txt, b)
    decreases |b|
  {
    if b == [] {
      assert a + b == a;
    } else {
      var ab, init, last := a + b, b[..|b| - 1], b[|b| - 1];
      assert ab[..|ab| - 1] == a + init && ab[|ab| - 1] == last;
      FindSubstrInListLast(txt, ab);
      FindSubstrInListLast(txt, b);
      FindSubstrInListConcat(txt, a, init);
    }
  }

  /** One step of the recursion: the last name is kept iff it matches. */
  lemma FindSubstrInListLast(txt: string, names: seq<string>)
    requires names != []
    ensures FindSubstrInList(txt, names) ==
      FindSubstrInList(txt, names[..|names| - 1]) + (if Contains(names[|names| - 1], txt) then [names[|names| - 1]] else [])
  {
  }

  /** A single name yields itself or nothing. */
  lemma FindSubstrInListSingle(txt: string, x: string)
    ensures FindSubstrInList(txt, [x]) == if Contains(x, txt) then [x] else []
  {
    FindSubstrInListLast(txt, [x]);
    assert [x][..0] == [];
  }

  lemma FindSubstrInListMembers(txt: string, names: seq<string>, x: string)
    ensures x in FindSubstrInList(txt, names) <==> x in names && Contains(x, txt)
  {
    assert x in FindSubstrInList(txt, names) <==> multiset(FindSubstrInList(txt, names))[x] > 0;
    assert x in names <==> multiset(names)[x] > 0;
  }

  // ---------------------------------------------------------------------------
  // get_daily_agg_method

  /** The daily rule for one column, first match wins. `None` is the `pass`
      branch, which leaves the column out of the dictionary. */
  function DailyRule(c: string): Option<Method> {
    var col := Lower(c);
    if Contains(col, "total") then Some(Sum)
    else if Contains(col, "avg") || Contains(col, "average") then Some(Mean)
    else if Contains(col, "maximum") then Some(Max)
    else if Contains(col, "minimum") then Some(Min)
    else if Contains(col, "duration") then Some(Sum)
    else if Contains(col, "startdate") then Some(First)
    else if Contains(col, "enddate") then Some(Last)
    else if Contains(Without(col, ' '), "menstrual cycle start") then Some(Max)
    else if Contains(col, "elevation") then Some(Sum)
    else if Contains(col, "weather") then Some(Mean)
    else if Contains(Without(col, ' '), "stepcount") then Some(Sum)
    else if col == "Date" then None
    else Some(Mean)
  }

  /** The menstrual-cycle branch never fires: its pattern has spaces and the
      name it is searched in has had every space removed. */
  lemma MenstrualBranchDead(c: string)
    ensures !Contains(Without(Lower(c), ' '), "menstrual cycle start")
  {
    if Contains(Without(Lower(c), ' '), "menstrual cycle start") {
      assert "menstrual cycle start"[9] == ' ';
      ContainsCharsOf(Without(Lower(c), ' '), "menstrual cycle start", ' ');
    }
  }

  /** The 'Date' branch never fires: a lower-cased name has no capital D. */
  lemma DateBranchDead(c: string)
    ensures Lower(c) != "Date"
  {
    if |c| == 4 {
      assert !IsUpper(Lower(c)[0]);
    }
  }

  /** So every column receives a daily method. */
  lemma DailyRuleTotal(c: string)
    ensures DailyRule(c).Some?
  {
    MenstrualBranchDead(c);
    DateBranchDead(c);
  }

  /** The dictionary built by get_daily_agg_method: every input column is a
      key, and its value is the first matching daily rule. */
  function DailyAggMethod(cols: seq<string>): (agg: map<string, Method>)
    ensures agg.Keys == set c | c in cols
    ensures forall c :: c in agg ==> DailyRule(c) == Some(agg[c])
  {
    if cols == [] then map[]
    else
      var init, c := cols[..|cols| - 1], cols[|cols| - 1];
      assert cols == init + [c];
      var agg := DailyAggMethod(init);
      DailyRuleTotal(c);
      match DailyRule(c)
      case Some(m) => agg[c := m]
  }

  /** 'total' is tested before 'avg', which is tested before 'duration': an
      "Avg Duration" column is averaged, a "Total Duration" column summed. */
  lemma DailyPrecedence(c: string)
    ensures Contains(Lower(c), "total") ==> DailyRule(c) == Some(Sum)
    ensures !Contains(Lower(c), "total") && Contains(Lower(c), "avg") ==> DailyRule(c) == Some(Mean)
    ensures !Contains(Lower(c), "total") && !Contains(Lower(c), "avg") && !Contains(Lower(c), "average")
      && !Contains(Lower(c), "maximum") && !Contains(Lower(c), "minimum") && Contains(Lower(c), "duration")
      ==> DailyRule(c) == Some(Sum)
  {
  }

  lemma AvgDurationIsMean(c: string)
    requires c == "Avg Duration"
    ensures DailyRule(c) == Some(Mean)
  {
    var low := Lower(c);
    LowerAvgDuration(c);
    ContainsPrefix(low, "avg");
    if Contains(low, "total") {
      ContainsCharsOf(low, "total", 'l');
    }
  }

  lemma LowerAvgDuration(c: string)
    requires c == "Avg Duration"
    ensures Lower(c) == "avg duration" && 'l' !in Lower(c) && StartsWith(Lower(c), "avg")
  {
    assert Lower(c)[0] == 'a';
    assert Lower(c) == "avg duration";
  }

  // ---------------------------------------------------------------------------
  // get_weekly_agg_method

  const WorkoutCases: seq<string> := ["Duration", "Total Distance", "Total Energy Burned"]

  const RecordCases: seq<string> :=
    ["Resting Heart Rate", "VO2 Max", "Body Mass", "Heart Rate Variability SDNN",
     "Blood Pressure", "Blood Pressure", "Respiratory Rate"]

  /** The keys of `special_cases` in dict order: the workout names, then the
      record names, the repeated 'Blood Pressure' being a single key. */
  const SpecialNames: seq<string> :=
    ["Duration", "Total Distance", "Total Energy Burned",
     "Resting Heart Rate", "VO2 Max", "Body Mass", "Heart Rate Variability SDNN",
     "Blood Pressure", "Respiratory Rate"]

  /** `special_cases[s]`: the record names, added last by `update`, take [mean, std]. */
  function SpecialAgg(s: string): Agg {
    if s in RecordCases then Many([Mean, Std]) else Many([Sum, Mean, Min, Max])
  }

  /** The last special name (in dict order) that `c` contains. */
  function LastMatch(c: string, names: seq<string>): (r: Option<string>)
    ensures r.Some? ==> r.value in names && Contains(c, r.value)
    ensures r.None? <==> forall s :: s in names ==> !Contains(c, s)
  {
    if names == [] then None
    else if Contains(c, names[|names| - 1]) then Some(names[|names| - 1])
    else
      var init := names[..|names| - 1];
      assert names == init + [names[|names| - 1]];
      LastMatch(c, init)
  }

  /** `for m in ms: agg[m] = a`. */
  function MarkAll(agg: map<string, Agg>, ms: seq<string>, a: Agg): (r: map<string, Agg>)
    ensures r.Keys == agg.Keys + set m | m in ms
    ensures forall k :: k in r ==> r[k] == if k in ms then a else agg[k]
    decreases |ms|
  {
    if ms == [] then agg
    else
      assert forall k :: k in ms <==> k == ms[0] || k in ms[1..];
      MarkAll(agg[ms[0] := a], ms[1..], a)
  }

  /** The first loop: for each special name `s`, in order, every column that
      matches `.*s.*` is (re)assigned `special_cases[s]`. */
  function SpecialPass(names: seq<string>, cols: seq<string>): (agg: map<string, Agg>)
    ensures agg.Keys == set c | c in cols && LastMatch(c, names).Some?
    ensures forall c :: c in agg ==> agg[c] == SpecialAgg(LastMatch(c, names).value)
  {
    if names == [] then map[]
    else
      var init, s := names[..|names| - 1], names[|names| - 1];
      assert names == init + [s];
      var matches := FindSubstrInList(s, cols);
      forall c ensures c in matches <==> c in cols && Contains(c, s) {
        FindSubstrInListMembers(s, cols, c);
      }
      MarkAll(SpecialPass(init, cols), matches, SpecialAgg(s))
  }

  /** `remaining_cols.remove(k)` for every key `k`: each call drops the FIRST
      occurrence of `k` only. */
  function DropFirstOccurrences(cols: seq<string>, keys: set<string>): (r: seq<string>)
    ensures forall x :: multiset(r)[x] ==
                       if x in keys && x in cols then multiset(cols)[x] - 1 else multiset(cols)[x]
  {
    if cols == [] then []
    else
      assert cols == [cols[0]] + cols[1..];
      if cols[0] in keys then DropFirstOccurrences(cols[1..], keys - {cols[0]})
      else [cols[0]] + DropFirstOccurrences(cols[1..], keys)
  }

  /** The method for a column no special name claimed. */
  function WeeklyRule(c: string): Agg {
    var col := Squash(c);
    if Contains(col, "elevation") then Many([Mean, Min, Max])
    else if Contains(col, "pace") then Many([Mean, Min, Max])
    else if Contains(col, "menstrualcyclestart") then One(Max)
    else One(Mean)
  }

  /** The second loop: `for c in remaining_cols: agg[c] = ...`. */
  function GenericPass(agg: map<string, Agg>, cols: seq<string>): (r: map<string, Agg>)
    ensures r.Keys == agg.Keys + set c | c in cols
    ensures forall k :: k in r ==> r[k] == if k in cols then WeeklyRule(k) else agg[k]
    decreases |cols|
  {
    if cols == [] then agg
    else
      assert forall k :: k in cols <==> k == cols[0] || k in cols[1..];
      GenericPass(agg[cols[0] := WeeklyRule(cols[0])], cols[1..])
  }

  /** What the weekly table assigns to column `c` of `cols`, given the special
      names in dict order. */
  function WeeklyExpected(names: seq<string>, cols: seq<string>, c: string): Agg {
    if LastMatch(c, names).Some? && multiset(cols)[c] == 1
    then SpecialAgg(LastMatch(c, names).value)
    else WeeklyRule(c)
  }

  /** The two passes of get_weekly_agg_method for a given list of special names. */
  function WeeklyPasses(names: seq<string>, cols: seq<string>): (agg: map<string, Agg>)
    ensures agg.Keys == set c | c in cols
    ensures forall c :: c in agg ==> agg[c] == WeeklyExpected(names, cols, c)
  {
    var special := SpecialPass(names, cols);
    var remaining := DropFirstOccurrences(cols, special.Keys);
    RemainingColumns(cols, special.Keys);
    GenericPass(special, remaining)
  }

  /** A column stays for the second loop when no special name claimed it,
      or when it is repeated. */
  lemma RemainingColumns(cols: seq<string>, keys: set<string>)
    ensures forall c :: c in DropFirstOccurrences(cols, keys) <==> c in cols && (c !in keys || multiset(cols)[c] > 1)
  {
    var remaining := DropFirstOccurrences(cols, keys);
    forall c ensures c in remaining <==> c in cols && (c !in keys || multiset(cols)[c] > 1) {
      assert c in remaining <==> multiset(remaining)[c] > 0;
      assert c in cols <==> multiset(cols)[c] > 0;
    }
  }

  /** The dictionary built by get_weekly_agg_method. Every column gets exactly
      one entry. A column that occurs once and contains a special name gets the
      method of the LAST special name it contains; any other column gets the
      generic weekly rule. A repeated column keeps one copy in
      `remaining_cols`, so the generic rule overrides its special method. */
  function WeeklyAggMethod(cols: seq<string>): (agg: map<string, Agg>)
    ensures agg.Keys == set c | c in cols
    ensures forall c :: c in agg ==> agg[c] == WeeklyExpected(SpecialNames, cols, c)
  {
    WeeklyPasses(SpecialNames, cols)
  }

  /** A distinct column containing a record special name is summarised by
      [mean, std], whatever workout name it also contains. */
  lemma WeeklyRecordNameWins(cols: seq<string>, c: string, s: string)
    requires c in cols && multiset(cols)[c] == 1
    requires s in RecordCases && Contains(c, s)
    ensures WeeklyAggMethod(cols)[c] == Many([Mean, Std])
  {
    var i := RecordNameIndex(s);
    LastMatchAfter(c, SpecialNames, i);
    var j :| i <= j < |SpecialNames| && LastMatch(c, SpecialNames) == Some(SpecialNames[j]);
    RecordNameAgg(j);
  }

  /** The special names from the fourth on are record names. */
  lemma RecordNameAgg(j: nat)
    requires 3 <= j < |SpecialNames|
    ensures SpecialAgg(SpecialNames[j]) == Many([Mean, Std])
  {
    assert SpecialNames[3..] == RecordNames;
    assert SpecialNames[j] == RecordNames[j - 3];
    assert RecordNames[j - 3] in RecordCases;
  }

  /** The record names in the order of `special_cases`. */
  const RecordNames: seq<string> :=
    ["Resting Heart Rate", "VO2 Max", "Body Mass", "Heart Rate Variability SDNN",
     "Blood Pressure", "Respiratory Rate"]

  /** Every record name sits after the three workout names. */
  lemma RecordNameIndex(s: string) returns (i: nat)
    requires s in RecordCases
    ensures 3 <= i < |SpecialNames| && SpecialNames[i] == s
  {
    assert s in RecordNames;
    var k :| 0 <= k < |RecordNames| && RecordNames[k] == s;
    i := k + 3;
    assert SpecialNames[3..] == RecordNames;
  }

  /** The last match sits at or after any matching position. */
  lemma {:induction false} LastMatchAfter(c: string, names: seq<string>, i: nat)
    requires i < |names| && Contains(c, names[i])
    ensures exists j :: i <= j < |names| && LastMatch(c, names) == Some(names[j])
    decreases |names|
  {
    var n := |names|;
    if !Contains(c, names[n - 1]) {
      assert i < n - 1;
      var init := names[..n - 1];
      assert init[i] == names[i];
      LastMatchAfter(c, init, i);
      var j :| i <= j < |init| && LastMatch(c, init) == Some(init[j]);
      assert names[j] == init[j];
    } else {
      assert LastMatch(c, names) == Some(names[n - 1]);
    }
  }

  // ---------------------------------------------------------------------------
  // get_monthly_agg_method

  /** The monthly rule for one column; `None` is the `pass` branch. */
  function MonthlyRule(c: string): Option<Agg> {
    var col := Squash(c);
    if Contains(col, "totalduration") || Contains(col, "totaldistance") || Contains(col, "totalenergy")
    then Some(Many([Sum, Mean, Std]))
    else if Contains(col, "speed") then Some(One(Mean))
    else if Contains(col, "date") then None
    else Some(Many([Mean, Std]))
  }

  /** The dictionary built by get_monthly_agg_method: a column is a key exactly
      when its monthly rule is not the `pass` branch. */
  function MonthlyAggMethod(cols: seq<string>): (agg: map<string, Agg>)
    ensures agg.Keys == set c | c in cols && MonthlyRule(c).Some?
    ensures forall c :: c in agg ==> MonthlyRule(c) == Some(agg[c])
  {
    if cols == [] then map[]
    else
      var init, c := cols[..|cols| - 1], cols[|cols| - 1];
      assert cols == init + [c];
      var agg := MonthlyAggMethod(init);
      match MonthlyRule(c)
      case Some(a) => agg[c := a]
      case None => agg
  }

  /** Date columns drop out of the monthly table, unless an earlier keyword claims them. */
  lemma MonthlyOmitsDates(cols: seq<string>, c: string)
    requires c in cols
    ensures c !in MonthlyAggMethod(cols) <==>
      Contains(Squash(c), "date") && !Contains(Squash(c), "speed")
      && !Contains(Squash(c), "totalduration") && !Contains(Squash(c), "totaldistance")
      && !Contains(Squash(c), "totalenergy")
  {
  }
}
