/** Column typing in preparedatasets.py: get_col_dtype, which picks the
    dtype a column is cast to from its unit and its name, and
    extract_unit_from_column, which reads the one unit of a column. */
module ColumnTypes {
  import opened Wrappers
  import opened Text
  import opened Seqs

  /** The dtypes get_col_dtype returns: the strings 'float64', 'int64' and
      'datetime64[ns]', and the Python types bool, float and str. */
  datatype DType = Float64 | Int64 | DateTime64ns | BoolType | FloatType | StrType

  const TimeUnits: seq<string> := ["hr", "min", "s", "sec", "ms", "ns"]
  const MetricUnits: seq<string> := ["m", "km", "cm", "mm"]
  const ImperialUnits: seq<string> := ["mi", "miles", "ft", "feet"]
  const OtherFloatUnits: seq<string> := ["degF", "degC", "%", "lb", "mmHg", "Cal", "kcal", "num"]
  const FloatUnits: seq<string> := TimeUnits + MetricUnits + ImperialUnits + OtherFloatUnits
  const IntUnits: seq<string> := ["count"]

  /** The special-case dictionary, in its insertion order. */
  const SpecialCases: seq<(string, DType)> := [
    ("indoorworkout", Float64),
    ("menstrualcyclestart", Int64),
    ("workoutevent", BoolType),
    ("workoutroute", BoolType),
    ("wasuserentered", FloatType)
  ]

  /** A rate such as "count/min", a listed float unit, or an averaged column. */
  predicate FloatColumn(col: string, unit: string) {
    '/' in unit || unit in FloatUnits || Contains(col, "avg")
  }

  /** The first special case whose key occurs in `col`, in dictionary order. */
  function FirstSpecial(col: string, cases: seq<(string, DType)>): (r: Option<DType>)
    ensures r.None? <==> forall k :: 0 <= k < |cases| ==> !Contains(col, cases[k].0)
    ensures r.Some? ==> exists k :: (0 <= k < |cases| && Contains(col, cases[k].0) && r.value == cases[k].1
                                     && forall k' :: 0 <= k' < k ==> !Contains(col, cases[k'].0))
  {
    if cases == [] then None
    else if Contains(col, cases[0].0) then Some(cases[0].1)
    else
      var r := FirstSpecial(col, cases[1..]);
      if r.Some? then
        var k :| 0 <= k < |cases[1..]| && Contains(col, cases[1..][k].0) && r.value == cases[1..][k].1
          && forall k' :: 0 <= k' < k ==> !Contains(col, cases[1..][k'].0);
        assert cases[k + 1] == cases[1..][k];
        assert forall k' :: 1 <= k' < k + 1 ==> cases[k'] == cases[1..][k' - 1];
        r
      else r
  }

  /** get_col_dtype(column_name); the unit, which the source reads out of the
      name with get_unit_from_string, is a parameter. */
  function GetColDtype(columnName: string, unit: string): (r: DType)
    ensures FloatColumn(Squash(columnName), unit) ==> r == Float64
    ensures !FloatColumn(Squash(columnName), unit) && unit == "count" ==> r == Int64
    ensures !FloatColumn(Squash(columnName), unit) && unit != "count" && Contains(Squash(columnName), "date")
      ==> r == DateTime64ns
    ensures !FloatColumn(Squash(columnName), unit) && unit != "count" && !Contains(Squash(columnName), "date")
      ==> r == (match FirstSpecial(Squash(columnName), SpecialCases)
                case Some(d) => d
                case None => StrType)
  {
    var col := Squash(columnName);
    if FloatColumn(col, unit) then Float64
    else if unit in IntUnits then Int64
    else if Contains(col, "date") then DateTime64ns
    else
      match FirstSpecial(col, SpecialCases)
      case Some(d) => d
      case None => StrType
  }

  /** "count" is not a float unit, so a count column without "avg" in its
      name is always an integer column, whatever else the name says. */
  lemma CountIsInteger(columnName: string)
    requires !Contains(Squash(columnName), "avg")
    ensures GetColDtype(columnName, "count") == Int64
  {
    assert "count" !in FloatUnits by {
      assert forall k :: 0 <= k < |FloatUnits| ==> |FloatUnits[k]| <= 5 && FloatUnits[k] != "count";
    }
  }

  /** Only a column that hits no rule is typed str: no float or integer unit,
      and none of "avg", "date" or the special keys in its normalised name. */
  lemma StrIsLastResort(columnName: string, unit: string)
    ensures GetColDtype(columnName, unit) == StrType <==>
      !FloatColumn(Squash(columnName), unit) && unit != "count" && !Contains(Squash(columnName), "date")
      && forall k :: 0 <= k < |SpecialCases| ==> !Contains(Squash(columnName), SpecialCases[k].0)
  {
  }

  /** The menstrual-cycle key wins over the workout keys that follow it, but
      a unit that makes the column a float column wins over all keys. */
  lemma SpecialCaseOrder(columnName: string, unit: string)
    requires Contains(Squash(columnName), "menstrualcyclestart")
    requires !Contains(Squash(columnName), "indoorworkout") && !Contains(Squash(columnName), "date")
    requires !FloatColumn(Squash(columnName), unit)
    ensures GetColDtype(columnName, unit) == Int64
  {
    assert SpecialCases[0].0 == "indoorworkout" && SpecialCases[1].0 == "menstrualcyclestart";
    var col := Squash(columnName);
    assert FirstSpecial(col, SpecialCases) == FirstSpecial(col, SpecialCases[1..]);
  }

  // ---------------------------------------------------------------------------
  // extract_unit_from_column

  /** A unit cell: `None` is a null cell, `Some("None")` the string 'None'. */
  type UnitCell = Option<string>

  /** The filter as written: `(df[u] != 'None') & (df[u] is not None)`. The
      second conjunct tests whether the Series object is None, which it never
      is, so only the string 'None' is dropped and null cells stay. */
  function KeptAsWritten(cells: seq<UnitCell>): (r: seq<UnitCell>)
    ensures forall x :: x in r <==> x in cells && x != Some("None")
  {
    if cells == [] then []
    else if cells[0] == Some("None") then KeptAsWritten(cells[1..])
    else [cells[0]] + KeptAsWritten(cells[1..])
  }

  /** How numpy renders the array of distinct units in the ValueError
      message: `['km' 'mi']`, a null cell as None. */
  function UnitsText(units: seq<UnitCell>): string {
    "[" + UnitsJoined(units) + "]"
  }

  function UnitsJoined(units: seq<UnitCell>): string {
    if units == [] then ""
    else if |units| == 1 then UnitText(units[0])
    else UnitText(units[0]) + " " + UnitsJoined(units[1..])
  }

  function UnitText(c: UnitCell): string {
    match c
    case None => "None"
    case Some(u) => "'" + u + "'"
  }

  /** The ValueError of a column whose distinct units are not exactly one. */
  function UnitsError(columnName: string, distinct: seq<UnitCell>): Error {
    ValueError(columnName + " has " + Decimal(|distinct|) + " units: " + UnitsText(distinct))
  }

  /** Unit strings as the cells that hold them. */
  function AsCells(units: seq<string>): (r: seq<UnitCell>)
    ensures |r| == |units| && forall k :: 0 <= k < |units| ==> r[k] == Some(units[k])
  {
    seq(|units|, k requires 0 <= k < |units| => Some(units[k]))
  }

  /** extract_unit_from_column as written: the one distinct kept value, which
      may be a null; ValueError naming the column and listing the distinct
      values when there are zero or several. */
  function ExtractUnitAsWritten(columnName: string, cells: seq<UnitCell>): (r: Result<UnitCell>)
    ensures r.Ok? <==> |Unique(KeptAsWritten(cells))| == 1
    ensures r.Err? ==> r == Err(UnitsError(columnName, Unique(KeptAsWritten(cells))))
  {
    var distinct := Unique(KeptAsWritten(cells));
    if |distinct| != 1 then Err(UnitsError(columnName, distinct))
    else Ok(distinct[0])
  }

  /** A column with one unit and one null cell is rejected as written. */
  lemma NullCellCountsAsUnit()
    ensures ExtractUnitAsWritten("Distance", [Some("km"), None]) == Err(UnitsError("Distance", [Some("km"), None]))
    ensures UnitsError("Distance", [Some("km"), None]) == ValueError("Distance has " + "2" + " units: " + "['km' None]")
    ensures ExtractUnitAsWritten("Distance", [None]) == Ok(None)
  {
    var cells: seq<UnitCell> := [Some("km"), None];
    assert KeptAsWritten(cells) == cells;
    assert cells[..1] == [Some("km")] && Unique(cells[..1]) == [Some("km")];
    assert Unique(cells) == cells;
    assert Decimal(2) == "2";
    KmAndNullText();
    var one: seq<UnitCell> := [None];
    assert KeptAsWritten(one) == [None];
    UniqueSingleton(KeptAsWritten(one), None);
  }

  /** The kept values 'km' and a null read as numpy renders them. */
  lemma KmAndNullText()
    ensures UnitsText([Some("km"), None]) == "['km' None]"
  {
    var cells: seq<UnitCell> := [Some("km"), None];
    assert UnitsJoined(cells[1..]) == "None";
  }

  /** The units of the column: its cells that are neither null nor 'None'. */
  function Units(cells: seq<UnitCell>): (r: seq<string>)
    ensures forall u :: u in r <==> Some(u) in cells && u != "None"
  {
    if cells == [] then []
    else if cells[0].None? || cells[0] == Some("None") then Units(cells[1..])
    else [cells[0].value] + Units(cells[1..])
  }

  /** extract_unit_from_column with null cells dropped as well. */
  function ExtractUnit(columnName: string, cells: seq<UnitCell>): (r: Result<string>)
    ensures r.Err? ==> r == Err(UnitsError(columnName, AsCells(Unique(Units(cells)))))
  {
    var distinct := Unique(Units(cells));
    if |distinct| != 1 then Err(UnitsError(columnName, AsCells(distinct)))
    else Ok(distinct[0])
  }

  /** The unit is `u` exactly when `u` occurs and every unit cell holds `u`. */
  lemma ExtractUnitIsTheOnlyUnit(column: string, cells: seq<UnitCell>, u: string)
    ensures ExtractUnit(column, cells) == Ok(u) <==>
      Some(u) in cells && u != "None"
      && forall c :: c in cells && c != None && c != Some("None") ==> c == Some(u)
  {
    UniqueSingleton(Units(cells), u);
    var us := Units(cells);
    if ExtractUnit(column, cells) == Ok(u) {
      forall c | c in cells && c != None && c != Some("None") ensures c == Some(u) {
        assert c.value in us;
      }
    }
    if Some(u) in cells && u != "None" && forall c :: c in cells && c != None && c != Some("None") ==> c == Some(u) {
      assert u in us;
      forall x | x in us ensures x == u {
        assert Some(x) in cells;
      }
    }
  }

  /** Two different units, or none at all, raise ValueError. */
  lemma ExtractUnitRejects(column: string, cells: seq<UnitCell>)
    ensures ExtractUnit(column, cells).Err? <==>
      (forall c :: c in cells ==> c == None || c == Some("None"))
      || exists a, b :: Some(a) in cells && Some(b) in cells && a != b && a != "None" && b != "None"
  {
    var us := Units(cells);
    var distinct := Unique(us);
    if |distinct| == 1 {
      var u := distinct[0];
      ExtractUnitIsTheOnlyUnit(column, cells, u);
      assert Some(u) in cells;
    } else if distinct == [] {
      forall c | c in cells && c.Some? && c.value != "None" ensures c.value in us { }
    } else {
      assert distinct[0] in us && distinct[1] in us;
      assert Some(distinct[0]) in cells && Some(distinct[1]) in cells;
    }
  }

  /** Without null cells the two readings agree. */
  lemma ExtractUnitAgrees(column: string, cells: seq<UnitCell>)
    requires None !in cells
    ensures ExtractUnitAsWritten(column, cells).Ok? <==> ExtractUnit(column, cells).Ok?
    ensures ExtractUnit(column, cells).Ok? ==> ExtractUnitAsWritten(column, cells) == Ok(Some(ExtractUnit(column, cells).value))
  {
    var kept, us := KeptAsWritten(cells), Units(cells);
    var a, b := Unique(kept), Unique(us);
    if |b| == 1 {
      var u := b[0];
      UniqueSingleton(us, u);
      UniqueSingleton(kept, Some(u));
      assert us != [] && us[0] in us;
      forall x | x in kept ensures x == Some(u) {
        assert x.value in us;
      }
    }
    if |a| == 1 {
      var v := a[0];
      UniqueSingleton(kept, v);
      assert kept != [] && kept[0] in kept;
      UniqueSingleton(us, v.value);
      forall x | x in us ensures x == v.value {
        assert Some(x) in kept;
      }
    }
  }
}
