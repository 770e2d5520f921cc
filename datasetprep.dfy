/** The memo dictionaries of DatasetPrep in preparedatasets.py. The
    aggregate_* methods compute a table's daily, weekly or monthly aggregate
    and keep it in `daily_aggregates`, `weekly_aggregates`,
    `monthly_aggregates` or `resampled_tables`, keyed by table name. The
    DataFrames themselves are abstract: a Frame records only what it was
    computed from. */
module Prep {
  import opened Wrappers
  import opened Text

  /** What an aggregated DataFrame was computed from. */
  datatype Frame =
    | Daily(table: string, dateColumn: string)  // aggregate_daily(table, date_column)
    | Weekly(daily: Frame)                      // grouped by week from a daily aggregate
    | Monthly(daily: Frame)                     // grouped by month from a daily aggregate
    | Resampled(daily: Frame)                   // a daily aggregate resampled to every day
    | Joined(parts: seq<Frame>)                 // outer join of aggregates, in list order

  datatype Frequency = DayFreq | WeekFreq | MonthFreq

  /** `freq.startswith('d' | 'w' | 'm')`, as aggregate_table tests it. */
  function FrequencyOf(freq: string): (r: Result<Frequency>)
    ensures r == Ok(DayFreq) <==> |freq| > 0 && freq[0] == 'd'
    ensures r == Ok(WeekFreq) <==> |freq| > 0 && freq[0] == 'w'
    ensures r == Ok(MonthFreq) <==> |freq| > 0 && freq[0] == 'm'
    ensures r.Err? ==> r.error.ValueError?
  {
    if StartsWith(freq, "d") then Ok(DayFreq)
    else if StartsWith(freq, "w") then Ok(WeekFreq)
    else if StartsWith(freq, "m") then Ok(MonthFreq)
    else Err(ValueError("Accepts 'daily' or 'd', 'weekly' or 'w', 'monthly' or 'm'."))
  }

  /** get_aggregates_dict and join_aggregates lower-case `freq` first. */
  function FrequencyIgnoringCase(freq: string): Result<Frequency> {
    FrequencyOf(Lower(freq))
  }

  /** Lower-casing only widens what is accepted: whatever aggregate_table
      accepts, join_aggregates reads the same way; and "Daily" is accepted
      only by the latter. */
  lemma FrequencyCaseInsensitive(freq: string, name: string)
    requires name == "Daily"
    ensures FrequencyOf(freq).Ok? ==> FrequencyIgnoringCase(freq) == FrequencyOf(freq)
    ensures FrequencyOf(name).Err? && FrequencyIgnoringCase(name) == Ok(DayFreq)
  {
    assert Lower(name)[0] == 'd';
    if FrequencyOf(freq).Ok? {
      assert Lower(freq)[0] == freq[0];
    }
  }

  /** The frames of `tables`, in list order. */
  function Lookup(m: map<string, Frame>, tables: seq<string>): (r: seq<Frame>)
    requires forall t :: t in tables ==> t in m
    ensures |r| == |tables| && forall k :: 0 <= k < |tables| ==> r[k] == m[tables[k]]
  {
    seq(|tables|, k requires 0 <= k < |tables| => m[tables[k]])
  }

  /** The frame aggregate_table computes for table `t` at frequency `f`
      from the daily aggregates `d`: a fresh daily aggregate over
      'startDate', or the weekly or monthly aggregate of the cached one. */
  function Aggregate(f: Frequency, t: string, d: map<string, Frame>): Frame
    requires f != DayFreq ==> t in d
  {
    match f
    case DayFreq => Daily(t, "startDate")
    case WeekFreq => Weekly(d[t])
    case MonthFreq => Monthly(d[t])
  }

  /** The three aggregate containers of a DatasetPrep. */
  datatype Memo = Memo(daily: map<string, Frame>, weekly: map<string, Frame>, monthly: map<string, Frame>)
  {
    /** The container for a frequency. */
    function Container(f: Frequency): map<string, Frame> {
      match f
      case DayFreq => daily
      case WeekFreq => weekly
      case MonthFreq => monthly
    }
  }

  /** What join_aggregates' first loop leaves behind in `m`, starting from
      `m0`: the container of `f` gains exactly the listed tables, each new
      entry the aggregate of its table, and keeps its old entries; daily
      aggregates are only added, over 'startDate', for tables the container
      lacked; the other containers are unchanged. */
  ghost predicate AllAggregated(f: Frequency, tables: seq<string>, m0: Memo, m: Memo) {
    && (forall t :: t in m.Container(f) <==> t in m0.Container(f) || t in tables)
    && (forall t :: t in m0.Container(f) ==> m.Container(f)[t] == m0.Container(f)[t])
    && (forall t :: t in m.Container(f) && t !in m0.Container(f) ==>
          (f != DayFreq ==> t in m.daily) && m.Container(f)[t] == Aggregate(f, t, m.daily))
    && (f != WeekFreq ==> m.weekly == m0.weekly)
    && (f != MonthFreq ==> m.monthly == m0.monthly)
    && (f != DayFreq ==> forall t :: t in m.daily <==> t in m0.daily || (t in tables && t !in m0.Container(f)))
    && (f != DayFreq ==> forall t :: t in m0.daily ==> m.daily[t] == m0.daily[t])
    && (f != DayFreq ==> forall t :: t in m.daily && t !in m0.daily ==> m.daily[t] == Daily(t, "startDate"))
  }

  /** One iteration of that loop, from `m1` to `m2`: table `t` is aggregated
      at `f` unless the container of `f` has it. */
  ghost predicate MissingStep(f: Frequency, t: string, m1: Memo, m2: Memo) {
    && (f != DayFreq && t !in m1.Container(f) ==> t in m2.daily)
    && m2.Container(f) == (if t in m1.Container(f) then m1.Container(f)
                           else m1.Container(f)[t := Aggregate(f, t, m2.daily)])
    && (f != DayFreq ==>
          m2.daily == if t in m1.Container(f) || t in m1.daily then m1.daily else m1.daily[t := Daily(t, "startDate")])
    && (f != WeekFreq ==> m2.weekly == m1.weekly)
    && (f != MonthFreq ==> m2.monthly == m1.monthly)
  }

  /** Before the loop, nothing is aggregated yet. */
  lemma AggregatedNone(f: Frequency, m0: Memo)
    ensures AllAggregated(f, [], m0, m0)
  {
  }

  /** Each iteration extends what the loop leaves behind by its table. */
  lemma AggregatedStep(f: Frequency, tables: seq<string>, t: string, m0: Memo, m1: Memo, m2: Memo)
    requires AllAggregated(f, tables, m0, m1) && MissingStep(f, t, m1, m2)
    ensures AllAggregated(f, tables + [t], m0, m2)
  {
    forall u | u in m2.Container(f) && u !in m0.Container(f)
      ensures (f != DayFreq ==> u in m2.daily) && m2.Container(f)[u] == Aggregate(f, u, m2.daily)
    {
      if u != t || t in m1.Container(f) {
        assert u in m1.Container(f);
      }
    }
  }

  /** extract_to_dataframe's error for a table in neither list. */
  function NotSupported(t: string): Error {
    ValueError("extract_to_dataframe: Have not yet implemented support for " + t)
  }

  /** A daily aggregate of table `t`. */
  predicate DailyOf(f: Frame, t: string) {
    f.Daily? && f.table == t
  }

  class DatasetPrep {
    /** `WORKOUT_TABLES` and `RECORD_TABLES`, as given to the constructor. */
    const workoutTables: seq<string>
    const recordTables: seq<string>
    var daily: map<string, Frame>
    var weekly: map<string, Frame>
    var monthly: map<string, Frame>
    var resampled: map<string, Frame>

    /** Only a table in one of the two lists can be read from the database
        (extract_to_dataframe raises for any other), so only such a table
        has cached frames, each computed from a daily aggregate of it. */
    predicate Valid()
      reads this
    {
      && (forall t :: t in daily ==> Listed(t) && DailyOf(daily[t], t))
      && (forall t :: t in weekly ==> Listed(t) && weekly[t].Weekly? && DailyOf(weekly[t].daily, t))
      && (forall t :: t in monthly ==> Listed(t) && monthly[t].Monthly? && DailyOf(monthly[t].daily, t))
      && (forall t :: t in resampled ==> Listed(t) && resampled[t].Resampled? && DailyOf(resampled[t].daily, t))
    }

    /** The table lists are kept and the containers start empty. */
    constructor (workoutTables: seq<string>, recordTables: seq<string>)
      ensures Valid()
      ensures this.workoutTables == workoutTables && this.recordTables == recordTables
      ensures daily == map[] && weekly == map[] && monthly == map[] && resampled == map[]
    {
      this.workoutTables, this.recordTables := workoutTables, recordTables;
      daily, weekly, monthly, resampled := map[], map[], map[], map[];
    }

    /** extract_to_dataframe reads a table only when it is in one of the
        two lists. */
    predicate Listed(t: string) {
      t in workoutTables || t in recordTables
    }

    /** join_aggregates' first loop raises at `t`, from the memos `m0` it
        starts from: the container of `f` lacks `t`, which cannot be read.
        (What the loop adds to the container is listed, so it does not
        matter.) */
    predicate Unsupported(f: Frequency, t: string, m0: Memo) {
      t !in m0.Container(f) && !Listed(t)
    }

    /** No listed table makes join_aggregates' first loop raise. */
    predicate AllSupported(f: Frequency, tables: seq<string>, m0: Memo) {
      forall t :: t in tables ==> !Unsupported(f, t, m0)
    }

    /** Whether the loop raises at a table is decided by the memos it
        started from, as long as it has not raised before. */
    lemma SupportedNow(f: Frequency, prefix: seq<string>, t: string, m0: Memo, m1: Memo)
      requires AllAggregated(f, prefix, m0, m1) && AllSupported(f, prefix, m0)
      ensures Unsupported(f, t, m1) <==> Unsupported(f, t, m0)
    {
      if t in m1.Container(f) && t !in m0.Container(f) {
        assert t in prefix;
      }
    }

    /** Since only readable tables are cached, join_aggregates' first loop
        runs through exactly when every table it is given is readable. */
    lemma SupportedIffListed(f: Frequency, tables: seq<string>)
      requires Valid()
      ensures AllSupported(f, tables, Memos()) <==> forall t :: t in tables ==> Listed(t)
    {

    }

    /** The aggregate containers. */
    function Memos(): Memo
      reads this
    {
      Memo(daily, weekly, monthly)
    }

    /** The container for a frequency. */
    function Container(f: Frequency): map<string, Frame>
      reads this
    {
      Memos().Container(f)
    }

    /** get_aggregates_dict(freq). */
    function AggregatesDict(freq: string): (r: Result<map<string, Frame>>)
      reads this
      ensures r.Err? <==> FrequencyIgnoringCase(freq).Err?
      ensures r.Ok? ==> r.value == Container(FrequencyIgnoringCase(freq).value)
      ensures r.Err? ==> r.error.ValueError? && StartsWith(r.error.message, "Allowed inputs for freq parameter")
    {
      match FrequencyIgnoringCase(freq)
      case Ok(f) => Ok(Container(f))
      case Err(_) =>
        // The literal continues over a line break, so its second line's indentation is kept.
        Err(ValueError("Allowed inputs for freq parameter: ['d', 'daily', " + "                             "
                       + "'w', 'weekly', 'm', 'monthly']."))
    }

    /** aggregate_daily(tablename, date_column): loads the table, which
        raises ValueError for a table in neither list, then computes and
        stores its daily aggregate. */
    method AggregateDaily(t: string, dateColumn: string) returns (r: Result<Frame>)
      requires Valid()
      modifies this
      ensures Valid()
      ensures r.Ok? <==> Listed(t)
      ensures r.Err? ==> r.error == NotSupported(t) && daily == old(daily)
      ensures r.Ok? ==> r.value == Daily(t, dateColumn) && daily == old(daily)[t := r.value]
      ensures weekly == old(weekly) && monthly == old(monthly) && resampled == old(resampled)
    {
      if !(t in recordTables || t in workoutTables) {
        return Err(NotSupported(t));
      }
      r := Ok(Daily(t, dateColumn));
      daily := daily[t := r.value];
    }

    /** The daily aggregate aggregate_weekly, aggregate_monthly and
        get_resampled_workout start from: the cached one, or a fresh one
        over 'startDate', which is then cached. */
    method DailyFor(t: string) returns (r: Result<Frame>)
      requires Valid()
      modifies this
      ensures Valid()
      ensures r.Ok? <==> Listed(t)
      ensures r.Err? ==> r.error == NotSupported(t) && daily == old(daily)
      ensures r.Ok? && t in old(daily) ==> r.value == old(daily)[t] && daily == old(daily)
      ensures r.Ok? && t !in old(daily) ==> r.value == Daily(t, "startDate") && daily == old(daily)[t := r.value]
      ensures r.Ok? ==> t in daily && daily[t] == r.value
      ensures weekly == old(weekly) && monthly == old(monthly) && resampled == old(resampled)
    {
      if t in daily {
        r := Ok(daily[t]);
      } else {
        r := AggregateDaily(t, "startDate");
      }
    }

    /** aggregate_weekly(table_name): the weekly aggregate of the table's
        daily aggregate, stored. */
    method AggregateWeekly(t: string) returns (r: Result<Frame>)
      requires Valid()
      modifies this
      ensures Valid()
      ensures r.Ok? <==> Listed(t)
      ensures r.Err? ==> r.error == NotSupported(t) && daily == old(daily) && weekly == old(weekly)
      ensures r.Ok? ==> && t in daily
                        && daily == (if t in old(daily) then old(daily) else old(daily)[t := Daily(t, "startDate")])
                        && r.value == Weekly(daily[t]) && weekly == old(weekly)[t := r.value]
      ensures monthly == old(monthly) && resampled == old(resampled)
    {
      var d := DailyFor(t);
      if d.Err? {
        return Err(d.error);
      }
      // The columns to drop are bound only for a listed table, and only a
      // listed table has a daily aggregate, so the UnboundLocalError the
      // source's missing else case would raise cannot happen.
      assert Listed(t);
      r := Ok(Weekly(d.value));
      weekly := weekly[t := r.value];
    }

    /** aggregate_monthly(table_name): the monthly aggregate of the table's
        daily aggregate. It is returned but not stored. */
    method AggregateMonthly(t: string) returns (r: Result<Frame>)
      requires Valid()
      modifies this
      ensures Valid()
      ensures r.Ok? <==> Listed(t)
      ensures r.Err? ==> r.error == NotSupported(t) && daily == old(daily)
      ensures r.Ok? ==> && t in daily && r.value == Monthly(daily[t])
                        && daily == (if t in old(daily) then old(daily) else old(daily)[t := Daily(t, "startDate")])
      ensures weekly == old(weekly) && monthly == old(monthly) && resampled == old(resampled)
    {
      var d := DailyFor(t);
      if d.Err? {
        return Err(d.error);
      }
      r := Ok(Monthly(d.value));
    }

    /** aggregate_table(tablename, freq): aggregates at the frequency `freq`
        starts with (case-sensitively) and stores the result in that
        frequency's container; any other `freq` raises ValueError, and so
        does a table in neither list. */
    method AggregateTable(t: string, freq: string) returns (r: Result<Frame>)
      requires Valid()
      modifies this
      ensures Valid() && resampled == old(resampled)
      ensures r.Err? <==> FrequencyOf(freq).Err? || !Listed(t)
      ensures r.Err? ==> r.error.ValueError? && Memos() == old(Memos())
      ensures FrequencyOf(freq).Ok? && !Listed(t) ==> r == Err(NotSupported(t))
      ensures r.Ok? ==> var f := FrequencyOf(freq).value;
        && (f != DayFreq ==> t in daily) && r.value == Aggregate(f, t, daily)
        && Container(f) == old(Container(f))[t := r.value]
        && (f != DayFreq ==> daily == if t in old(daily) then old(daily) else old(daily)[t := Daily(t, "startDate")])
        && (f != WeekFreq ==> weekly == old(weekly))
        && (f != MonthFreq ==> monthly == old(monthly))
    {
      if StartsWith(freq, "d") {
        assert FrequencyOf(freq) == Ok(DayFreq);
        var res := AggregateDaily(t, "startDate");
        if res.Err? {
          return Err(res.error);
        }
        var agg := res.value;
        daily := daily[t := agg];
        assert Container(DayFreq) == old(Container(DayFreq))[t := agg];
        r := Ok(agg);
      } else if StartsWith(freq, "w") {
        assert FrequencyOf(freq) == Ok(WeekFreq);
        var res := AggregateWeekly(t);
        if res.Err? {
          return Err(res.error);
        }
        var agg := res.value;
        assert agg.Weekly? && DailyOf(agg.daily, t);
        weekly := weekly[t := agg];
        assert Container(WeekFreq) == old(Container(WeekFreq))[t := agg];
        r := Ok(agg);
      } else if StartsWith(freq, "m") {
        assert FrequencyOf(freq) == Ok(MonthFreq);
        var res := AggregateMonthly(t);
        if res.Err? {
          return Err(res.error);
        }
        var agg := res.value;
        assert agg.Monthly? && DailyOf(agg.daily, t);
        monthly := monthly[t := agg];
        assert Container(MonthFreq) == old(Container(MonthFreq))[t := agg];
        r := Ok(agg);
      } else {
        r := Err(ValueError("Accepts 'daily' or 'd', 'weekly' or 'w', 'monthly' or 'm'."));
      }
    }

    /** join_aggregates(freq, table_list): aggregates every listed table not
        yet in the container of `freq` (lower-cased), then joins the
        container's frames in list order. An unknown `freq` raises
        ValueError, and so does a missing table in neither list, after the
        tables before it are aggregated; an empty list raises IndexError at
        `queue[0]`. */
    method JoinAggregates(freq: string, tables: seq<string>) returns (r: Result<Frame>)
      requires Valid()
      modifies this
      ensures Valid() && resampled == old(resampled)
      ensures FrequencyIgnoringCase(freq).Err? ==> r.Err? && r.error.ValueError? && Memos() == old(Memos())
      ensures FrequencyIgnoringCase(freq).Ok? && !AllSupported(FrequencyIgnoringCase(freq).value, tables, old(Memos())) ==>
        var f := FrequencyIgnoringCase(freq).value;
        exists k :: && 0 <= k < |tables| && AllSupported(f, tables[..k], old(Memos()))
                    && Unsupported(f, tables[k], old(Memos())) && r == Err(NotSupported(tables[k]))
                    && AllAggregated(f, tables[..k], old(Memos()), Memos())
      ensures FrequencyIgnoringCase(freq).Ok? && AllSupported(FrequencyIgnoringCase(freq).value, tables, old(Memos())) ==>
        var f := FrequencyIgnoringCase(freq).value;
        && (forall t :: t in tables ==> t in Container(f))
        && (forall t :: t in old(Container(f)) ==> t in Container(f) && Container(f)[t] == old(Container(f))[t])
        && (tables == [] ==> r == Err(IndexError))
        && (tables != [] ==> r == Ok(Joined(Lookup(Container(f), tables))))
      ensures FrequencyIgnoringCase(freq).Ok? && AllSupported(FrequencyIgnoringCase(freq).value, tables, old(Memos())) ==>
        AllAggregated(FrequencyIgnoringCase(freq).value, tables, old(Memos()), Memos())
    {
      var low := Lower(freq);
      if !(StartsWith(low, "d") || StartsWith(low, "w") || StartsWith(low, "m")) {
        // The literal continues over a line break, so its second line's indentation is kept.
        return Err(ValueError("Accepts 'daily' or 'd', 'weekly' or 'w', " + "                             "
                              + "'monthly' or 'm'."));
      }
      var f := FrequencyOf(low).value;
      assert FrequencyOf([low[0]]) == Ok(f);
      var res, stop := AggregateAll(tables, f, [low[0]]);
      if res.Err? {
        return Err(res.error);
      }
      if tables == [] {
        return Err(IndexError);
      }
      var container := Container(f);
      var parts := [container[tables[0]]];
      var queue := tables[1..];
      while queue != []
        invariant |parts| + |queue| == |tables| && queue == tables[|parts|..]
        invariant forall k :: 0 <= k < |parts| ==> parts[k] == container[tables[k]]
        decreases |queue|
      {
        parts := parts + [container[queue[0]]];
        queue := queue[1..];
      }
      assert parts == Lookup(container, tables);
      r := Ok(Joined(parts));
    }

    /** join_aggregates' first loop: every listed table missing from the
        container of `f` is aggregated at `f` (spelled `code`). It raises
        at the first missing table that cannot be read (`stop`), having
        aggregated the tables before it. */
    method AggregateAll(tables: seq<string>, f: Frequency, code: string) returns (r: Result<()>, ghost stop: nat)
      requires Valid() && FrequencyOf(code) == Ok(f)
      modifies this
      ensures Valid() && resampled == old(resampled)
      ensures r.Ok? <==> AllSupported(f, tables, old(Memos()))
      ensures r.Ok? ==> AllAggregated(f, tables, old(Memos()), Memos())
      ensures r.Err? ==>
        && stop < |tables| && r.error == NotSupported(tables[stop])
        && AllSupported(f, tables[..stop], old(Memos())) && Unsupported(f, tables[stop], old(Memos()))
        && AllAggregated(f, tables[..stop], old(Memos()), Memos())
    {
      stop := 0;
      AggregatedNone(f, Memos());
      for i := 0 to |tables|
        invariant Valid() && resampled == old(resampled)
        invariant AllSupported(f, tables[..i], old(Memos()))
        invariant AllAggregated(f, tables[..i], old(Memos()), Memos())
      {
        ghost var m1 := Memos();
        SupportedNow(f, tables[..i], tables[i], old(Memos()), m1);
        var res := AggregateMissing(tables[i], f, code);
        if res.Err? {
          assert !AllSupported(f, tables, old(Memos())) by {
            assert tables[i] in tables;
          }
          return Err(res.error), i;
        }
        AggregatedStep(f, tables[..i], tables[i], old(Memos()), m1, Memos());
        assert tables[..i + 1] == tables[..i] + [tables[i]];
      }
      assert tables[..|tables|] == tables;
      r := Ok(());
    }

    /** One iteration of join_aggregates' first loop: table `t` is
        aggregated at `f` (spelled `code`) unless its container has it; a
        missing table in neither list raises, with nothing changed. */
    method AggregateMissing(t: string, f: Frequency, code: string) returns (r: Result<()>)
      requires Valid() && FrequencyOf(code) == Ok(f)
      modifies this
      ensures Valid() && resampled == old(resampled)
      ensures r.Ok? <==> !Unsupported(f, t, old(Memos()))
      ensures r.Ok? ==> MissingStep(f, t, old(Memos()), Memos())
      ensures r.Err? ==> r.error == NotSupported(t) && Memos() == old(Memos())
    {
      if t !in Container(f) {
        var res := AggregateTable(t, code);
        if res.Err? {
          return Err(res.error);
        }
      }
      r := Ok(());
    }

    /** get_resampled_workout(workout_name): the table's daily aggregate,
        resampled to every day and stored. Writing it to a file is not part
        of this model. */
    method GetResampledWorkout(t: string) returns (r: Result<Frame>)
      requires Valid()
      modifies this
      ensures Valid()
      ensures r.Ok? <==> Listed(t)
      ensures r.Err? ==> r.error == NotSupported(t) && daily == old(daily) && resampled == old(resampled)
      ensures r.Ok? ==> && t in daily && r.value == Resampled(daily[t])
                        && daily == (if t in old(daily) then old(daily) else old(daily)[t := Daily(t, "startDate")])
                        && resampled == old(resampled)[t := r.value]
      ensures weekly == old(weekly) && monthly == old(monthly)
    {
      var d := DailyFor(t);
      if d.Err? {
        return Err(d.error);
      }
      r := Ok(Resampled(d.value));
      resampled := resampled[t := r.value];
    }
  }
}
