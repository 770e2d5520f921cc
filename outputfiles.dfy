/** The file name DatasetPrep.write_to_csv in preparedatasets.py writes a
    DataFrame to: `{PD_OUTPUT_PATH}/{export date}_{table}_{suffix}.csv`.
    The output directory and the export date are parameters; writing the
    file is not modelled. */
module OutputFiles {
  import opened Wrappers

  /** The suffix constants of settings.py. */
  const DailyAggSuffix := "dailyAggregate"
  const WeeklyAggSuffix := "weeklyAggregate"
  const MonthlyAggSuffix := "monthlyAggregate"
  const DailyResampleSuffix := "resampledDaily"

  /** The file types write_to_csv accepts. */
  const FileTypes: seq<string> := ["d-agg", "w-agg", "m-agg", "d-resample", "as-is"]

  /** `file_suffix_map.get(file_type)`. */
  function FileSuffix(fileType: string): (r: Option<string>)
    ensures r.Some? <==> fileType in FileTypes
    ensures fileType == "as-is" ==> r == Some("")
  {
    if fileType == "d-agg" then Some(DailyAggSuffix)
    else if fileType == "w-agg" then Some(WeeklyAggSuffix)
    else if fileType == "m-agg" then Some(MonthlyAggSuffix)
    else if fileType == "d-resample" then Some(DailyResampleSuffix)
    else if fileType == "as-is" then Some("")
    else None
  }

  /** `if tablename:` — neither None nor the empty string. */
  predicate Named(tablename: Option<string>) {
    tablename.Some? && tablename.value != ""
  }

  /** The name write_to_csv writes to, or the ValueError it raises for an
      unknown file type. */
  function CsvFileName(outputPath: string, exportDate: string, fileType: string, tablename: Option<string>)
    : (r: Result<string>)
    ensures r.Err? <==> fileType !in FileTypes
    ensures r.Err? ==> r.error.ValueError?
    ensures r.Ok? ==> var prefix := outputPath + "/" + exportDate + "_";
      |prefix| + 4 <= |r.value| && r.value[..|prefix|] == prefix && r.value[|r.value| - 4..] == ".csv"
  {
    match FileSuffix(fileType)
    // The literal continues over a line break, so its second line's indentation is kept.
    case None => Err(ValueError("write_to_csv() takes in one of the following: " + "                             "
                                + "['d-agg', 'w-agg', 'm-agg', 'd-resample']"))
    case Some(suffix) =>
      var prefix := outputPath + "/" + exportDate + "_";
      var table := if !Named(tablename) then ""
                   else if fileType != "as-is" then tablename.value + "_"
                   else tablename.value;
      var name := prefix + table + suffix + ".csv";
      assert name[..|prefix|] == prefix;
      Ok(name)
  }

  /** What stands between the date and ".csv": the table part and the suffix. */
  function Middle(fileType: string, tablename: Option<string>): string
    requires fileType in FileTypes
  {
    (if !Named(tablename) then "" else if fileType != "as-is" then tablename.value + "_" else tablename.value)
    + FileSuffix(fileType).value
  }

  lemma CsvFileNameShape(outputPath: string, exportDate: string, fileType: string, tablename: Option<string>)
    requires fileType in FileTypes
    ensures CsvFileName(outputPath, exportDate, fileType, tablename)
         == Ok(outputPath + "/" + exportDate + "_" + Middle(fileType, tablename) + ".csv")
  {
    var prefix := outputPath + "/" + exportDate + "_";
    var table := if !Named(tablename) then ""
                 else if fileType != "as-is" then tablename.value + "_"
                 else tablename.value;
    var suffix := FileSuffix(fileType).value;
    assert prefix + table + suffix + ".csv" == prefix + (table + suffix) + ".csv";
  }

  /** The five suffixes, with the separator a named table puts before them,
      are pairwise different. */
  lemma SuffixesDistinct(f: string, g: string)
    requires f in FileTypes && g in FileTypes && f != g
    ensures FileSuffix(f).value != FileSuffix(g).value
    ensures Separated(f) != Separated(g)
  {
    var s, t := FileSuffix(f).value, FileSuffix(g).value;
    assert |DailyAggSuffix| == 14 && |WeeklyAggSuffix| == 15 && |MonthlyAggSuffix| == 16;
    assert |DailyResampleSuffix| == 14 && DailyAggSuffix[0] != DailyResampleSuffix[0];
    assert s != t;
    if f != "as-is" && g != "as-is" {
      assert Separated(f)[1..] == s && Separated(g)[1..] == t;
    }
  }

  /** The suffix with the "_" that separates it from a table name. */
  function Separated(fileType: string): string
    requires fileType in FileTypes
  {
    (if fileType != "as-is" then "_" else "") + FileSuffix(fileType).value
  }

  /** The part between prefix and ".csv" is recovered from the name. */
  lemma MiddleOfName(prefix: string, middle: string)
    ensures (prefix + middle + ".csv")[|prefix|..|prefix + middle + ".csv"| - 4] == middle
  {
  }

  /** The same table written as two different file types goes to two
      different files. */
  lemma FileTypesDoNotCollide(outputPath: string, exportDate: string, f: string, g: string,
                              tablename: Option<string>)
    requires f in FileTypes && g in FileTypes && f != g
    ensures CsvFileName(outputPath, exportDate, f, tablename) != CsvFileName(outputPath, exportDate, g, tablename)
  {
    CsvFileNameShape(outputPath, exportDate, f, tablename);
    CsvFileNameShape(outputPath, exportDate, g, tablename);
    SuffixesDistinct(f, g);
    var prefix := outputPath + "/" + exportDate + "_";
    var mf, mg := Middle(f, tablename), Middle(g, tablename);
    if Named(tablename) {
      var tv := tablename.value;
      assert mf == tv + Separated(f) && mg == tv + Separated(g);
      assert mf[|tv|..] == Separated(f) && mg[|tv|..] == Separated(g);
    } else {
      assert mf == FileSuffix(f).value && mg == FileSuffix(g).value;
    }
    assert mf != mg;
    MiddleOfName(prefix, mf);
    MiddleOfName(prefix, mg);
  }

  /** For one file type, two different table names give two different files. */
  lemma TableNamesDoNotCollide(outputPath: string, exportDate: string, fileType: string, t: string, u: string)
    requires fileType in FileTypes && t != "" && u != "" && t != u
    ensures CsvFileName(outputPath, exportDate, fileType, Some(t))
         != CsvFileName(outputPath, exportDate, fileType, Some(u))
  {
    CsvFileNameShape(outputPath, exportDate, fileType, Some(t));
    CsvFileNameShape(outputPath, exportDate, fileType, Some(u));
    var prefix := outputPath + "/" + exportDate + "_";
    var mt, mu := Middle(fileType, Some(t)), Middle(fileType, Some(u));
    var tail := Separated(fileType);
    assert mt == t + tail && mu == u + tail;
    assert mt[..|mt| - |tail|] == t && mu[..|mu| - |tail|] == u;
    assert mt != mu;
    MiddleOfName(prefix, mt);
    MiddleOfName(prefix, mu);
  }

  /** The example of the write_to_csv docstring. */
  lemma RunningResampledDaily(outputPath: string, exportDate: string, fileType: string, table: string)
    requires exportDate == "20220320" && fileType == "d-resample" && table == "Running"
    ensures CsvFileName(outputPath, exportDate, fileType, Some(table))
         == Ok(outputPath + "/20220320_Running_resampledDaily.csv")
  {
    CsvFileNameShape(outputPath, exportDate, fileType, Some(table));
    var m := Middle(fileType, Some(table));
    assert m == "Running_resampledDaily" by {
      assert m == table + "_" + DailyResampleSuffix;
    }
    assert outputPath + "/" + exportDate + "_" + m + ".csv" == outputPath + ("/" + exportDate + "_" + m + ".csv");
    DocstringTail(exportDate, m);
  }

  lemma DocstringTail(exportDate: string, m: string)
    requires exportDate == "20220320" && m == "Running_resampledDaily"
    ensures "/" + exportDate + "_" + m + ".csv" == "/20220320_Running_resampledDaily.csv"
  {
  }
}
