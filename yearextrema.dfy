/** get_year_extrema in utils.py: the oldest and newest year of a column,
    taken as the first and last of its sorted distinct values. */
module YearExtrema {
  import opened Wrappers
  import opened Seqs

  predicate Sorted(s: seq<int>) {
    forall i, j :: 0 <= i < j < |s| ==> s[i] <= s[j]
  }

  /** `x` inserted into the sorted `s` before the first larger element. */
  function Insert(x: int, s: seq<int>): (r: seq<int>)
    requires Sorted(s)
    ensures Sorted(r) && |r| == |s| + 1
    ensures forall y :: y in r <==> y in s || y == x
  {
    if s == [] then [x]
    else if x <= s[0] then [x] + s
    else
      var rest := Insert(x, s[1..]);
      assert s == [s[0]] + s[1..];
      assert forall k :: 0 <= k < |rest| ==> s[0] <= rest[k] by {
        forall k | 0 <= k < |rest| ensures s[0] <= rest[k] {
          assert rest[k] in rest;
        }
      }
      [s[0]] + rest
  }

  /** numpy's `sort`: the elements of `s` in ascending order. */
  function Sort(s: seq<int>): (r: seq<int>)
    ensures Sorted(r) && |r| == |s|
    ensures forall y :: y in r <==> y in s
  {
    if s == [] then []
    else
      assert s == s[..|s| - 1] + [s[|s| - 1]];
      Insert(s[|s| - 1], Sort(s[..|s| - 1]))
  }

  lemma {:induction false} InsertPermutes(x: int, s: seq<int>)
    requires Sorted(s)
    ensures multiset(Insert(x, s)) == multiset(s) + multiset{x}
  {
    if s != [] && x > s[0] {
      InsertPermutes(x, s[1..]);
      assert s == [s[0]] + s[1..];
    }
  }

  /** Sorting only reorders: every value keeps its number of occurrences. */
  lemma {:induction false} SortPermutes(s: seq<int>)
    ensures multiset(Sort(s)) == multiset(s)
  {
    if s != [] {
      var init := s[..|s| - 1];
      SortPermutes(init);
      InsertPermutes(s[|s| - 1], Sort(init));
      assert s == init + [s[|s| - 1]];
    }
  }

  /** `(oldest, newest)`, or the IndexError `sorted_years[0]` raises on an
      empty column. */
  function GetYearExtrema(col: seq<int>): (r: Result<(int, int)>)
    ensures r.Err? <==> col == []
    ensures r.Err? ==> r.error == IndexError
    ensures r.Ok? ==> r.value.0 in col && r.value.1 in col
    ensures r.Ok? ==> forall x :: x in col ==> r.value.0 <= x <= r.value.1
  {
    var sortedYears := Sort(Unique(col));
    if |sortedYears| == 0 then
      Err(IndexError)
    else
      var oldest, newest := sortedYears[0], sortedYears[|sortedYears| - 1];
      assert forall x :: x in col ==> oldest <= x <= newest by {
        forall x | x in col ensures oldest <= x <= newest {
          var k :| 0 <= k < |sortedYears| && sortedYears[k] == x;
        }
      }
      Ok((oldest, newest))
  }

  /** The oldest year never exceeds the newest. */
  lemma OldestNotAfterNewest(col: seq<int>)
    requires col != []
    ensures GetYearExtrema(col).Ok? && GetYearExtrema(col).value.0 <= GetYearExtrema(col).value.1
  {
    assert col[0] in col;
  }

  /** Only the set of years matters: repeating years, or listing them in
      another order, changes nothing. */
  lemma ExtremaOfSetOnly(a: seq<int>, b: seq<int>)
    requires forall x :: x in a <==> x in b
    ensures GetYearExtrema(a) == GetYearExtrema(b)
  {
    var ra, rb := GetYearExtrema(a), GetYearExtrema(b);
    if b != [] {
      assert b[0] in a;
    }
    if a != [] {
      assert a[0] in b;
      assert ra.value.0 <= rb.value.0 && rb.value.0 <= ra.value.0;
      assert ra.value.1 <= rb.value.1 && rb.value.1 <= ra.value.1;
    }
  }

  /** A column of a single year gives that year twice. */
  lemma SingleYear(col: seq<int>, y: int)
    requires col != [] && forall x :: x in col ==> x == y
    ensures GetYearExtrema(col) == Ok((y, y))
  {
  }
}
