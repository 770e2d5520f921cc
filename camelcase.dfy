/** rename_from_camelcase of preparedatasets.py: strip one leading "HK", then
    `re.sub(pattern, r"\1 \2", name, count=flag_count)`, which puts a space
    inside each non-overlapping match found scanning from the left. The two
    patterns are `(\w)([A-Z])` and, for names containing "VO2Max",
    `(\w\d)([A-Z])`; `\w` is taken over ASCII. A count of 0 means no limit. */
module CamelCase {
  import opened Text

  datatype Pattern =
    | WordUpper       // (\w)([A-Z])
    | WordDigitUpper  // (\w\d)([A-Z])

  function Width(p: Pattern): nat { if p == WordUpper then 2 else 3 }

  /** The pattern matches the window of `s` that starts at `i`. */
  predicate MatchAt(p: Pattern, s: string, i: nat) {
    i + Width(p) <= |s| &&
    match p
    case WordUpper => IsWordChar(s[i]) && IsUpper(s[i + 1])
    case WordDigitUpper => IsWordChar(s[i]) && IsDigit(s[i + 1]) && IsUpper(s[i + 2])
  }

  /** `re.sub` on `s[i..]`, `done` replacements having been made before `i`:
      at each position either the pattern matches (and replacements are left),
      and the window is emitted with a space before its capital letter, or one
      character is copied. */
  function Sub(p: Pattern, s: string, i: nat, count: nat, done: nat): string
    requires i <= |s|
    decreases |s| - i
  {
    if i == |s| then []
    else if (count == 0 || done < count) && MatchAt(p, s, i) then
      var w := Width(p);
      s[i..i + w - 1] + [' ', s[i + w - 1]] + Sub(p, s, i + w, count, done + 1)
    else [s[i]] + Sub(p, s, i + 1, count, done)
  }

  function PatternFor(name: string): Pattern {
    if Contains(name, "VO2Max") then WordDigitUpper else WordUpper
  }

  /** rename_from_camelcase(name, flag_count). */
  function RenameFromCamelcase(name: string, flagCount: nat): string {
    Sub(PatternFor(name), RemovePrefix(name, "HK"), 0, flagCount, 0)
  }

  // ---------------------------------------------------------------------------
  // Specification: the input with one space put into each of a list of matches

  /** `s[i..]` with a space inserted before the capital letter of the match
      window starting at each position of `starts`. */
  function Insert(p: Pattern, s: string, i: nat, starts: seq<nat>): string
    requires i <= |s|
    requires Ascending(p, s, i, starts)
    decreases |starts|
  {
    if starts == [] then s[i..]
    else
      var m, w := starts[0], Width(p);
      AscendingTail(p, s, i, starts);
      s[i..m] + s[m..m + w - 1] + [' ', s[m + w - 1]] + Insert(p, s, m + w, starts[1..])
  }

  /** Match starts at or after `i`, each a real match, none overlapping a later one. */
  predicate Ascending(p: Pattern, s: string, i: nat, starts: seq<nat>) {
    (forall k :: 0 <= k < |starts| ==> i <= starts[k] && MatchAt(p, s, starts[k])) &&
    (forall k, l :: 0 <= k < l < |starts| ==> starts[k] + Width(p) <= starts[l])
  }

  lemma AscendingTail(p: Pattern, s: string, i: nat, starts: seq<nat>)
    requires starts != [] && Ascending(p, s, i, starts)
    ensures starts[0] + Width(p) <= |s|
    ensures Ascending(p, s, starts[0] + Width(p), starts[1..])
  {
    forall k | 0 <= k < |starts| - 1
      ensures starts[0] + Width(p) <= starts[1..][k]
    {
      assert starts[1..][k] == starts[k + 1];
    }
  }

  /** Position `j` lies strictly inside one of the listed match windows. */
  predicate Covered(p: Pattern, starts: seq<nat>, j: nat) {
    exists k :: 0 <= k < |starts| && starts[k] < j < starts[k] + Width(p)
  }

  /** Leftmost-first scanning: every match in [lo, hi) that does not start
      inside an earlier match is taken. */
  predicate Greedy(p: Pattern, s: string, starts: seq<nat>, lo: nat, hi: nat) {
    forall j :: lo <= j < hi && MatchAt(p, s, j) && !Covered(p, starts, j) ==> j in starts
  }

  /** Where the scan stopped looking: the end of the input, unless the count
      ran out, in which case the start of the last replacement. */
  function ScanLimit(s: string, i: nat, starts: seq<nat>, count: nat, done: nat): nat {
    if count == 0 || done + |starts| < count then |s|
    else if starts != [] then starts[|starts| - 1]
    else i
  }

  lemma {:induction false} InsertShift(p: Pattern, s: string, i: nat, starts: seq<nat>)
    requires i < |s|
    requires Ascending(p, s, i + 1, starts)
    ensures Ascending(p, s, i, starts)
    ensures Insert(p, s, i, starts) == [s[i]] + Insert(p, s, i + 1, starts)
  {
    if starts != [] {
      assert s[i..starts[0]] == [s[i]] + s[i + 1..starts[0]];
    }
  }

  /** One replacement at `i` followed by the replacements `rest` further on. */
  lemma TakeAscending(p: Pattern, s: string, i: nat, rest: seq<nat>)
    requires MatchAt(p, s, i)
    requires Ascending(p, s, i + Width(p), rest)
    ensures Ascending(p, s, i, [i] + rest)
  {
    var starts := [i] + rest;
    forall k | 0 <= k < |starts| ensures i <= starts[k] && MatchAt(p, s, starts[k]) {
      if k > 0 { assert starts[k] == rest[k - 1]; }
    }
    forall k, l | 0 <= k < l < |starts| ensures starts[k] + Width(p) <= starts[l] {
      assert starts[l] == rest[l - 1];
      if k > 0 { assert starts[k] == rest[k - 1]; }
    }
  }

  lemma TakeInsert(p: Pattern, s: string, i: nat, rest: seq<nat>)
    requires MatchAt(p, s, i)
    requires Ascending(p, s, i + Width(p), rest)
    ensures Ascending(p, s, i, [i] + rest)
    ensures Insert(p, s, i, [i] + rest)
         == s[i..i + Width(p) - 1] + [' ', s[i + Width(p) - 1]] + Insert(p, s, i + Width(p), rest)
  {
    TakeAscending(p, s, i, rest);
    assert ([i] + rest)[1..] == rest;
    assert s[i..i] == [];
  }

  lemma TakeGreedy(p: Pattern, s: string, i: nat, count: nat, done: nat, rest: seq<nat>)
    requires Greedy(p, s, rest, i + Width(p), ScanLimit(s, i + Width(p), rest, count, done + 1))
    ensures Greedy(p, s, [i] + rest, i, ScanLimit(s, i, [i] + rest, count, done))
  {
    var w, starts := Width(p), [i] + rest;
    assert ScanLimit(s, i, starts, count, done) <= ScanLimit(s, i + w, rest, count, done + 1)
        || ScanLimit(s, i, starts, count, done) == i;
    forall j | i < j < i + w ensures Covered(p, starts, j) {
      assert starts[0] < j < starts[0] + w;
    }
    forall j: nat | Covered(p, rest, j) ensures Covered(p, starts, j) {
      var k :| 0 <= k < |rest| && rest[k] < j < rest[k] + w;
      assert starts[k + 1] == rest[k];
    }
    forall j | i <= j < ScanLimit(s, i, starts, count, done) && MatchAt(p, s, j) && !Covered(p, starts, j)
      ensures j in starts
    {
      if j == i {
        assert starts[0] == j;
      }
    }
  }

  /** No replacement at `i`: the character is copied and the scan moves on. */
  lemma SkipStep(p: Pattern, s: string, i: nat, count: nat, done: nat, starts: seq<nat>)
    requires i < |s|
    requires !((count == 0 || done < count) && MatchAt(p, s, i))
    requires count > 0 ==> done + |starts| <= count
    requires Greedy(p, s, starts, i + 1, ScanLimit(s, i + 1, starts, count, done))
    ensures Greedy(p, s, starts, i, ScanLimit(s, i, starts, count, done))
  {
    forall j | i <= j < ScanLimit(s, i, starts, count, done) && MatchAt(p, s, j) && !Covered(p, starts, j)
      ensures j in starts
    {
    }
  }

  /** The inductive step of SubReplacesMatches when `re.sub` replaces at `i`. */
  lemma TakeCase(p: Pattern, s: string, i: nat, count: nat, done: nat, rest: seq<nat>)
    requires i < |s| && (count == 0 || done < count) && MatchAt(p, s, i)
    requires Ascending(p, s, i + Width(p), rest)
    requires Sub(p, s, i + Width(p), count, done + 1) == Insert(p, s, i + Width(p), rest)
    requires count > 0 ==> done + 1 + |rest| <= count
    requires Greedy(p, s, rest, i + Width(p), ScanLimit(s, i + Width(p), rest, count, done + 1))
    ensures Ascending(p, s, i, [i] + rest)
    ensures Sub(p, s, i, count, done) == Insert(p, s, i, [i] + rest)
    ensures count > 0 ==> done + |[i] + rest| <= count
    ensures Greedy(p, s, [i] + rest, i, ScanLimit(s, i, [i] + rest, count, done))
  {
    TakeInsert(p, s, i, rest);
    TakeGreedy(p, s, i, count, done, rest);
  }

  /** The inductive step of SubReplacesMatches when `re.sub` copies `s[i]`. */
  lemma SkipCase(p: Pattern, s: string, i: nat, count: nat, done: nat, starts: seq<nat>)
    requires i < |s| && !((count == 0 || done < count) && MatchAt(p, s, i))
    requires Ascending(p, s, i + 1, starts)
    requires Sub(p, s, i + 1, count, done) == Insert(p, s, i + 1, starts)
    requires count > 0 ==> done + |starts| <= count
    requires Greedy(p, s, starts, i + 1, ScanLimit(s, i + 1, starts, count, done))
    ensures Ascending(p, s, i, starts)
    ensures Sub(p, s, i, count, done) == Insert(p, s, i, starts)
    ensures Greedy(p, s, starts, i, ScanLimit(s, i, starts, count, done))
  {
    InsertShift(p, s, i, starts);
    SkipStep(p, s, i, count, done, starts);
  }

  /** What `re.sub` does, stated through the list of match starts it replaced:
      the output is the input with a space inside each of those matches; the
      matches are taken left to right without overlap; no more than `count` of
      them are taken (when `count` is not 0); and none is skipped before the
      scan stops. */
  lemma {:induction false} SubReplacesMatches(p: Pattern, s: string, i: nat, count: nat, done: nat)
    returns (starts: seq<nat>)
    requires i <= |s|
    requires count == 0 || done <= count
    ensures Ascending(p, s, i, starts)
    ensures Sub(p, s, i, count, done) == Insert(p, s, i, starts)
    ensures count > 0 ==> done + |starts| <= count
    ensures Greedy(p, s, starts, i, ScanLimit(s, i, starts, count, done))
    decreases |s| - i
  {
    if i == |s| {
      starts := [];
    } else if (count == 0 || done < count) && MatchAt(p, s, i) {
      var rest := SubReplacesMatches(p, s, i + Width(p), count, done + 1);
      TakeCase(p, s, i, count, done, rest);
      starts := [i] + rest;
    } else {
      starts := SubReplacesMatches(p, s, i + 1, count, done);
      SkipCase(p, s, i, count, done, starts);
    }
  }

  /** rename_from_camelcase only inserts single spaces, each between a word
      character and a following capital (after a word character and a digit
      for VO2Max names); the matches are non-overlapping and taken from the
      left; a positive flag_count bounds their number; no match is skipped
      before the scan stops, at the end of the name or once flag_count
      matches are split; so, the count permitting, every match is split. */
  lemma RenameInsertsSpaces(name: string, flagCount: nat) returns (starts: seq<nat>)
    ensures var p, noprefix := PatternFor(name), RemovePrefix(name, "HK");
      && Ascending(p, noprefix, 0, starts)
      && RenameFromCamelcase(name, flagCount) == Insert(p, noprefix, 0, starts)
      && (flagCount > 0 ==> |starts| <= flagCount)
      && Greedy(p, noprefix, starts, 0, ScanLimit(noprefix, 0, starts, flagCount, 0))
      && (flagCount == 0 || |starts| < flagCount ==> Greedy(p, noprefix, starts, 0, |noprefix|))
  {
    starts := SubReplacesMatches(PatternFor(name), RemovePrefix(name, "HK"), 0, flagCount, 0);
  }

  /** Each insertion adds exactly one character. */
  lemma {:induction false} InsertLength(p: Pattern, s: string, i: nat, starts: seq<nat>)
    requires i <= |s| && Ascending(p, s, i, starts)
    ensures |Insert(p, s, i, starts)| == |s| - i + |starts|
    decreases |starts|
  {
    if starts != [] {
      var m, w := starts[0], Width(p);
      AscendingTail(p, s, i, starts);
      InsertLength(p, s, m + w, starts[1..]);
    }
  }

  /** Deleting spaces distributes over concatenation. */
  lemma {:induction false} WithoutConcat(a: string, b: string, c: char)
    ensures Without(a + b, c) == Without(a, c) + Without(b, c)
    decreases |a|
  {
    if a == [] {
      assert a + b == b;
    } else {
      assert (a + b)[0] == a[0];
      assert (a + b)[1..] == a[1..] + b;
      WithoutConcat(a[1..], b, c);
    }
  }

  /** Deleting the spaces again gives back a name that had none: the
      renaming only inserts spaces. */
  lemma {:induction false} InsertUndone(p: Pattern, s: string, i: nat, starts: seq<nat>)
    requires i <= |s| && Ascending(p, s, i, starts)
    requires ' ' !in s
    ensures Without(Insert(p, s, i, starts), ' ') == s[i..]
    decreases |starts|
  {
    if starts == [] {
      WithoutAbsent(s[i..], ' ');
    } else {
      InsertFirst(p, s, i, starts);
      var cut := starts[0] + Width(p) - 1;
      InsertUndone(p, s, cut + 1, starts[1..]);
      SpaceFreeSplit(s, i, cut);
      UndoSplit(s[i..cut], s[cut], Insert(p, s, cut + 1, starts[1..]), s[cut + 1..]);
    }
  }

  /** A slice of a space-free string, split around one character. */
  lemma SpaceFreeSplit(s: string, i: nat, cut: nat)
    requires i <= cut < |s| && ' ' !in s
    ensures ' ' !in s[i..cut] && s[cut] != ' '
    ensures s[i..cut] + ([s[cut]] + s[cut + 1..]) == s[i..]
  {
    assert s[cut] in s;
    assert forall x :: x in s[i..cut] ==> x in s;
  }

  /** The first insertion of a nonempty list, with the text before it. */
  lemma InsertFirst(p: Pattern, s: string, i: nat, starts: seq<nat>)
    requires i <= |s| && Ascending(p, s, i, starts) && starts != []
    ensures starts[0] + Width(p) <= |s|
    ensures Ascending(p, s, starts[0] + Width(p), starts[1..])
    ensures var cut := starts[0] + Width(p) - 1;
      Insert(p, s, i, starts) == s[i..cut] + ([' ', s[cut]] + Insert(p, s, cut + 1, starts[1..]))
  {
    var m, w := starts[0], Width(p);
    AscendingTail(p, s, i, starts);
    assert s[i..m] + s[m..m + w - 1] == s[i..m + w - 1];
  }

  /** Deleting the spaces of `head + " " + c + rest`, one split at a time. */
  lemma UndoSplit(head: string, c: char, rest: string, tail: string)
    requires ' ' !in head && c != ' '
    requires Without(rest, ' ') == tail
    ensures Without(head + ([' ', c] + rest), ' ') == head + ([c] + tail)
  {
    WithoutConcat(head, [' ', c] + rest, ' ');
    WithoutAbsent(head, ' ');
    assert ([' ', c] + rest)[1..] == [c] + rest;
    assert ([c] + rest)[1..] == rest;
  }

  lemma {:induction false} WithoutAbsent(s: string, c: char)
    requires c !in s
    ensures Without(s, c) == s
    decreases |s|
  {
    if s != [] {
      WithoutAbsent(s[1..], c);
    }
  }

  /** A name without spaces is recovered from its renaming by deleting the
      spaces (after the "HK" prefix is stripped), and the renaming is one
      character longer per split. */
  lemma RenameOnlyAddsSpaces(name: string, flagCount: nat)
    requires ' ' !in name
    ensures Without(RenameFromCamelcase(name, flagCount), ' ') == RemovePrefix(name, "HK")
    ensures |RenameFromCamelcase(name, flagCount)| >= |RemovePrefix(name, "HK")|
  {
    var starts := RenameInsertsSpaces(name, flagCount);
    var noprefix := RemovePrefix(name, "HK");
    assert ' ' !in noprefix by {
      if StartsWith(name, "HK") {
        assert forall k :: 0 <= k < |noprefix| ==> noprefix[k] == name[k + 2];
      }
    }
    InsertUndone(PatternFor(name), noprefix, 0, starts);
    InsertLength(PatternFor(name), noprefix, 0, starts);
  }
}
