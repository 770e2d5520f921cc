/** The exported XML tree of extractapplehealth.py as a rose tree, and the
    pure helpers of AppleHealthExtraction that walk or classify its nodes:
    get_subtree, check_if_workout_route, the dispatch on the descendants of
    a Workout node, and the stripping of record-type prefixes. */
module HealthTree {
  import opened Wrappers
  import opened Text
  import opened Seqs

  /** An ElementTree element: its tag, its attributes and its children in
      document order. */
  datatype Node = Node(tag: string, attrib: map<string, string>, children: seq<Node>)

  // ---------------------------------------------------------------------------
  // get_subtree

  /** get_subtree(node): the subtrees of the children in document order,
      each walked the same way, then the node itself. */
  function GetSubtree(n: Node): seq<Node>
    decreases n, 1
  {
    Flatten(n.children) + [n]
  }

  /** The walks of `cs`, concatenated in order. */
  function Flatten(cs: seq<Node>): seq<Node>
    decreases cs, 0
  {
    if cs == [] then [] else Flatten(cs[..|cs| - 1]) + GetSubtree(cs[|cs| - 1])
  }

  /** A node's position in the tree: the child indices leading to it. */
  type Path = seq<nat>

  predicate ValidPath(n: Node, p: Path)
    decreases p
  {
    p == [] || (p[0] < |n.children| && ValidPath(n.children[p[0]], p[1..]))
  }

  /** The node at path `p`. */
  function At(n: Node, p: Path): Node
    requires ValidPath(n, p)
    decreases p
  {
    if p == [] then n else At(n.children[p[0]], p[1..])
  }

  /** `[i] + q` for every `q` in `ps`. */
  function Prepend(i: nat, ps: seq<Path>): (r: seq<Path>)
    ensures |r| == |ps| && forall k :: 0 <= k < |ps| ==> r[k] == [i] + ps[k]
  {
    seq(|ps|, k requires 0 <= k < |ps| => [i] + ps[k])
  }

  /** The paths of the nodes of `n`, in the order the walk visits them. */
  function Paths(n: Node): seq<Path>
    decreases n, 1
  {
    ChildPaths(n.children) + [[]]
  }

  function ChildPaths(cs: seq<Node>): seq<Path>
    decreases cs, 0
  {
    if cs == [] then [] else ChildPaths(cs[..|cs| - 1]) + Prepend(|cs| - 1, Paths(cs[|cs| - 1]))
  }

  /** Post-order: `a` is visited before `b` when `b` is a proper ancestor of
      `a`, or when, below their deepest common ancestor, `a` lies in an
      earlier child. */
  ghost predicate PostBefore(a: Path, b: Path) {
    (|b| < |a| && a[..|b|] == b)
    || exists d :: 0 <= d < |a| && d < |b| && a[..d] == b[..d] && a[d] < b[d]
  }

  /** Step k of the walk visits the node at path Paths(n)[k]. */
  lemma {:induction false} WalkFollowsPaths(n: Node)
    ensures |GetSubtree(n)| == |Paths(n)|
    ensures forall k :: 0 <= k < |Paths(n)| ==> ValidPath(n, Paths(n)[k]) && GetSubtree(n)[k] == At(n, Paths(n)[k])
    decreases n, 1
  {
    var cs := n.children;
    var cp := ChildPaths(cs);
    ChildWalkFollowsPaths(cs);
    var ps := Paths(n);
    assert ps == cp + [[]];
    forall k | 0 <= k < |ps|
      ensures ValidPath(n, ps[k]) && GetSubtree(n)[k] == At(n, ps[k])
    {
      if k < |cp| {
        assert ps[k] == cp[k] && GetSubtree(n)[k] == Flatten(cs)[k];
      }
    }
  }

  lemma {:induction false} ChildWalkFollowsPaths(cs: seq<Node>)
    ensures |Flatten(cs)| == |ChildPaths(cs)|
    ensures forall k :: 0 <= k < |ChildPaths(cs)| ==>
      var p := ChildPaths(cs)[k];
      |p| > 0 && p[0] < |cs| && ValidPath(cs[p[0]], p[1..]) && Flatten(cs)[k] == At(cs[p[0]], p[1..])
    decreases cs, 0
  {
    if cs != [] {
      var init, m := cs[..|cs| - 1], |cs| - 1;
      var last := cs[m];
      ChildWalkFollowsPaths(init);
      WalkFollowsPaths(last);
      var a: seq<Path>, b: seq<Path> := ChildPaths(init), Prepend(m, Paths(last));
      var fa: seq<Node>, fb: seq<Node> := Flatten(init), GetSubtree(last);
      assert ChildPaths(cs) == a + b && Flatten(cs) == fa + fb;
      forall k | 0 <= k < |a| + |b|
        ensures var p := (a + b)[k];
          |p| > 0 && p[0] < |cs| && ValidPath(cs[p[0]], p[1..]) && (fa + fb)[k] == At(cs[p[0]], p[1..])
      {
        if k < |a| {
          assert (a + b)[k] == a[k] && (fa + fb)[k] == fa[k];
          assert cs[a[k][0]] == init[a[k][0]];
        } else {
          var q := Paths(last)[k - |a|];
          assert (a + b)[k] == b[k - |a|] == [m] + q && ([m] + q)[1..] == q;
          assert (fa + fb)[k] == fb[k - |a|];
        }
      }
    }
  }

  /** Every valid path is listed. */
  lemma {:induction false} PathsComplete(n: Node)
    ensures forall p :: p in Paths(n) <==> ValidPath(n, p)
    decreases n, 1
  {
    var cs := n.children;
    var cp := ChildPaths(cs);
    ChildPathsComplete(cs);
    var ps := Paths(n);
    assert ps == cp + [[]];
    forall p ensures p in ps <==> ValidPath(n, p) {
      if p == [] {
        assert ps[|cp|] == p;
      } else {
        assert p in ps <==> p in cp;
      }
    }
  }

  lemma {:induction false} ChildPathsComplete(cs: seq<Node>)
    ensures forall p :: p in ChildPaths(cs) <==> |p| > 0 && p[0] < |cs| && ValidPath(cs[p[0]], p[1..])
    decreases cs, 0
  {
    if cs != [] {
      var init, m := cs[..|cs| - 1], |cs| - 1;
      var last := cs[m];
      ChildPathsComplete(init);
      PathsComplete(last);
      var a: seq<Path>, b: seq<Path> := ChildPaths(init), Prepend(m, Paths(last));
      assert ChildPaths(cs) == a + b;
      forall p ensures p in a + b <==> |p| > 0 && p[0] < |cs| && ValidPath(cs[p[0]], p[1..]) {
        if |p| > 0 && p[0] < m {
          assert cs[p[0]] == init[p[0]];
        }
        if |p| > 0 && p[0] == m && ValidPath(cs[p[0]], p[1..]) {
          assert p[1..] in Paths(last);
          var k :| 0 <= k < |Paths(last)| && Paths(last)[k] == p[1..];
          assert b[k] == p;
        }
        if p in b {
          var k :| 0 <= k < |b| && b[k] == p;
          assert p[1..] == Paths(last)[k];
        }
      }
    }
  }

  /** No path is listed twice, and the list is in post-order. */
  lemma {:induction false} PathsOrdered(n: Node)
    ensures NoDup(Paths(n))
    ensures forall j, k :: 0 <= j < k < |Paths(n)| ==> PostBefore(Paths(n)[j], Paths(n)[k])
    decreases n, 1
  {
    var cs := n.children;
    var cp := ChildPaths(cs);
    ChildPathsOrdered(cs);
    ChildWalkFollowsPaths(cs);
    var ps := Paths(n);
    assert ps == cp + [[]];
    forall j, k | 0 <= j < k < |ps| ensures ps[j] != ps[k] && PostBefore(ps[j], ps[k]) {
      if k == |cp| {
        assert ps[j] == cp[j] && |cp[j]| > 0 && ps[k] == [];
      } else {
        assert ps[j] == cp[j] && ps[k] == cp[k];
      }
    }
  }

  lemma {:induction false} ChildPathsOrdered(cs: seq<Node>)
    ensures NoDup(ChildPaths(cs))
    ensures forall j, k :: 0 <= j < k < |ChildPaths(cs)| ==> PostBefore(ChildPaths(cs)[j], ChildPaths(cs)[k])
    decreases cs, 0
  {
    if cs != [] {
      var init, m := cs[..|cs| - 1], |cs| - 1;
      var last := cs[m];
      ChildPathsOrdered(init);
      ChildWalkFollowsPaths(init);
      PathsOrdered(last);
      var a: seq<Path>, b: seq<Path> := ChildPaths(init), Prepend(m, Paths(last));
      assert ChildPaths(cs) == a + b;
      forall j, k | 0 <= j < k < |a + b|
        ensures (a + b)[j] != (a + b)[k] && PostBefore((a + b)[j], (a + b)[k])
      {
        if k < |a| {
          assert (a + b)[j] == a[j] && (a + b)[k] == a[k];
        } else if j < |a| {
          ChildBlocksOrdered(a[j], b[k - |a|], m);
          assert (a + b)[j] == a[j] && (a + b)[k] == b[k - |a|];
        } else {
          var pl := Paths(last);
          PrependKeepsOrder(m, pl[j - |a|], pl[k - |a|]);
          assert (a + b)[j] == [m] + pl[j - |a|] && (a + b)[k] == [m] + pl[k - |a|];
        }
      }
    }
  }

  /** get_subtree visits every node of the tree exactly once, in post-order:
      step k visits the node at Paths(n)[k], which lists every valid path
      once, each child's subtree before its parent and earlier children's
      subtrees before later ones. */
  lemma GetSubtreeIsPostOrder(n: Node)
    ensures |GetSubtree(n)| == |Paths(n)|
    ensures forall k :: 0 <= k < |Paths(n)| ==> ValidPath(n, Paths(n)[k]) && GetSubtree(n)[k] == At(n, Paths(n)[k])
    ensures forall p :: p in Paths(n) <==> ValidPath(n, p)
    ensures NoDup(Paths(n))
    ensures forall j, k :: 0 <= j < k < |Paths(n)| ==> PostBefore(Paths(n)[j], Paths(n)[k])
  {
    WalkFollowsPaths(n);
    PathsComplete(n);
    PathsOrdered(n);
  }

  /** A path into an earlier child comes before any path into child `m`. */
  lemma ChildBlocksOrdered(p: Path, q: Path, m: nat)
    requires |p| > 0 && p[0] < m && |q| > 0 && q[0] == m
    ensures p != q && PostBefore(p, q)
  {
    assert p[..0] == q[..0];
  }

  /** Prepending the same child index keeps distinctness and post-order. */
  lemma PrependKeepsOrder(m: nat, p: Path, q: Path)
    requires p != q && PostBefore(p, q)
    ensures [m] + p != [m] + q && PostBefore([m] + p, [m] + q)
  {
    var a, b := [m] + p, [m] + q;
    assert a[1..] == p && b[1..] == q;
    if |q| < |p| && p[..|q|] == q {
      assert a[..|b|] == [m] + p[..|q|];
    } else {
      var d :| 0 <= d < |p| && d < |q| && p[..d] == q[..d] && p[d] < q[d];
      assert a[..d + 1] == [m] + p[..d] && b[..d + 1] == [m] + q[..d];
      assert a[d + 1] == p[d] && b[d + 1] == q[d];
    }
  }

  /** The number of nodes of a tree. */
  function Size(n: Node): nat
    decreases n, 1
  {
    1 + ForestSize(n.children)
  }

  /** The number of nodes of the trees `cs`. */
  function ForestSize(cs: seq<Node>): nat
    decreases cs, 0
  {
    if cs == [] then 0 else Size(cs[0]) + ForestSize(cs[1..])
  }

  lemma {:induction false} ForestSizeSnoc(cs: seq<Node>)
    requires cs != []
    ensures ForestSize(cs) == ForestSize(cs[..|cs| - 1]) + Size(cs[|cs| - 1])
  {
    if |cs| > 1 {
      var rest := cs[1..];
      ForestSizeSnoc(rest);
      assert rest[..|rest| - 1] == cs[..|cs| - 1][1..];
    }
  }

  /** The walks of `cs` have as many steps as the trees have nodes. */
  lemma {:induction false} FlattenSize(cs: seq<Node>)
    ensures |Flatten(cs)| == ForestSize(cs)
    decreases cs
  {
    if cs != [] {
      var last := cs[|cs| - 1];
      FlattenSize(cs[..|cs| - 1]);
      FlattenSize(last.children);
      ForestSizeSnoc(cs);
    }
  }

  /** The walk ends with the node itself, and visits each of its nodes once:
      as many steps as the tree has nodes. */
  lemma GetSubtreeEndsWithRoot(n: Node)
    ensures |GetSubtree(n)| > 0 && GetSubtree(n)[|GetSubtree(n)| - 1] == n
    ensures |GetSubtree(n)| == Size(n)
  {
    FlattenSize(n.children);
  }

  // ---------------------------------------------------------------------------
  // check_if_workout_route and the Workout descendants

  const MetadataTag := "MetadataEntry"

  /** check_if_workout_route(node): ValueError for a node that is not a
      MetadataEntry, KeyError when it has no 'key' attribute, and otherwise
      whether its key mentions "HKMetadataKey". */
  function CheckIfWorkoutRoute(node: Node): (r: Result<bool>)
    ensures r.Err? <==> node.tag != MetadataTag || "key" !in node.attrib
    ensures r.Err? && node.tag != MetadataTag ==> r.error.ValueError?
    ensures r.Err? && node.tag == MetadataTag ==> r.error == KeyError("key")
    ensures r.Ok? ==> (r.value <==> exists i :: OccursAt(node.attrib["key"], "HKMetadataKey", i))
  {
    if node.tag != MetadataTag then Err(ValueError("Input Element must have tag = 'MetadataEntry'"))
    else if "key" !in node.attrib then Err(KeyError("key"))
    else
      var key := node.attrib["key"];
      ContainsWitnessIff(key, "HKMetadataKey");
      Ok(Contains(key, "HKMetadataKey"))
  }

  /** `p` occurs in `s` at position `i`. */
  predicate OccursAt(s: string, p: string, i: int) {
    0 <= i <= |s| - |p| && s[i..i + |p|] == p
  }

  /** `Contains` holds exactly when `p` occurs at some position of `s`. */
  lemma ContainsWitnessIff(s: string, p: string)
    ensures Contains(s, p) <==> exists i :: OccursAt(s, p, i)
  {
    if Contains(s, p) {
      var i := ContainsWitness(s, p);
      assert OccursAt(s, p, i);
    }
    if exists i :: OccursAt(s, p, i) {
      var i :| OccursAt(s, p, i);
      ContainsAt(s, p, i);
    }
  }

  /** What extract_workout_elements does with one node of a Workout's walk. */
  datatype WorkoutStep =
    | SkipWorkout        // the Workout node itself
    | RouteData          // route metadata or a FileReference, queued for the next WorkoutRoute
    | WorkoutMetadata    // any other MetadataEntry: a column of the workout row
    | SubElement         // a WorkoutEvent or WorkoutRoute: a row of its own table

  /** The dispatch on one node of the walk; an unsupported tag raises ValueError. */
  function ClassifyWorkoutNode(child: Node, workoutTag: string): (r: Result<WorkoutStep>)
    ensures r == Ok(SkipWorkout) <==> child.tag == workoutTag
    ensures r.Err? <==> (child.tag != workoutTag
      && (child.tag !in {MetadataTag, "FileReference", "WorkoutEvent", "WorkoutRoute"}
          || (child.tag == MetadataTag && "key" !in child.attrib)))
    ensures child.tag != workoutTag && child.tag == MetadataTag ==>
      r == if "key" !in child.attrib then Err(KeyError("key"))
           else if Contains(child.attrib["key"], "HKMetadataKey") then Ok(RouteData)
           else Ok(WorkoutMetadata)
    ensures child.tag != workoutTag && child.tag == "FileReference" ==> r == Ok(RouteData)
    ensures child.tag != workoutTag && child.tag in {"WorkoutEvent", "WorkoutRoute"} ==> r == Ok(SubElement)
    ensures child.tag != workoutTag && child.tag !in {MetadataTag, "FileReference", "WorkoutEvent", "WorkoutRoute"} ==>
      r == Err(ValueError(UnsupportedTagMessage(child.tag)))
  {
    if child.tag == workoutTag then Ok(SkipWorkout)
    else if child.tag == MetadataTag then
      match CheckIfWorkoutRoute(child)
      case Ok(route) => if route then Ok(RouteData) else Ok(WorkoutMetadata)
      case Err(e) => Err(e)
    else if child.tag == "FileReference" then Ok(RouteData)
    else if child.tag in ["WorkoutEvent", "WorkoutRoute"] then Ok(SubElement)
    else Err(ValueError(UnsupportedTagMessage(child.tag)))
  }

  /** The ValueError message for an unsupported tag under a Workout. The
      string literal continues over a line break, so the indentation of its
      second line is part of the message. */
  function UnsupportedTagMessage(tag: string): string {
    "Have not implemented support for child node of Workout with tag '" + tag + "'. "
      + "                            "
      + "Add the tag Workout to 'exclude' parameter of AppleHealthExtraction constructor."
  }

  /** The dispatch over the whole walk of a Workout node, stopping at the
      first error. */
  function ClassifyWorkout(nodes: seq<Node>, workoutTag: string): (r: Result<seq<WorkoutStep>>)
    ensures r.Ok? ==> |r.value| == |nodes|
  {
    if nodes == [] then Ok([])
    else match ClassifyWorkoutNode(nodes[0], workoutTag)
      case Err(e) => Err(e)
      case Ok(s) =>
        match ClassifyWorkout(nodes[1..], workoutTag)
        case Err(e) => Err(e)
        case Ok(rest) => Ok([s] + rest)
  }

  /** A workout is extracted without error exactly when every node of its
      walk has a supported tag (and every MetadataEntry a key), and then the
      steps follow the nodes one for one. */
  lemma {:induction false} ClassifyWorkoutTotal(nodes: seq<Node>, workoutTag: string)
    ensures ClassifyWorkout(nodes, workoutTag).Ok? <==>
      forall k :: 0 <= k < |nodes| ==> ClassifyWorkoutNode(nodes[k], workoutTag).Ok?
    ensures ClassifyWorkout(nodes, workoutTag).Ok? ==>
      forall k :: 0 <= k < |nodes| ==> ClassifyWorkout(nodes, workoutTag).value[k] == ClassifyWorkoutNode(nodes[k], workoutTag).value
  {
    if nodes != [] {
      ClassifyWorkoutTotal(nodes[1..], workoutTag);
      assert forall k :: 1 <= k < |nodes| ==> nodes[k] == nodes[1..][k - 1];
    }
  }

  /** A Workout's own node is skipped and sits last in its walk; so the
      walk of a Workout whose descendants all have supported tags never
      raises. */
  lemma WorkoutWalkEndsWithSkip(workout: Node)
    requires forall k :: 0 <= k < |GetSubtree(workout)| - 1 ==> ClassifyWorkoutNode(GetSubtree(workout)[k], workout.tag).Ok?
    ensures ClassifyWorkout(GetSubtree(workout), workout.tag).Ok?
    ensures ClassifyWorkout(GetSubtree(workout), workout.tag).value[|GetSubtree(workout)| - 1] == SkipWorkout
  {
    GetSubtreeEndsWithRoot(workout);
    ClassifyWorkoutTotal(GetSubtree(workout), workout.tag);
  }

  // ---------------------------------------------------------------------------
  // Record-type prefixes

  /** PREFIX_TO_STRIP['Record'], in list order. */
  const RecordPrefixes: seq<string> := ["HKQuantityTypeIdentifier", "HKDataType", "HKCategoryTypeIdentifier"]

  /** `removeprefix` with each prefix in turn. */
  function StripPrefixes(s: string, prefixes: seq<string>): string {
    if prefixes == [] then s else StripPrefixes(RemovePrefix(s, prefixes[0]), prefixes[1..])
  }

  /** The table name of a record of type `recordType`. */
  function StripRecordPrefixes(recordType: string): string {
    StripPrefixes(recordType, RecordPrefixes)
  }

  /** The name is what remains after removing a prefix made of some of the
      prefixes, each at most once and in list order. */
  lemma {:induction false} StripPrefixesIsSuffix(s: string, prefixes: seq<string>)
    ensures |StripPrefixes(s, prefixes)| <= |s|
    ensures s[|s| - |StripPrefixes(s, prefixes)|..] == StripPrefixes(s, prefixes)
  {
    if prefixes != [] {
      var t := RemovePrefix(s, prefixes[0]);
      StripPrefixesIsSuffix(t, prefixes[1..]);
      assert s[|s| - |t|..] == t;
      assert s[|s| - |StripPrefixes(t, prefixes[1..])|..] == t[|t| - |StripPrefixes(t, prefixes[1..])|..];
    }
  }

  /** The three removals of StripRecordPrefixes, one after the other. */
  lemma StripThree(s: string)
    ensures StripRecordPrefixes(s)
         == RemovePrefix(RemovePrefix(RemovePrefix(s, RecordPrefixes[0]), RecordPrefixes[1]), RecordPrefixes[2])
  {
    var ps := RecordPrefixes;
    var r0 := RemovePrefix(s, ps[0]);
    var r1 := RemovePrefix(r0, ps[1]);
    var r2 := RemovePrefix(r1, ps[2]);
    assert ps[1..][0] == ps[1] && ps[1..][1..][0] == ps[2] && ps[1..][1..][1..] == [];
    assert StripPrefixes(s, ps) == StripPrefixes(r0, ps[1..]);
    assert StripPrefixes(r0, ps[1..]) == StripPrefixes(r1, ps[1..][1..]);
    assert StripPrefixes(r1, ps[1..][1..]) == StripPrefixes(r2, ps[1..][1..][1..]);
  }

  /** A name that starts with none of the prefixes is kept. */
  lemma {:induction false} StripPrefixesKeeps(s: string, prefixes: seq<string>)
    requires forall k :: 0 <= k < |prefixes| ==> !StartsWith(s, prefixes[k])
    ensures StripPrefixes(s, prefixes) == s
  {
    if prefixes != [] {
      StripPrefixesKeeps(s, prefixes[1..]);
    }
  }

  /** A quantity type loses exactly its prefix when what follows starts with
      neither later prefix: "HKQuantityTypeIdentifierHeartRate" is stored in
      table "HeartRate". */
  lemma QuantityTypeName(name: string)
    requires !StartsWith(name, "HKDataType") && !StartsWith(name, "HKCategoryTypeIdentifier")
    ensures StripRecordPrefixes("HKQuantityTypeIdentifier" + name) == name
  {
    var s := "HKQuantityTypeIdentifier" + name;
    assert StartsWith(s, RecordPrefixes[0]);
    assert RemovePrefix(s, RecordPrefixes[0]) == name;
    StripPrefixesKeeps(name, RecordPrefixes[1..]);
  }

  /** Prefixes are removed in one pass, in order: a type that repeats a
      later prefix keeps the repetition ("HKDataTypeHKDataTypeX" becomes
      "HKDataTypeX"), and a type whose remainder starts with an earlier
      prefix keeps that prefix. */
  lemma StripIsOnePass(name: string)
    ensures StripRecordPrefixes("HKDataType" + "HKDataType" + name) == "HKDataType" + name
    ensures StripRecordPrefixes("HKDataType" + "HKQuantityTypeIdentifier" + name) == "HKQuantityTypeIdentifier" + name
  {
    assert ("HKDataType" + name)[2] == 'D';
    assert ("HKQuantityTypeIdentifier" + name)[2] == 'Q';
    assert "HKDataType" + "HKDataType" + name == "HKDataType" + ("HKDataType" + name);
    assert "HKDataType" + "HKQuantityTypeIdentifier" + name == "HKDataType" + ("HKQuantityTypeIdentifier" + name);
    DataTypeStripped("HKDataType" + name);
    DataTypeStripped("HKQuantityTypeIdentifier" + name);
  }

  /** A type starting with "HKDataType" loses exactly that prefix when the
      remainder cannot start with the last prefix. */
  lemma DataTypeStripped(rest: string)
    requires |rest| > 2 && rest[2] != 'C'
    ensures StripRecordPrefixes("HKDataType" + rest) == rest
  {
    var s := "HKDataType" + rest;
    StripThree(s);
    assert s[2] == 'D' && RecordPrefixes[0][2] == 'Q';
    assert s[..10] == RecordPrefixes[1];
    assert RemovePrefix(s, RecordPrefixes[1]) == rest;
    assert RecordPrefixes[2][2] == 'C';
    assert !StartsWith(rest, RecordPrefixes[2]);
  }
}
