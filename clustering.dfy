/** Byte-range clustering: src/utils/cluster.js (used by the reader) and the
    older src/cluster.js. Both merge inclusive ranges `[start, end]` into runs of
    byte-adjacent ranges; they differ in what they sort by and in whether the
    caller's array is reordered. The member objects are of any type `T`; the
    functions `start` and `end` read their two properties. */
module Clustering {
  import opened Common
  import Sorting

  /** One merged request: `{ start, end, objs }`. */
  datatype Run<T> = Run(start: int, end: int, objs: seq<T>)

  /** Neither version checks for an empty input: `first` is undefined and
      reading `first.start` throws a TypeError. */
  datatype ClusterError = EmptyInput

  /** One iteration of the loop: an object joins the current (last) run exactly
      when its start is the run's end plus one; otherwise it opens a new run. */
  function Step<T>(rs: seq<Run<T>>, x: T, start: T -> int, end: T -> int): (r: seq<Run<T>>)
    requires |rs| > 0
    ensures |rs| <= |r| <= |rs| + 1
  {
    var cur := rs[|rs| - 1];
    if start(x) == cur.end + 1 then rs[..|rs| - 1] + [Run(cur.start, end(x), cur.objs + [x])]
    else rs + [Run(start(x), end(x), [x])]
  }

  /** The greedy left-to-right merge of the loop in both versions. */
  function Merge<T>(s: seq<T>, start: T -> int, end: T -> int): (r: seq<Run<T>>)
    requires |s| > 0
    ensures 0 < |r| <= |s|
  {
    if |s| == 1 then [Run(start(s[0]), end(s[0]), [s[0]])]
    else Step(Merge(s[..|s| - 1], start, end), s[|s| - 1], start, end)
  }

  /** The member lists of the runs, concatenated. */
  function Flatten<T>(rs: seq<Run<T>>): seq<T> {
    if rs == [] then [] else Flatten(rs[..|rs| - 1]) + rs[|rs| - 1].objs
  }

  /** Each run is non-empty, spans from its first member's start to its last
      member's end, and its members are byte-adjacent. */
  ghost predicate RunOk<T>(r: Run<T>, start: T -> int, end: T -> int) {
    && |r.objs| > 0
    && r.start == start(r.objs[0])
    && r.end == end(r.objs[|r.objs| - 1])
    && forall i :: 0 < i < |r.objs| ==> start(r.objs[i]) == end(r.objs[i - 1]) + 1
  }

  /** Every run is well formed and no run could have been merged into the one before it. */
  ghost predicate WellFormed<T>(rs: seq<Run<T>>, start: T -> int, end: T -> int) {
    && (forall k :: 0 <= k < |rs| ==> RunOk(rs[k], start, end))
    && (forall k :: 0 < k < |rs| ==> rs[k].start != rs[k - 1].end + 1)
  }

  lemma FlattenSnoc<T>(rs: seq<Run<T>>, r: Run<T>)
    ensures Flatten(rs + [r]) == Flatten(rs) + r.objs
  {
    assert (rs + [r])[..|rs|] == rs;
  }

  /** One step appends the object to the flattened members. */
  lemma StepFlatten<T>(rs: seq<Run<T>>, x: T, start: T -> int, end: T -> int)
    requires |rs| > 0
    ensures Flatten(Step(rs, x, start, end)) == Flatten(rs) + [x]
  {
    var cur := rs[|rs| - 1];
    if start(x) == cur.end + 1 {
      ExtendFlatten(rs, x, end(x));
    } else {
      FlattenSnoc(rs, Run(start(x), end(x), [x]));
    }
  }

  /** Adding an object to the last run appends it to the flattened members. */
  lemma ExtendFlatten<T>(rs: seq<Run<T>>, x: T, e: int)
    requires |rs| > 0
    ensures var cur := rs[|rs| - 1];
      Flatten(rs[..|rs| - 1] + [Run(cur.start, e, cur.objs + [x])]) == Flatten(rs) + [x]
  {
    var cur := rs[|rs| - 1];
    var init := rs[..|rs| - 1];
    assert Flatten(rs) == Flatten(init) + cur.objs;
    FlattenSnoc(init, Run(cur.start, e, cur.objs + [x]));
  }

  lemma FlattenSingle<T>(r: Run<T>)
    ensures Flatten([r]) == r.objs
  {
    assert [r][..0] == [];
  }

  /** Merging keeps every object, in order. */
  lemma {:induction false} MergeFlatten<T>(s: seq<T>, start: T -> int, end: T -> int)
    requires |s| > 0
    ensures Flatten(Merge(s, start, end)) == s
  {
    if |s| == 1 {
      MergeOne(s, start, end);
    } else {
      MergeFlatten(s[..|s| - 1], start, end);
      MergeFlattenStep(s, start, end);
    }
  }

  lemma SplitLast<T>(s: seq<T>)
    requires |s| > 0
    ensures s == s[..|s| - 1] + [s[|s| - 1]]
  {
  }

  lemma MergeOne<T>(s: seq<T>, start: T -> int, end: T -> int)
    requires |s| == 1
    ensures Flatten(Merge(s, start, end)) == s
  {
    FlattenSingle(Run(start(s[0]), end(s[0]), [s[0]]));
    assert [s[0]] == s;
  }

  lemma MergeFlattenStep<T>(s: seq<T>, start: T -> int, end: T -> int)
    requires |s| > 1
    requires Flatten(Merge(s[..|s| - 1], start, end)) == s[..|s| - 1]
    ensures Flatten(Merge(s, start, end)) == s
  {
    var p, x := s[..|s| - 1], s[|s| - 1];
    var m := Merge(p, start, end);
    assert Merge(s, start, end) == Step(m, x, start, end);
    StepFlatten(m, x, start, end);
    SplitLast(s);
  }

  /** Extending the current run by an adjacent object keeps it well formed. */
  lemma ExtendRunOk<T>(cur: Run<T>, x: T, start: T -> int, end: T -> int)
    requires RunOk(cur, start, end) && start(x) == cur.end + 1
    ensures RunOk(Run(cur.start, end(x), cur.objs + [x]), start, end)
  {
    var objs := cur.objs + [x];
    forall i | 0 < i < |objs| ensures start(objs[i]) == end(objs[i - 1]) + 1 {
      if i < |cur.objs| {
        assert objs[i] == cur.objs[i] && objs[i - 1] == cur.objs[i - 1];
      }
    }
  }

  /** One step keeps the runs well formed. */
  lemma StepWellFormed<T>(rs: seq<Run<T>>, x: T, start: T -> int, end: T -> int)
    requires |rs| > 0 && WellFormed(rs, start, end)
    ensures WellFormed(Step(rs, x, start, end), start, end)
  {
    var cur := rs[|rs| - 1];
    var r := Step(rs, x, start, end);
    if start(x) == cur.end + 1 {
      ExtendRunOk(cur, x, start, end);
      assert forall k :: 0 <= k < |rs| - 1 ==> r[k] == rs[k];
    } else {
      assert forall k :: 0 <= k < |rs| ==> r[k] == rs[k];
    }
  }

  /** Merging produces well-formed runs. */
  lemma {:induction false} MergeWellFormed<T>(s: seq<T>, start: T -> int, end: T -> int)
    requires |s| > 0
    ensures WellFormed(Merge(s, start, end), start, end)
  {
    if |s| > 1 {
      MergeWellFormed(s[..|s| - 1], start, end);
      StepWellFormed(Merge(s[..|s| - 1], start, end), s[|s| - 1], start, end);
    }
  }

  /** Merging keeps every object, in order, and produces well-formed runs. */
  lemma MergeCorrect<T>(s: seq<T>, start: T -> int, end: T -> int)
    requires |s| > 0
    ensures Flatten(Merge(s, start, end)) == s
    ensures WellFormed(Merge(s, start, end), start, end)
  {
    MergeFlatten(s, start, end);
    MergeWellFormed(s, start, end);
  }

  /** Every run of a well-formed partition holds at least one object. */
  lemma {:induction false} FlattenLength<T>(rs: seq<Run<T>>, start: T -> int, end: T -> int)
    requires WellFormed(rs, start, end)
    ensures |Flatten(rs)| >= |rs|
  {
    if rs != [] {
      var init := rs[..|rs| - 1];
      assert WellFormed(init, start, end) by {
        assert forall k :: 0 <= k < |init| ==> init[k] == rs[k];
      }
      FlattenLength(init, start, end);
      assert RunOk(rs[|rs| - 1], start, end);
    }
  }

  /** A well-formed partition with its last object removed is still a
      well-formed partition, and one step puts that object back. */
  lemma StepRemoveLast<T>(rs: seq<Run<T>>, start: T -> int, end: T -> int) returns (rs': seq<Run<T>>)
    requires |rs| > 0 && WellFormed(rs, start, end) && |Flatten(rs)| > 1
    ensures |rs'| > 0 && WellFormed(rs', start, end)
    ensures Flatten(rs') == Flatten(rs)[..|Flatten(rs)| - 1]
    ensures Step(rs', Flatten(rs)[|Flatten(rs)| - 1], start, end) == rs
  {
    var last := rs[|rs| - 1];
    assert RunOk(last, start, end);
    if |last.objs| == 1 {
      rs' := RemoveLastRun(rs, start, end);
    } else {
      rs' := ShortenLastRun(rs, start, end);
    }
  }

  /** The last object alone in its run: removing it drops the run. */
  lemma RemoveLastRun<T>(rs: seq<Run<T>>, start: T -> int, end: T -> int) returns (rs': seq<Run<T>>)
    requires |rs| > 0 && WellFormed(rs, start, end) && |Flatten(rs)| > 1
    requires |rs[|rs| - 1].objs| == 1
    ensures |rs'| > 0 && WellFormed(rs', start, end)
    ensures Flatten(rs') == Flatten(rs)[..|Flatten(rs)| - 1]
    ensures Step(rs', Flatten(rs)[|Flatten(rs)| - 1], start, end) == rs
  {
    var last := rs[|rs| - 1];
    var init := rs[..|rs| - 1];
    assert Flatten(rs) == Flatten(init) + last.objs;
    var x := last.objs[0];
    assert RunOk(last, start, end);
    assert last.objs == [x];
    rs' := init;
    assert |init| > 0;
    assert WellFormed(init, start, end) by {
      assert forall k :: 0 <= k < |init| ==> init[k] == rs[k];
    }
    assert rs[|rs| - 1].start != rs[|rs| - 2].end + 1;
    assert last == Run(start(x), end(x), [x]);
  }

  /** The last object shares its run: removing it shortens the run. */
  lemma ShortenLastRun<T>(rs: seq<Run<T>>, start: T -> int, end: T -> int) returns (rs': seq<Run<T>>)
    requires |rs| > 0 && WellFormed(rs, start, end)
    requires |rs[|rs| - 1].objs| > 1
    ensures |rs'| > 0 && WellFormed(rs', start, end)
    ensures Flatten(rs') == Flatten(rs)[..|Flatten(rs)| - 1]
    ensures Step(rs', Flatten(rs)[|Flatten(rs)| - 1], start, end) == rs
  {
    var last := rs[|rs| - 1];
    var init := rs[..|rs| - 1];
    assert Flatten(rs) == Flatten(init) + last.objs;
    var n := |last.objs|;
    var x := last.objs[n - 1];
    assert RunOk(last, start, end);
    assert last.objs == last.objs[..n - 1] + [x];
    var shorter := Run(last.start, end(last.objs[n - 2]), last.objs[..n - 1]);
    rs' := init + [shorter];
    FlattenSnoc(init, shorter);
    assert RunOk(shorter, start, end);
    assert WellFormed(rs', start, end) by {
      assert forall k :: 0 <= k < |init| ==> rs'[k] == rs[k];
    }
    assert rs'[..|rs'| - 1] == init;
    assert start(x) == shorter.end + 1;
  }

  /** Merge is the only way to cut `s`, in order, into well-formed runs: any
      partition with those properties is the merge. */
  lemma {:induction false} MergeUnique<T>(s: seq<T>, rs: seq<Run<T>>, start: T -> int, end: T -> int)
    requires |s| > 0
    requires Flatten(rs) == s && WellFormed(rs, start, end)
    ensures rs == Merge(s, start, end)
    decreases |s|
  {
    if |s| == 1 {
      FlattenLength(rs, start, end);
      assert rs == [rs[0]];
      assert rs[..0] == [];
      assert RunOk(rs[0], start, end);
      FlattenSingle(rs[0]);
      assert rs[0].objs == [s[0]];
      assert rs[0] == Run(start(s[0]), end(s[0]), [s[0]]);
    } else {
      var rs' := StepRemoveLast(rs, start, end);
      MergeUnique(s[..|s| - 1], rs', start, end);
    }
  }

  /** There is one run more than there are positions where an object does not
      start right after its predecessor ends. */
  function Breaks<T>(s: seq<T>, start: T -> int, end: T -> int): nat {
    if |s| <= 1 then 0
    else Breaks(s[..|s| - 1], start, end) + (if start(s[|s| - 1]) != end(s[|s| - 2]) + 1 then 1 else 0)
  }

  lemma {:induction false} MergeCount<T>(s: seq<T>, start: T -> int, end: T -> int)
    requires |s| > 0
    ensures |Merge(s, start, end)| == 1 + Breaks(s, start, end)
    ensures Merge(s, start, end)[|Merge(s, start, end)| - 1].end == end(s[|s| - 1])
  {
    if |s| > 1 {
      var p := s[..|s| - 1];
      MergeCount(p, start, end);
      assert p[|p| - 1] == s[|s| - 2];
    }
  }

  /** With the input sorted by start (the older version), run starts never decrease. */
  lemma {:induction false} MergeStartsAscending<T>(s: seq<T>, start: T -> int, end: T -> int)
    requires |s| > 0 && Sorting.SortedBy(s, start)
    ensures forall k, l :: 0 <= k < l < |Merge(s, start, end)| ==>
      Merge(s, start, end)[k].start <= Merge(s, start, end)[l].start
    ensures forall k :: 0 <= k < |Merge(s, start, end)| ==>
      Merge(s, start, end)[k].start <= start(s[|s| - 1])
  {
    if |s| > 1 {
      var p := s[..|s| - 1];
      assert Sorting.SortedBy(p, start);
      MergeStartsAscending(p, start, end);
      assert start(p[|p| - 1]) <= start(s[|s| - 1]);
    }
  }

  /** The loop shared by both versions, over an already sorted sequence. */
  method MergeSorted<T>(objs: seq<T>, start: T -> int, end: T -> int)
    returns (r: Result<seq<Run<T>>, ClusterError>)
    ensures |objs| == 0 ==> r == Err(EmptyInput)
    ensures |objs| > 0 ==> r == Ok(Merge(objs, start, end))
  {
    if |objs| == 0 {
      return Err(EmptyInput);
    }
    var first := objs[0];
    var range := Run(start(first), end(first), [first]);
    var ranges: seq<Run<T>> := [];
    assert objs[..1] == [first];
    for i := 1 to |objs|
      invariant ranges + [range] == Merge(objs[..i], start, end)
    {
      var obj := objs[i];
      assert objs[..i + 1][..i] == objs[..i];
      if start(obj) == range.end + 1 {
        range := Run(range.start, end(obj), range.objs + [obj]);
      } else {
        ranges := ranges + [range];
        range := Run(start(obj), end(obj), [obj]);
      }
    }
    assert objs[..|objs|] == objs;
    r := Ok(ranges + [range]);
  }

  /** src/utils/cluster.js: sorts a copy (`Array.from`) by `end`, so the
      caller's sequence is untouched, then merges. */
  method Cluster<T>(objs: seq<T>, start: T -> int, end: T -> int)
    returns (r: Result<seq<Run<T>>, ClusterError>)
    ensures |objs| == 0 ==> r == Err(EmptyInput)
    ensures |objs| > 0 ==> r == Ok(Merge(Sorting.SortBy(objs, end), start, end))
    ensures r.Ok? ==> Flatten(r.value) == Sorting.SortBy(objs, end) && WellFormed(r.value, start, end)
  {
    var copy := new T[|objs|](i requires 0 <= i < |objs| => objs[i]);
    assert copy[..] == objs;
    Sorting.SortInPlace(copy, end);
    r := MergeSorted(copy[..], start, end);
    if r.Ok? {
      MergeCorrect(copy[..], start, end);
    }
  }

  /** src/cluster.js: sorts the caller's array in place by `start`, then merges. */
  method ClusterInPlace<T>(objs: array<T>, start: T -> int, end: T -> int)
    returns (r: Result<seq<Run<T>>, ClusterError>)
    modifies objs
    ensures objs[..] == Sorting.SortBy(old(objs[..]), start)
    ensures objs.Length == 0 ==> r == Err(EmptyInput)
    ensures objs.Length > 0 ==> r == Ok(Merge(objs[..], start, end))
    ensures r.Ok? ==> Flatten(r.value) == objs[..] && WellFormed(r.value, start, end)
  {
    Sorting.SortInPlace(objs, start);
    r := MergeSorted(objs[..], start, end);
    if r.Ok? {
      MergeCorrect(objs[..], start, end);
    }
  }

  function PairStart(p: (int, int)): int { p.0 }
  function PairEnd(p: (int, int)): int { p.1 }

  /** tests/test.clustering.js: `[{10,15},{16,52},{3,7}]` clusters to
      `[{3,7,[{3,7}]}, {10,52,[{10,15},{16,52}]}]`. */
  lemma TestClustering()
    ensures Merge(Sorting.SortBy([(10, 15), (16, 52), (3, 7)], PairStart), PairStart, PairEnd)
         == [Run(3, 7, [(3, 7)]), Run(10, 52, [(10, 15), (16, 52)])]
  {
    var s := [(10, 15), (16, 52), (3, 7)];
    assert s[..1] == [(10, 15)];
    assert s[..2] == [(10, 15), (16, 52)];
    assert Sorting.SortBy(s[..1], PairStart) == [(10, 15)];
    assert Sorting.SortBy(s[..2], PairStart) == [(10, 15), (16, 52)];
    assert Sorting.InsertBy([(10, 15)], (3, 7), PairStart) == [(3, 7), (10, 15)];
    assert Sorting.InsertBy([(10, 15), (16, 52)], (3, 7), PairStart) == [(3, 7), (10, 15), (16, 52)];
    var sorted := Sorting.SortBy(s, PairStart);
    assert sorted == [(3, 7), (10, 15), (16, 52)];
    assert sorted[..1] == [(3, 7)];
    assert sorted[..2] == [(3, 7), (10, 15)];
    assert sorted[..2][..1] == [(3, 7)];
    var m1 := Merge(sorted[..1], PairStart, PairEnd);
    assert m1 == [Run(3, 7, [(3, 7)])];
    var m2 := Merge(sorted[..2], PairStart, PairEnd);
    assert m2 == Step(m1, (10, 15), PairStart, PairEnd);
    assert m2 == [Run(3, 7, [(3, 7)]), Run(10, 15, [(10, 15)])];
    assert Merge(sorted, PairStart, PairEnd) == Step(m2, (16, 52), PairStart, PairEnd);
    assert m2[..1] == [Run(3, 7, [(3, 7)])];
  }
}
