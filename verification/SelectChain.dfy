/** Replacing a read of an array of constants by a chain of selects over runs of equal values. */
module SelectChain {
  import opened Collections
  import opened Bits
  import opened Exprs
  import opened Create
  import opened CreateSound
  import opened CreateTheorems

  /** Consecutive indices with the same value, `end` not included. */
  datatype Run = Run(first: int, end: int)

  type Groups = map<int, seq<Run>>

  // ----- the test for one run -----

  /** What the printed test decides about index `i`: both comparisons are signed. */
  predicate RunTest(r: Run, i: nat, w: nat)
    requires w > 0
  {
    if r.first == r.end - 1 then i == Wrap(r.first, w)
    else Signed(i, w) >= Signed(Wrap(r.first, w), w) && Signed(i, w) < Signed(Wrap(r.end, w), w)
  }

  /** A run of several indices that starts among the positive ones and does not end there. */
  predicate Crossing(r: Run, w: nat)
    requires w > 0
  {
    r.first < r.end - 1 && r.first < Pow2(w - 1) <= r.end
  }

  /** The signed test is the interval test exactly for the runs that do not cross; it rejects all
      indices for those that do. */
  lemma RunTestExact(r: Run, i: nat, w: nat)
    requires w > 0 && 0 <= r.first < r.end <= Pow2(w) && i < Pow2(w)
    ensures RunTest(r, i, w) <==> !Crossing(r, w) && r.first <= i < r.end
  {
    assert Pow2(w) == 2 * Pow2(w - 1);
    ModSmall(r.first, Pow2(w));
    if r.end < Pow2(w) {
      ModSmall(r.end, Pow2(w));
    } else {
      ModUnique(r.end, 1, 0, Pow2(w));
    }
  }

  function IndexConstant(v: nat, w: nat): (e: Expr)
    requires w > 0
    ensures WF(e) && Width(e) == w
  {
    Constant(Wrap(v, w), w)
  }

  function TestExpr(index: Expr, r: Run): (e: Expr)
    requires WF(index) && 0 <= r.first < r.end
    ensures WF(e) && Width(e) == BOOL
  {
    hide EqCreate, SleCreate, SltCreate, AndCreate, WF;
    WidthPositive(index);
    var w := Width(index);
    if r.first == r.end - 1 then EqCreate(index, IndexConstant(r.first, w))
    else AndCreate(SleCreate(IndexConstant(r.first, w), index), SltCreate(index, IndexConstant(r.end, w)))
  }

  lemma SignedCompare(x: nat, y: nat, w: nat)
    requires w > 0
    ensures EvalBinary(Sle, x, y, w) == BoolBit(Signed(x, w) <= Signed(y, w))
    ensures EvalBinary(Slt, x, y, w) == BoolBit(Signed(x, w) < Signed(y, w))
  {
  }

  lemma TestExprSound(index: Expr, r: Run, a: Assignment)
    requires WF(index) && 0 <= r.first < r.end
    ensures Width(index) > 0 && (Holds(TestExpr(index, r), a) <==> RunTest(r, Eval(index, a), Width(index)))
  {
    hide EqCreate, SleCreate, SltCreate, AndCreate, WF, Eval, EvalBinary, Signed, Wrap;
    WidthPositive(index);
    var w := Width(index);
    var low, high := IndexConstant(r.first, w), IndexConstant(r.end, w);
    ConstValue(low, a);
    ConstValue(high, a);
    if r.first == r.end - 1 {
      EqSound(index, low, a);
    } else {
      CompareSound(low, index, a);
      CompareSound(index, high, a);
      SignedCompare(low.value, Eval(index, a), w);
      SignedCompare(Eval(index, a), high.value, w);
      AndHolds(SleCreate(low, index), SltCreate(index, high), a);
    }
  }

  // ----- the test for all runs of one value -----

  predicate AnyRun(runs: seq<Run>, i: nat, w: nat)
    requires w > 0
  {
    exists k :: 0 <= k < |runs| && RunTest(runs[k], i, w)
  }

  predicate Proper(runs: seq<Run>) { forall k :: 0 <= k < |runs| ==> 0 <= runs[k].first < runs[k].end }

  /** `e` decides, under every assignment, whether the index is in a run. */
  ghost predicate DecidesRuns(e: Expr, index: Expr, runs: seq<Run>) {
    && WF(e) && Width(e) == BOOL && WF(index) && Width(index) > 0
    && forall a :: Holds(e, a) <==> AnyRun(runs, Eval(index, a), Width(index))
  }

  lemma DecidesFirst(index: Expr, r: Run)
    requires WF(index) && 0 <= r.first < r.end
    ensures DecidesRuns(TestExpr(index, r), index, [r])
  {
    hide WF, Eval, TestExpr, RunTest, Holds;
    WidthPositive(index);
    forall a
      ensures Holds(TestExpr(index, r), a) <==> AnyRun([r], Eval(index, a), Width(index))
    {
      TestExprSound(index, r, a);
      assert [r][0] == r;
    }
  }

  lemma AnyRunNext(runs: seq<Run>, r: Run, i: nat, w: nat)
    requires w > 0
    ensures AnyRun(runs + [r], i, w) <==> RunTest(r, i, w) || AnyRun(runs, i, w)
  {
    hide RunTest;
    var all := runs + [r];
    assert all[|runs|] == r && forall k :: 0 <= k < |runs| ==> all[k] == runs[k];
  }

  lemma DecidesNext(e: Expr, index: Expr, runs: seq<Run>, r: Run)
    requires DecidesRuns(e, index, runs) && 0 <= r.first < r.end
    ensures DecidesRuns(OrCreate(TestExpr(index, r), e), index, runs + [r])
  {
    hide WF, Eval, TestExpr, RunTest, Holds, AnyRun, OrCreate;
    forall a
      ensures Holds(OrCreate(TestExpr(index, r), e), a) <==> AnyRun(runs + [r], Eval(index, a), Width(index))
    {
      TestExprSound(index, r, a);
      OrHolds(TestExpr(index, r), e, a);
      AnyRunNext(runs, r, Eval(index, a), Width(index));
    }
  }

  method GroupTest(index: Expr, runs: seq<Run>) returns (currOr: Expr)
    requires WF(index) && Proper(runs) && runs != []
    ensures DecidesRuns(currOr, index, runs)
  {
    hide WF, TestExpr, DecidesRuns, OrCreate;
    currOr := TestExpr(index, runs[0]);
    DecidesFirst(index, runs[0]);
    assert runs[..1] == [runs[0]];
    for i := 1 to |runs|
      invariant WF(currOr) && Width(currOr) == BOOL && DecidesRuns(currOr, index, runs[..i])
    {
      DecidesNext(currOr, index, runs[..i], runs[i]);
      assert runs[..i + 1] == runs[..i] + [runs[i]];
      currOr := OrCreate(TestExpr(index, runs[i]), currOr);
    }
    assert runs[..|runs|] == runs;
  }

  // ----- the chain -----

  /** What a chain over the values `ks`, the first one the default, selects for index `i`. */
  function ChainValue(ks: seq<int>, groups: Groups, i: nat, w: nat): int
    requires w > 0 && ks != [] && forall k :: k in ks ==> k in groups
  {
    var k := ks[|ks| - 1];
    if |ks| == 1 || AnyRun(groups[k], i, w) then k else ChainValue(ks[..|ks| - 1], groups, i, w)
  }

  predicate Known(ks: seq<int>, groups: Groups) { ks != [] && forall k :: k in ks ==> k in groups && k >= 0 }

  /** `e` has, under every assignment, the value the chain selects. */
  ghost predicate Denotes(e: Expr, index: Expr, ks: seq<int>, groups: Groups, width: nat) {
    && WF(e) && Width(e) == width && WF(index) && Width(index) > 0 && Known(ks, groups)
    && forall a :: Eval(e, a) == ChainValue(ks, groups, Eval(index, a), Width(index))
  }

  lemma DenotesDefault(k: int, index: Expr, groups: Groups, width: nat)
    requires WF(index) && width > 0 && 0 <= k < Pow2(width) && k in groups
    ensures Denotes(Constant(k, width), index, [k], groups, width)
  {
    hide AnyRun;
    WidthPositive(index);
  }

  lemma ChainNext(ks: seq<int>, k: int, groups: Groups, i: nat, w: nat)
    requires w > 0 && Known(ks, groups) && k in groups && k >= 0
    ensures Known(ks + [k], groups)
    ensures ChainValue(ks + [k], groups, i, w) == if AnyRun(groups[k], i, w) then k else ChainValue(ks, groups, i, w)
  {
    hide AnyRun;
    var all := ks + [k];
    assert all[..|ks|] == ks && all[|ks|] == k;
  }

  lemma DenotesNext(e: Expr, test: Expr, k: int, index: Expr, ks: seq<int>, groups: Groups, width: nat)
    requires Denotes(e, index, ks, groups, width) && width > 0 && 0 <= k < Pow2(width) && k in groups
    requires DecidesRuns(test, index, groups[k])
    ensures WF(Constant(k, width))
    ensures Denotes(SelectCreate(test, Constant(k, width), e), index, ks + [k], groups, width)
  {
    hide AnyRun, Eval, Holds, SelectCreate, ChainValue, WF, Width, Pow2;
    ConstantTyped(k, width);
    var next := SelectCreate(test, Constant(k, width), e);
    ChainNext(ks, k, groups, 0, Width(index));
    forall a
      ensures Eval(next, a) == ChainValue(ks + [k], groups, Eval(index, a), Width(index))
    {
      SelectSound(test, Constant(k, width), e, a);
      ConstValue(Constant(k, width), a);
      ChainNext(ks, k, groups, Eval(index, a), Width(index));
    }
  }

  /** If at most the value `v` is tested positive, the chain selects it, or the default. */
  lemma {:induction false} ChainPicks(ks: seq<int>, groups: Groups, i: nat, w: nat, v: int)
    requires w > 0 && Known(ks, groups)
    requires forall k :: k in ks && k != v ==> !AnyRun(groups[k], i, w)
    ensures v in ks && AnyRun(groups[v], i, w) ==> ChainValue(ks, groups, i, w) == v
    ensures v in ks && v != ks[0] && !AnyRun(groups[v], i, w) ==> ChainValue(ks, groups, i, w) == ks[0]
    decreases |ks|
  {
    hide AnyRun;
    var n := |ks| - 1;
    assert ks[n] in ks;
    if n > 0 {
      assert forall k :: k in ks[..n] ==> k in ks;
      assert v in ks ==> v in ks[..n] || v == ks[n];
      if v in ks[..n] || v !in ks {
        ChainPicks(ks[..n], groups, i, w, v);
      } else {
        NeverPicked(ks[..n], groups, i, w);
      }
    }
  }

  lemma {:induction false} NeverPicked(ks: seq<int>, groups: Groups, i: nat, w: nat)
    requires w > 0 && Known(ks, groups)
    requires forall k :: k in ks ==> !AnyRun(groups[k], i, w)
    ensures ChainValue(ks, groups, i, w) == ks[0]
    decreases |ks|
  {
    hide AnyRun;
    var n := |ks| - 1;
    assert ks[n] in ks;
    if n > 0 {
      assert forall k :: k in ks[..n] ==> k in ks;
      NeverPicked(ks[..n], groups, i, w);
    }
  }

  // ----- the runs of an array -----

  /** `[first, end)` is a longest stretch of value `v` in `arr`. */
  predicate Stretch(r: Run, v: int, arr: seq<int>) {
    && 0 <= r.first < r.end <= |arr|
    && (forall x :: r.first <= x < r.end ==> arr[x] == v)
    && (r.first > 0 ==> arr[r.first - 1] != v)
    && (r.end < |arr| ==> arr[r.end] != v)
  }

  /** All recorded runs are stretches of their value. */
  ghost predicate Stretches(ranges: seq<Run>, values: seq<int>, arr: seq<int>) {
    |ranges| == |values| && forall j :: 0 <= j < |ranges| ==> Stretch(ranges[j], values[j], arr)
  }

  ghost predicate InSomeRun(ranges: seq<Run>, x: int) {
    exists j :: 0 <= j < |ranges| && ranges[j].first <= x < ranges[j].end
  }

  /** Every index below `n` is in a recorded run. */
  ghost predicate Covered(ranges: seq<Run>, n: int) { forall x :: 0 <= x < n ==> InSomeRun(ranges, x) }

  lemma RunAdded(ranges: seq<Run>, values: seq<int>, arr: seq<int>, r: Run, v: int)
    requires Stretches(ranges, values, arr) && Covered(ranges, r.first) && Stretch(r, v, arr)
    ensures Stretches(ranges + [r], values + [v], arr) && Covered(ranges + [r], r.end)
  {
    hide Stretch;
    var all := ranges + [r];
    assert all[|ranges|] == r;
    forall x | 0 <= x < r.end
      ensures InSomeRun(all, x)
    {
      if 0 <= x < r.first {
        assert InSomeRun(ranges, x);
        var j :| 0 <= j < |ranges| && ranges[j].first <= x < ranges[j].end;
        assert all[j] == ranges[j];
      }
    }
  }

  lemma NoRuns(arr: seq<int>)
    ensures Stretches([], [], arr) && Covered([], 0) && (arr != [] ==> Seen(arr, 0) == {})
  {
  }

  /** The stretch that `from` begins goes on at least up to `i`. */
  predicate Open(from: int, v: int, i: int, arr: seq<int>) {
    && 0 <= from <= i < |arr| && (i > 0 ==> from < i) && arr[from] == v
    && (forall x :: from <= x < i ==> arr[x] == v)
    && (from > 0 ==> arr[from - 1] != v)
  }

  function Seen(arr: seq<int>, n: int): set<int>
    requires n <= |arr|
  {
    set x | 0 <= x < n :: arr[x]
  }

  /** How many elements have been counted after `i` steps: each step counts the one before it. */
  function Counted(i: nat): nat { if i <= 1 then i else i - 1 }

  lemma SeenNext(arr: seq<int>, i: nat, v: int)
    requires i < |arr| && v == arr[if i == 0 then 0 else i - 1]
    ensures Seen(arr, Counted(i + 1)) == Seen(arr, Counted(i)) + {v}
  {
    forall x | x in Seen(arr, Counted(i + 1))
      ensures x in Seen(arr, Counted(i)) + {v}
    {
    }
    forall x | x in Seen(arr, Counted(i)) + {v}
      ensures x in Seen(arr, Counted(i + 1))
    {
      if x == v {
        assert arr[if i == 0 then 0 else i - 1] in Seen(arr, Counted(i + 1));
      }
    }
  }

  /** Splits the array into its runs. The last of several elements is not counted among the values. */
  method FindRuns(arr: seq<int>) returns (ranges: seq<Run>, values: seq<int>, unique: set<int>)
    requires arr != []
    ensures Stretches(ranges, values, arr) && Covered(ranges, |arr|) && unique == Seen(arr, Counted(|arr|))
  {
    hide Stretches, Covered, Seen;
    ranges, values, unique := [], [], {};
    var currIdx, currVal := 0, arr[0];
    NoRuns(arr);
    for i := 0 to |arr|
      invariant Stretches(ranges, values, arr) && unique == Seen(arr, Counted(i))
      invariant i == |arr| ==> Covered(ranges, |arr|)
      invariant i < |arr| ==> Covered(ranges, currIdx) && Open(currIdx, currVal, i, arr)
    {
      var temp := arr[i];
      SeenNext(arr, i, currVal);
      unique := unique + {currVal};
      if temp != currVal {
        RunAdded(ranges, values, arr, Run(currIdx, i), currVal);
        ranges, values := ranges + [Run(currIdx, i)], values + [currVal];
        currVal, currIdx := temp, i;
        if i == |arr| - 1 {
          RunAdded(ranges, values, arr, Run(currIdx, i + 1), currVal);
          ranges, values := ranges + [Run(currIdx, i + 1)], values + [currVal];
        }
      } else if i == |arr| - 1 {
        RunAdded(ranges, values, arr, Run(currIdx, i + 1), currVal);
        ranges, values := ranges + [Run(currIdx, i + 1)], values + [currVal];
      }
    }
  }

  // ----- the runs by value -----

  /** Every value has runs, and they are stretches of it. */
  ghost predicate Grouped(groups: Groups, arr: seq<int>) {
    && (forall v :: v in groups ==> groups[v] != [])
    && forall v, k :: v in groups && 0 <= k < |groups[v]| ==> Stretch(groups[v][k], v, arr)
  }

  ghost predicate Filed(r: Run, v: int, groups: Groups) { v in groups && r in groups[v] }

  lemma FiledNext(ranges: seq<Run>, values: seq<int>, i: nat, groups: Groups, arr: seq<int>)
    requires Stretches(ranges, values, arr) && i < |ranges| && Grouped(groups, arr)
    requires forall j :: 0 <= j < i ==> Filed(ranges[j], values[j], groups)
    ensures var now := groups[values[i] := (if values[i] in groups then groups[values[i]] else []) + [ranges[i]]];
      Grouped(now, arr) && forall j :: 0 <= j < i + 1 ==> Filed(ranges[j], values[j], now)
  {
    hide Stretch;
    var had := if values[i] in groups then groups[values[i]] else [];
    var now := groups[values[i] := had + [ranges[i]]];
    forall v, k | v in now && 0 <= k < |now[v]|
      ensures Stretch(now[v][k], v, arr)
    {
      if v == values[i] {
        assert now[v][k] == if k < |had| then had[k] else ranges[i];
      }
    }
    forall j | 0 <= j < i + 1
      ensures Filed(ranges[j], values[j], now)
    {
      assert j < i ==> Filed(ranges[j], values[j], groups);
      assert ranges[i] == now[values[i]][|had|];
    }
  }

  method GroupRuns(ranges: seq<Run>, values: seq<int>, ghost arr: seq<int>) returns (exprMap: Groups)
    requires Stretches(ranges, values, arr)
    ensures Grouped(exprMap, arr) && forall j :: 0 <= j < |ranges| ==> Filed(ranges[j], values[j], exprMap)
  {
    hide Grouped, Filed;
    exprMap := map[];
    NoGroups(arr);
    for i := 0 to |ranges|
      invariant Grouped(exprMap, arr) && forall j :: 0 <= j < i ==> Filed(ranges[j], values[j], exprMap)
    {
      FiledNext(ranges, values, i, exprMap, arr);
      if values[i] in exprMap {
        exprMap := exprMap[values[i] := exprMap[values[i]] + [ranges[i]]];
      } else {
        exprMap := exprMap[values[i] := [] + [ranges[i]]];
      }
    }
  }

  lemma NoGroups(arr: seq<int>)
    ensures Grouped(map[], arr)
  {
  }

  /** The array by its groups: every index is in a run of its value. */
  ghost predicate Partition(groups: Groups, arr: seq<int>) {
    Grouped(groups, arr)
    && forall x :: 0 <= x < |arr| ==> arr[x] in groups && InSomeRun(groups[arr[x]], x)
  }

  lemma PartitionGrouped(groups: Groups, arr: seq<int>)
    requires Partition(groups, arr)
    ensures Grouped(groups, arr)
  {
  }

  lemma GroupsPartition(ranges: seq<Run>, values: seq<int>, groups: Groups, arr: seq<int>)
    requires Stretches(ranges, values, arr) && Covered(ranges, |arr|) && Grouped(groups, arr)
    requires forall j :: 0 <= j < |ranges| ==> Filed(ranges[j], values[j], groups)
    ensures Partition(groups, arr)
  {
    hide Grouped;
    forall x | 0 <= x < |arr|
      ensures arr[x] in groups && InSomeRun(groups[arr[x]], x)
    {
      assert InSomeRun(ranges, x);
      var j :| 0 <= j < |ranges| && ranges[j].first <= x < ranges[j].end;
      assert Stretch(ranges[j], values[j], arr) && arr[x] == values[j];
      assert Filed(ranges[j], values[j], groups);
      var k :| 0 <= k < |groups[values[j]]| && groups[values[j]][k] == ranges[j];
    }
  }

  // ----- what the chain selects -----

  /** An index in a run that crosses, of a value that is not the default. */
  ghost predicate Lost(arr: seq<int>, i: int, w: nat)
    requires w > 0 && 0 <= i < |arr|
  {
    && (exists j :: 0 <= j < |arr| && arr[j] < arr[i])
    && exists r: Run :: Stretch(r, arr[i], arr) && r.first <= i < r.end && Crossing(r, w)
  }

  lemma StretchUnique(r: Run, q: Run, i: int, v: int, arr: seq<int>)
    requires Stretch(r, v, arr) && Stretch(q, v, arr) && r.first <= i < r.end && q.first <= i < q.end
    ensures r == q
  {
  }

  /** All values in ascending order. */
  ghost predicate AllValues(ks: seq<int>, groups: Groups) {
    Known(ks, groups) && (forall v :: v in groups ==> v in ks && ks[0] <= v) && Elems(ks) == groups.Keys
  }

  lemma OtherValue(groups: Groups, v: int, arr: seq<int>, i: int, w: nat)
    requires Grouped(groups, arr) && v in groups && 0 <= i < |arr| <= Pow2(w) && w > 0 && v != arr[i]
    ensures !AnyRun(groups[v], i, w)
  {
    hide RunTest;
    forall k | 0 <= k < |groups[v]|
      ensures !RunTest(groups[v][k], i, w)
    {
      RunTestExact(groups[v][k], i, w);
    }
  }

  lemma OwnValue(groups: Groups, arr: seq<int>, i: int, w: nat)
    requires Partition(groups, arr) && 0 <= i < |arr| <= Pow2(w) && w > 0
    ensures arr[i] in groups
    ensures AnyRun(groups[arr[i]], i, w) <==>
      !exists r: Run :: Stretch(r, arr[i], arr) && r.first <= i < r.end && Crossing(r, w)
  {
    hide RunTest, Crossing, Stretch;
    var runs := groups[arr[i]];
    assert InSomeRun(runs, i);
    var k :| 0 <= k < |runs| && runs[k].first <= i < runs[k].end;
    assert Stretch(runs[k], arr[i], arr);
    RunAt(runs[k], arr, i, w);
    if AnyRun(runs, i, w) {
      var m :| 0 <= m < |runs| && RunTest(runs[m], i, w);
      assert Stretch(runs[m], arr[i], arr);
      RunAt(runs[m], arr, i, w);
      forall r: Run | Stretch(r, arr[i], arr) && r.first <= i < r.end
        ensures !Crossing(r, w)
      {
        StretchUnique(r, runs[m], i, arr[i], arr);
      }
    }
  }

  lemma RunAt(r: Run, arr: seq<int>, i: int, w: nat)
    requires w > 0 && 0 <= i < |arr| <= Pow2(w) && Stretch(r, arr[i], arr)
    ensures RunTest(r, i, w) <==> !Crossing(r, w) && r.first <= i < r.end
  {
    RunTestExact(r, i, w);
  }

  /** The chain selects the element for exactly the indices that are not lost. */
  lemma ChainExact(ks: seq<int>, groups: Groups, arr: seq<int>, i: int, w: nat)
    requires Partition(groups, arr) && AllValues(ks, groups) && 0 <= i < |arr| <= Pow2(w) && w > 0
    ensures ChainValue(ks, groups, i, w) == arr[i] <==> !Lost(arr, i, w)
  {
    hide AnyRun, Stretch, Crossing, ChainValue;
    var v := arr[i];
    OwnValue(groups, arr, i, w);
    forall k | k in ks && k != v
      ensures !AnyRun(groups[k], i, w)
    {
      OtherValue(groups, k, arr, i, w);
    }
    ChainPicks(ks, groups, i, w, v);
    LeastValue(ks, groups, arr, i);
    if v == ks[0] && !AnyRun(groups[v], i, w) {
      forall k | k in ks
        ensures !AnyRun(groups[k], i, w)
      {
      }
      NeverPicked(ks, groups, i, w);
    }
  }

  /** The default is the least element. */
  lemma LeastValue(ks: seq<int>, groups: Groups, arr: seq<int>, i: int)
    requires Partition(groups, arr) && AllValues(ks, groups) && 0 <= i < |arr|
    ensures (exists j :: 0 <= j < |arr| && arr[j] < arr[i]) <==> arr[i] != ks[0]
  {
    assert forall x :: 0 <= x < |arr| ==> arr[x] in groups && ks[0] <= arr[x];
    if arr[i] != ks[0] {
      assert ks[0] in groups;
      assert Stretch(groups[ks[0]][0], ks[0], arr);
      assert arr[groups[ks[0]][0].first] == ks[0];
    }
  }

  // ----- building it -----

  /** The next key of a map that is kept in order. */
  method Least(todo: set<int>) returns (k: int)
    requires todo != {}
    ensures k in todo && forall v :: v in todo ==> k <= v
  {
    var rest := todo;
    ghost var any := Element(rest);
    k :| k in rest;
    while rest != {}
      invariant rest <= todo && k in todo
      invariant forall v :: v in todo && v !in rest ==> k <= v
    {
      ghost var some := Element(rest);
      var v :| v in rest;
      if v < k {
        k := v;
      }
      rest := rest - {v};
    }
  }

  lemma GroupProper(groups: Groups, k: int, arr: seq<int>)
    requires Grouped(groups, arr) && k in groups
    ensures Proper(groups[k]) && groups[k] != []
  {
    forall j | 0 <= j < |groups[k]|
      ensures 0 <= groups[k][j].first < groups[k][j].end
    {
      assert Stretch(groups[k][j], k, arr);
    }
  }

  method BuildSelect(index: Expr, exprMap: Groups, k: int, rest: Expr, width: nat, ghost ks: seq<int>,
                     ghost arr: seq<int>)
    returns (temp: Expr)
    requires Denotes(rest, index, ks, exprMap, width) && Grouped(exprMap, arr) && k in exprMap
    requires width > 0 && 0 <= k < Pow2(width)
    ensures Denotes(temp, index, ks + [k], exprMap, width)
  {
    hide DecidesRuns, WF, TestExpr, SelectCreate, Grouped;
    GroupProper(exprMap, k, arr);
    var currOr := GroupTest(index, exprMap[k]);
    DenotesNext(rest, currOr, k, index, ks, exprMap, width);
    DecidesTyped(currOr, index, exprMap[k]);
    temp := SelectCreate(currOr, Constant(k, width), rest);
  }

  lemma DecidesTyped(e: Expr, index: Expr, runs: seq<Run>)
    requires DecidesRuns(e, index, runs)
    ensures WF(e) && Width(e) == BOOL
  {
  }

  lemma ConstantTyped(k: nat, width: nat)
    requires width > 0 && k < Pow2(width)
    ensures WF(Constant(k, width)) && Width(Constant(k, width)) == width
  {
  }

  lemma ElemsSnoc(ks: seq<int>, k: int)
    ensures Elems(ks + [k]) == Elems(ks) + {k}
  {
    forall x | x in Elems(ks) + {k}
      ensures x in Elems(ks + [k])
    {
      if x == k {
        assert (ks + [k])[|ks|] == k;
      } else {
        assert x in ks;
      }
    }
  }

  /** The fold over the values in ascending order; the first one becomes the default. */
  method BuildChain(index: Expr, exprMap: Groups, width: nat, ghost arr: seq<int>)
    returns (result: Expr, ghost ks: seq<int>)
    requires WF(index) && width > 0 && Partition(exprMap, arr) && exprMap != map[]
    requires forall v :: v in exprMap ==> 0 <= v < Pow2(width)
    ensures Denotes(result, index, ks, exprMap, width) && AllValues(ks, exprMap)
  {
    hide Denotes, WF, Partition, Grouped;
    assert Grouped(exprMap, arr) by {
      PartitionGrouped(exprMap, arr);
    }
    var ct := 0;
    result, ks := Constant(0, width), [];
    var todo := exprMap.Keys;
    while todo != {}
      invariant todo <= exprMap.Keys && ct == |ks| && Elems(ks) == exprMap.Keys - todo
      invariant forall k, v :: k in ks && v in todo ==> k < v
      invariant ct > 0 ==> Denotes(result, index, ks, exprMap, width)
      invariant ct > 0 ==> forall k :: k in ks ==> ks[0] <= k
    {
      var k := Least(todo);
      assert k in exprMap;
      if ct == 0 {
        assert ks + [k] == [k];
        result := Constant(k, width);
        DenotesDefault(k, index, exprMap, width);
      } else {
        result := BuildSelect(index, exprMap, k, result, width, ks, arr);
      }
      ElemsSnoc(ks, k);
      assert exprMap.Keys - (todo - {k}) == (exprMap.Keys - todo) + {k};
      ghost var longer := ks + [k];
      assert forall x :: x in longer ==> x in ks || x == k;
      assert ks != [] ==> longer[0] == ks[0] && ks[0] in ks;
      forall x, v | x in longer && v in todo - {k}
        ensures x < v
      {
        assert v in todo && v != k;
      }
      ks, ct, todo := longer, ct + 1, todo - {k};
    }
    AllFolded(ks, exprMap, result, index, width);
  }

  lemma AllFolded(ks: seq<int>, groups: Groups, e: Expr, index: Expr, width: nat)
    requires Denotes(e, index, ks, groups, width) && Elems(ks) == groups.Keys && ks != []
    requires forall k :: k in ks ==> ks[0] <= k
    ensures AllValues(ks, groups)
  {
    hide ChainValue, Eval, WF;
    assert forall v :: v in groups ==> v in Elems(ks);
  }

  /** Indices wider than 32 bits are cut. */
  function IndexWidth(index: Expr): nat { if Width(index) > INT32 then INT32 else Width(index) }

  /** `e` selects the element, under every assignment, for exactly the indices that are not lost. */
  ghost predicate Selects(e: Expr, index: Expr, arr: seq<int>, width: nat) {
    && WF(e) && Width(e) == width && WF(index) && IndexWidth(index) > 0
    && forall a :: Eval(index, a) < |arr| ==>
      (Eval(e, a) == arr[Eval(index, a)] <==> !Lost(arr, Eval(index, a), IndexWidth(index)))
  }

  lemma ChainSelects(e: Expr, index: Expr, actualIndex: Expr, ks: seq<int>, groups: Groups, arr: seq<int>, width: nat)
    requires WF(index) && 0 < |arr| <= Pow2(IndexWidth(index))
    requires actualIndex == if Width(index) > INT32 then Extract(index, 0, INT32) else index
    requires Denotes(e, actualIndex, ks, groups, width) && AllValues(ks, groups) && Partition(groups, arr)
    ensures Selects(e, index, arr, width)
  {
    hide AnyRun, Lost, Eval, Partition, AllValues, ChainValue, WF;
    WidthPositive(index);
    forall a | Eval(index, a) < |arr|
      ensures Eval(e, a) == arr[Eval(index, a)] <==> !Lost(arr, Eval(index, a), IndexWidth(index))
    {
      IndexCut(index, a);
      assert Width(actualIndex) == IndexWidth(index) && Eval(actualIndex, a) == Eval(index, a);
      ChainExact(ks, groups, arr, Eval(index, a), IndexWidth(index));
    }
  }

  lemma IndexCut(index: Expr, a: Assignment)
    requires WF(index)
    ensures Width(index) > INT32 && Eval(index, a) < Pow2(INT32) ==>
      WF(Extract(index, 0, INT32)) && Eval(Extract(index, 0, INT32), a) == Eval(index, a)
  {
    hide WF, Eval, Pow2;
    if Width(index) > INT32 && Eval(index, a) < Pow2(INT32) {
      ExtractValue(index, 0, INT32, a);
      ExtractBitsLow(Eval(index, a), INT32);
    }
  }

  lemma ExtractBitsLow(v: nat, w: nat)
    requires v < Pow2(w)
    ensures ExtractBits(v, 0, w) == v
  {
    ModSmall(v, Pow2(w));
  }

  /** Nothing, if there are too many different values; otherwise the chain. */
  method BuildConstantSelectExpr(index: Expr, arrayValues: seq<int>, width: nat, ratio: real)
    returns (result: Option<Expr>)
    requires WF(index) && width > 0 && 0 < |arrayValues| <= Pow2(IndexWidth(index))
    requires forall j :: 0 <= j < |arrayValues| ==> 0 <= arrayValues[j] < Pow2(width)
    ensures IndexWidth(index) > 0
    ensures result.None? <==>
      |Seen(arrayValues, Counted(|arrayValues|))| as real / |arrayValues| as real >= ratio
    ensures result.Some? ==> Selects(result.value, index, arrayValues, width)
    ensures result.Some? && !CrossesSignBit(arrayValues, IndexWidth(index)) ==>
      forall a :: Eval(index, a) < |arrayValues| ==> Eval(result.value, a) == arrayValues[Eval(index, a)]
  {
    hide Stretches, Covered, Grouped, Filed, Partition, AllValues, Denotes, Selects, WF, Seen, Pow2, Eval,
         CrossesSignBit;
    IndexPositive(index);
    var actualIndex := if Width(index) > INT32 then Extract(index, 0, INT32) else index;
    var ranges, values, unique := FindRuns(arrayValues);
    if |unique| as real / |arrayValues| as real >= ratio {
      return None;
    }
    var exprMap := GroupRuns(ranges, values, arrayValues);
    GroupsPartition(ranges, values, exprMap, arrayValues);
    ValuesFit(exprMap, arrayValues, width);
    IndexTyped(index);
    var chain;
    ghost var ks;
    chain, ks := BuildChain(actualIndex, exprMap, width, arrayValues);
    ChainSelects(chain, index, actualIndex, ks, exprMap, arrayValues, width);
    result := Some(chain);
    if !CrossesSignBit(arrayValues, IndexWidth(index)) {
      SelectsAll(chain, index, arrayValues, width);
    }
  }

  lemma IndexTyped(index: Expr)
    requires WF(index)
    ensures Width(index) > INT32 ==> WF(Extract(index, 0, INT32))
  {
  }

  lemma ValuesFit(groups: Groups, arr: seq<int>, width: nat)
    requires Partition(groups, arr) && arr != []
    requires forall j :: 0 <= j < |arr| ==> 0 <= arr[j] < Pow2(width)
    ensures groups != map[] && forall v :: v in groups ==> 0 <= v < Pow2(width)
  {
    hide Pow2;
    assert arr[0] in groups;
    forall v | v in groups
      ensures 0 <= v < Pow2(width)
    {
      assert Stretch(groups[v][0], v, arr);
      assert arr[groups[v][0].first] == v;
    }
  }

  // ----- when indices are lost -----

  /** A run of several elements, not of the least value, holds the last nonnegative index. */
  ghost predicate CrossesSignBit(arr: seq<int>, w: nat)
    requires w > 0
  {
    var last := Pow2(w - 1) - 1;
    && last < |arr|
    && (exists j :: 0 <= j < |arr| && arr[j] < arr[last])
    && ((last > 0 && arr[last - 1] == arr[last]) || (last + 1 < |arr| && arr[last + 1] == arr[last]))
  }

  lemma {:induction false} StretchDown(arr: seq<int>, i: int) returns (first: int)
    requires 0 <= i < |arr|
    ensures 0 <= first <= i && (forall x :: first <= x <= i ==> arr[x] == arr[i])
            && (first > 0 ==> arr[first - 1] != arr[i])
    decreases i
  {
    first := i;
    if i > 0 && arr[i - 1] == arr[i] {
      first := StretchDown(arr, i - 1);
    }
  }

  lemma {:induction false} StretchUp(arr: seq<int>, i: int) returns (end: int)
    requires 0 <= i < |arr|
    ensures i < end <= |arr| && (forall x :: i <= x < end ==> arr[x] == arr[i]) && (end < |arr| ==> arr[end] != arr[i])
    decreases |arr| - i
  {
    end := i + 1;
    if end < |arr| && arr[end] == arr[i] {
      end := StretchUp(arr, i + 1);
    }
  }

  /** Some index is lost exactly if such a run holds the last nonnegative index; an array that ends
      before it loses none. */
  lemma LossExact(arr: seq<int>, w: nat)
    requires w > 0
    ensures (exists i :: 0 <= i < |arr| && Lost(arr, i, w)) <==> CrossesSignBit(arr, w)
    ensures |arr| < Pow2(w - 1) ==> forall i :: 0 <= i < |arr| ==> !Lost(arr, i, w)
  {
    hide Pow2;
    var last := Pow2(w - 1) - 1;
    forall i | 0 <= i < |arr| && Lost(arr, i, w)
      ensures CrossesSignBit(arr, w)
    {
      var r: Run :| Stretch(r, arr[i], arr) && r.first <= i < r.end && Crossing(r, w);
      assert arr[last] == arr[i];
    }
    if CrossesSignBit(arr, w) {
      var first := StretchDown(arr, last);
      var end := StretchUp(arr, last);
      assert Stretch(Run(first, end), arr[last], arr) && Crossing(Run(first, end), w);
      assert Lost(arr, last, w);
    }
  }

  lemma IndexPositive(index: Expr)
    requires WF(index)
    ensures IndexWidth(index) > 0
  {
    WidthPositive(index);
  }

  lemma SelectsAll(e: Expr, index: Expr, arr: seq<int>, width: nat)
    requires Selects(e, index, arr, width) && !CrossesSignBit(arr, IndexWidth(index))
    ensures forall a :: Eval(index, a) < |arr| ==> Eval(e, a) == arr[Eval(index, a)]
  {
    hide WF, Eval, Lost, CrossesSignBit;
    LossExact(arr, IndexWidth(index));
  }

  /** A zero and then ones. */
  function ZeroThenOnes(n: nat): seq<int> { seq(n, i => if i == 0 then 0 else 1) }

  /** With an index of 32 bits and the ratio 1.0 the loss happens from 2^31 elements on: the chain built for
      a zero and then ones never gives a one at index 1. */
  method LossExample(index: Expr, n: nat, width: nat) returns (result: Option<Expr>)
    requires WF(index) && IndexWidth(index) == INT32 && Pow2(INT32 - 1) <= n <= Pow2(INT32) && width > 0
    ensures result.Some? && Selects(result.value, index, ZeroThenOnes(n), width)
    ensures forall a :: Eval(index, a) == 1 ==> Eval(result.value, a) != 1
  {
    LossAt(n, width);
    hide WF, Eval, Selects, Seen, Lost, Pow2, CrossesSignBit, Counted, ZeroThenOnes;
    result := BuildConstantSelectExpr(index, ZeroThenOnes(n), width, 1.0);
    if result.Some? {
      forall a | Eval(index, a) == 1
        ensures Eval(result.value, a) != 1
      {
        SelectsAt(result.value, index, ZeroThenOnes(n), width, a);
      }
    }
  }

  lemma SelectsAt(e: Expr, index: Expr, arr: seq<int>, width: nat, a: Assignment)
    requires Selects(e, index, arr, width) && Eval(index, a) < |arr| && Lost(arr, Eval(index, a), IndexWidth(index))
    ensures Eval(e, a) != arr[Eval(index, a)]
  {
  }

  lemma LossAt(n: nat, width: nat)
    requires Pow2(INT32 - 1) <= n && width > 0
    ensures var arr := ZeroThenOnes(n);
            && |arr| == n > 2 && arr[1] == 1 && Lost(arr, 1, INT32)
            && |Seen(arr, Counted(n))| as real / n as real < 1.0
            && forall j :: 0 <= j < n ==> 0 <= arr[j] < Pow2(width)
  {
    var arr := ZeroThenOnes(n);
    assert Pow2(2) == 4 && Pow2(1) == 2;
    Pow2Mono(2, INT32 - 1);
    Pow2Mono(1, width);
    hide Pow2;
    var r := Run(1, n);
    assert Crossing(r, INT32) && arr[0] < arr[1];
    assert Stretch(r, arr[1], arr) && r.first <= 1 < r.end;
    var seen := Seen(arr, Counted(n));
    assert seen <= {0, 1};
    SubsetSize(seen, {0, 1});
  }
}
