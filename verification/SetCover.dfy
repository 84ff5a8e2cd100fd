/** Choosing test cases that together cover every branch: the bookkeeping of branch sets, and a greedy
    cover over a Boolean matrix. */
module SetCover {
  import opened Collections

  function Union(us: seq<set<int>>): set<int> { if us == [] then {} else us[0] + Union(us[1..]) }

  lemma {:induction false} UnionExact(us: seq<set<int>>)
    ensures forall i :: 0 <= i < |us| ==> us[i] <= Union(us)
    ensures forall x :: x in Union(us) ==> exists i :: 0 <= i < |us| && x in us[i]
  {
    if us != [] {
      UnionExact(us[1..]);
      forall i | 0 <= i < |us|
        ensures us[i] <= Union(us)
      {
        assert i > 0 ==> us[i] == us[1..][i - 1];
      }
      forall x | x in Union(us)
        ensures exists i :: 0 <= i < |us| && x in us[i]
      {
        if x !in us[0] {
          var i :| 0 <= i < |us[1..]| && x in us[1..][i];
          assert x in us[i + 1];
        }
      }
    }
  }

  lemma {:induction false} UnionSnoc(us: seq<set<int>>, u: set<int>)
    ensures Union(us + [u]) == Union(us) + u
  {
    if us == [] {
      assert [u][1..] == [];
    } else {
      assert (us + [u])[1..] == us[1..] + [u];
      UnionSnoc(us[1..], u);
    }
  }

  // ----- greedy cover, on sets -----

  /** The sets that were picked. */
  function Chosen(us: seq<set<int>>, picks: seq<int>): (r: seq<set<int>>)
    requires forall k :: 0 <= k < |picks| ==> 0 <= picks[k] < |us|
    ensures |r| == |picks| && forall k :: 0 <= k < |r| ==> r[k] == us[picks[k]]
  {
    seq(|picks|, k requires 0 <= k < |picks| => us[picks[k]])
  }

  predicate Indices(us: seq<set<int>>, picks: seq<int>) { forall k :: 0 <= k < |picks| ==> 0 <= picks[k] < |us| }

  /** What the first `k` picks leave uncovered. */
  function Rest(us: seq<set<int>>, branches: set<int>, picks: seq<int>, k: nat): set<int>
    requires Indices(us, picks) && k <= |picks|
  {
    branches - Union(Chosen(us, picks)[..k])
  }

  /** Each pick is the first of the largest among those that cover the most of what is left. */
  ghost predicate Greedy(us: seq<set<int>>, branches: set<int>, picks: seq<int>)
    requires Indices(us, picks)
  {
    forall k :: 0 <= k < |picks| ==> BestPick(us, Rest(us, branches, picks, k), picks[k])
  }

  ghost predicate BestPick(us: seq<set<int>>, rest: set<int>, i: int)
    requires 0 <= i < |us|
  {
    && us[i] * rest != {}
    && forall j :: 0 <= j < |us| ==> Worse(us, rest, i, j)
  }

  /** `j` covers less of the rest than `i`; or as much, and is smaller, or as large but not before `i`. */
  ghost predicate Worse(us: seq<set<int>>, rest: set<int>, i: int, j: int)
    requires 0 <= i < |us| && 0 <= j < |us|
  {
    || |us[j] * rest| < |us[i] * rest|
    || (|us[j] * rest| == |us[i] * rest| && (|us[j]| < |us[i]| || (|us[j]| == |us[i]| && i <= j)))
  }

  lemma RestStep(us: seq<set<int>>, branches: set<int>, picks: seq<int>, k: nat)
    requires Indices(us, picks) && k < |picks|
    ensures Rest(us, branches, picks, k + 1) == Rest(us, branches, picks, k) - us[picks[k]]
  {
    var chosen := Chosen(us, picks);
    assert chosen[..k + 1] == chosen[..k] + [chosen[k]];
    UnionSnoc(chosen[..k], chosen[k]);
  }

  /** What a pick covered is never picked again. */
  lemma GreedyDistinct(us: seq<set<int>>, branches: set<int>, picks: seq<int>)
    requires Indices(us, picks) && Greedy(us, branches, picks)
    ensures Distinct(picks)
  {
    forall i, j | 0 <= i < j < |picks|
      ensures picks[i] != picks[j]
    {
      assert BestPick(us, Rest(us, branches, picks, j), picks[j]);
      var chosen := Chosen(us, picks);
      UnionExact(chosen[..j]);
      assert chosen[..j][i] == us[picks[i]];
    }
  }

  // ----- how good the cover is -----

  /** The sets at the positions in `cover` cover everything. */
  ghost predicate Covers(us: seq<set<int>>, branches: set<int>, cover: seq<int>) {
    Indices(us, cover) && branches <= Union(Chosen(us, cover))
  }

  function SumInside(sets: seq<set<int>>, rest: set<int>): nat {
    if sets == [] then 0 else |sets[0] * rest| + SumInside(sets[1..], rest)
  }

  lemma {:induction false} SumCovers(sets: seq<set<int>>, rest: set<int>)
    ensures |rest * Union(sets)| <= SumInside(sets, rest)
  {
    if sets == [] {
      assert rest * Union(sets) == {};
    } else {
      SumCovers(sets[1..], rest);
      var a, b := sets[0] * rest, rest * Union(sets[1..]);
      assert rest * Union(sets) == a + b;
      UnionSize(a, b);
    }
  }

  lemma UnionSize(a: set<int>, b: set<int>)
    ensures |a + b| <= |a| + |b|
  {
    assert a + b == a + (b - a);
    assert |a + (b - a)| == |a| + |b - a|;
    SubsetSize(b - a, b);
  }

  lemma {:induction false} SumBound(sets: seq<set<int>>, rest: set<int>, most: nat)
    requires forall k :: 0 <= k < |sets| ==> |sets[k] * rest| <= most
    ensures SumInside(sets, rest) <= |sets| * most
  {
    if sets != [] {
      forall k | 0 <= k < |sets[1..]|
        ensures |sets[1..][k] * rest| <= most
      {
        assert sets[1..][k] == sets[k + 1];
      }
      SumBound(sets[1..], rest, most);
      assert |sets| * most == most + |sets[1..]| * most;
    }
  }

  /** A greedy pick covers at least its share of what is left. */
  lemma PickShare(us: seq<set<int>>, branches: set<int>, rest: set<int>, i: int, cover: seq<int>)
    requires 0 <= i < |us| && BestPick(us, rest, i) && Covers(us, branches, cover) && rest <= branches
    ensures |rest| <= |cover| * |us[i] * rest|
  {
    var sets := Chosen(us, cover);
    SumCovers(sets, rest);
    assert rest * Union(sets) == rest;
    forall k | 0 <= k < |sets|
      ensures |sets[k] * rest| <= |us[i] * rest|
    {
      assert Worse(us, rest, i, cover[k]);
    }
    SumBound(sets, rest, |us[i] * rest|);
  }

  function Pow(b: nat, e: nat): nat { if e == 0 then 1 else b * Pow(b, e - 1) }

  lemma MulMono(a: int, b: int, c: nat)
    requires a <= b
    ensures a * c <= b * c
  {
  }

  lemma MulSwap(a: int, b: int, c: int)
    ensures a * (b * c) == (a * b) * c == (a * c) * b
  {
  }

  lemma LessOne(r: int, m: int)
    ensures r * (m - 1) == r * m - r
  {
  }

  lemma ShareLeft(r: nat, r': nat, gain: nat, m: nat)
    requires r' == r - gain && r <= m * gain
    ensures r' * m <= r * (m - 1)
  {
    LessOne(r, m);
    assert r' * m == r * m - gain * m;
  }

  lemma ShareStep(r: nat, r': nat, gain: nat, m: nat, n: nat, pm: nat, pn: nat)
    requires r' == r - gain && r <= m * gain && m > 0 && r * pm <= n * pn
    ensures r' * (m * pm) <= n * ((m - 1) * pn)
  {
    ShareLeft(r, r', gain, m);
    MulSwap(r', m, pm);
    MulMono(r' * m, r * (m - 1), pm);
    MulSwap(r, m - 1, pm);
    MulMono(r * pm, n * pn, m - 1);
    MulSwap(n, m - 1, pn);
  }

  /** Against any cover of `m` sets: after `k` greedy picks at most n((m-1)/m)^k branches are left. */
  lemma {:induction false} GreedyBound(us: seq<set<int>>, branches: set<int>, picks: seq<int>, cover: seq<int>, k: nat)
    requires Indices(us, picks) && Greedy(us, branches, picks) && Covers(us, branches, cover) && cover != []
             && k <= |picks|
    ensures |Rest(us, branches, picks, k)| * Pow(|cover|, k) <= |branches| * Pow(|cover| - 1, k)
    decreases k
  {
    var m := |cover|;
    if k == 0 {
      assert Rest(us, branches, picks, 0) == branches;
    } else {
      GreedyBound(us, branches, picks, cover, k - 1);
      var before, after := Rest(us, branches, picks, k - 1), Rest(us, branches, picks, k);
      var i := picks[k - 1];
      assert BestPick(us, before, i);
      RestStep(us, branches, picks, k - 1);
      PickShare(us, branches, before, i, cover);
      assert before == after + us[i] * before;
      assert |before| == |after| + |us[i] * before|;
      ShareStep(|before|, |after|, |us[i] * before|, m, |branches|, Pow(m, k - 1), Pow(m - 1, k - 1));
    }
  }

  // ----- the matrix -----

  function CountTrue(s: seq<bool>): nat {
    if s == [] then 0 else CountTrue(s[..|s| - 1]) + (if s[|s| - 1] then 1 else 0)
  }

  /** The branches whose bit is set. */
  function Marked(order: seq<int>, s: seq<bool>): set<int>
    requires |s| == |order|
  {
    if s == [] then {}
    else Marked(order[..|s| - 1], s[..|s| - 1]) + (if s[|s| - 1] then {order[|s| - 1]} else {})
  }

  lemma {:induction false} MarkedIn(order: seq<int>, s: seq<bool>)
    requires |s| == |order|
    ensures forall x :: x in Marked(order, s) ==> exists j :: 0 <= j < |s| && s[j] && order[j] == x
    ensures forall j :: 0 <= j < |s| && s[j] ==> order[j] in Marked(order, s)
  {
    if s != [] {
      var n := |s| - 1;
      MarkedIn(order[..n], s[..n]);
      forall x | x in Marked(order, s)
        ensures exists j :: 0 <= j < |s| && s[j] && order[j] == x
      {
        if x in Marked(order[..n], s[..n]) {
          var j :| 0 <= j < n && s[..n][j] && order[..n][j] == x;
          assert s[j] && order[j] == x;
        } else {
          assert s[n] && order[n] == x;
        }
      }
      forall j | 0 <= j < |s| && s[j]
        ensures order[j] in Marked(order, s)
      {
        if j < n {
          assert s[..n][j] && order[..n][j] == order[j];
        }
      }
    }
  }

  lemma {:induction false} MarkedSize(order: seq<int>, s: seq<bool>)
    requires |s| == |order| && Distinct(order)
    ensures |Marked(order, s)| == CountTrue(s)
  {
    if s != [] {
      var n := |s| - 1;
      MarkedSize(order[..n], s[..n]);
      MarkedIn(order[..n], s[..n]);
      forall x | x in Marked(order[..n], s[..n])
        ensures x != order[n]
      {
        var j :| 0 <= j < n && s[..n][j] && order[..n][j] == x;
        assert order[j] == x;
      }
    }
  }

  /** A row with the bits of a part of the branches counts that part. */
  lemma RowCount(order: seq<int>, row: seq<bool>, part: set<int>)
    requires |row| == |order| && Distinct(order) && forall j :: 0 <= j < |row| ==> (row[j] <==> order[j] in part)
    requires forall x :: x in part ==> x in order
    ensures CountTrue(row) == |part|
  {
    MarkedSize(order, row);
    MarkedIn(order, row);
    hide Marked, CountTrue, Distinct;
    forall x | x in part
      ensures x in Marked(order, row)
    {
      var j :| 0 <= j < |order| && order[j] == x;
    }
    forall x | x in Marked(order, row)
      ensures x in part
    {
      var j :| 0 <= j < |row| && row[j] && order[j] == x;
    }
    assert Marked(order, row) == part;
  }

  /** The branches in some order, which gives each its column. */
  method ListBranches(branches: set<int>) returns (order: seq<int>)
    ensures Distinct(order) && |order| == |branches| && forall x :: x in order <==> x in branches
  {
    order := [];
    var todo := branches;
    while todo != {}
      invariant todo <= branches && Distinct(order) && |order| + |todo| == |branches|
      invariant forall x :: x in order <==> x in branches && x !in todo
    {
      ghost var e := Element(todo);
      var x :| x in todo;
      order := order + [x];
      todo := todo - {x};
    }
  }

  ghost function Row(m: array2<bool>, i: int): (r: seq<bool>)
    requires 0 <= i < m.Length0
    reads m
    ensures |r| == m.Length1 && forall j :: 0 <= j < |r| ==> r[j] == m[i, j]
  {
    seq(m.Length1, j requires 0 <= j < m.Length1 reads m => m[i, j])
  }

  method RowSum(m: array2<bool>, i: int) returns (c: nat)
    requires 0 <= i < m.Length0
    ensures c == CountTrue(Row(m, i))
  {
    c := 0;
    ghost var r := Row(m, i);
    for j := 0 to m.Length1
      invariant c == CountTrue(r[..j])
    {
      assert r[..j + 1][..j] == r[..j];
      if m[i, j] {
        c := c + 1;
      }
    }
    assert r[..|r|] == r;
  }

  /** The first of the rows with the most bits whose set is the largest. */
  method PickRow(m: array2<bool>, us: seq<set<int>>) returns (best: int)
    requires m.Length0 == |us| > 0
    ensures 0 <= best < |us|
    ensures forall j :: 0 <= j < |us| ==>
              || CountTrue(Row(m, j)) < CountTrue(Row(m, best))
              || (CountTrue(Row(m, j)) == CountTrue(Row(m, best))
                 && (|us[j]| < |us[best]| || (|us[j]| == |us[best]| && best <= j)))
  {
    hide CountTrue, Row;
    var sums: seq<nat> := [];
    for i := 0 to |us|
      invariant |sums| == i && forall k :: 0 <= k < i ==> sums[k] == CountTrue(Row(m, k))
    {
      var c := RowSum(m, i);
      sums := sums + [c];
    }
    var maxValue := sums[0];
    for i := 1 to |us|
      invariant (exists k :: 0 <= k < i && sums[k] == maxValue) && forall k :: 0 <= k < i ==> sums[k] <= maxValue
    {
      if sums[i] > maxValue {
        maxValue := sums[i];
      }
    }
    best := -1;
    for i := 0 to |us|
      invariant -1 <= best < i
      invariant best >= 0 ==> sums[best] == maxValue
      invariant forall k :: 0 <= k < i && sums[k] == maxValue ==>
                  best >= 0 && (|us[k]| < |us[best]| || (|us[k]| == |us[best]| && best <= k))
    {
      if sums[i] == maxValue && (best < 0 || |us[i]| > |us[best]|) {
        best := i;
      }
    }
  }

  lemma RestPrefix(us: seq<set<int>>, branches: set<int>, picks: seq<int>, x: int, k: nat)
    requires Indices(us, picks) && 0 <= x < |us| && k <= |picks|
    ensures Indices(us, picks + [x]) && Rest(us, branches, picks + [x], k) == Rest(us, branches, picks, k)
  {
    assert Chosen(us, picks + [x])[..k] == Chosen(us, picks)[..k];
  }

  /** One more greedy pick. */
  lemma GreedySnoc(us: seq<set<int>>, branches: set<int>, picks: seq<int>, x: int)
    requires Indices(us, picks) && Greedy(us, branches, picks) && 0 <= x < |us|
    requires BestPick(us, Rest(us, branches, picks, |picks|), x)
    ensures Indices(us, picks + [x]) && Greedy(us, branches, picks + [x])
    ensures Union(Chosen(us, picks + [x])) == Union(Chosen(us, picks)) + us[x]
  {
    forall k | 0 <= k < |picks + [x]|
      ensures BestPick(us, Rest(us, branches, picks + [x], k), (picks + [x])[k])
    {
      RestPrefix(us, branches, picks, x, k);
      if k < |picks| {
        assert BestPick(us, Rest(us, branches, picks, k), picks[k]);
      }
    }
    assert Chosen(us, picks + [x]) == Chosen(us, picks) + [us[x]];
    UnionSnoc(Chosen(us, picks), us[x]);
  }

  /** Something is left, so some set has part of it. */
  lemma RestFound(us: seq<set<int>>, branches: set<int>, rest: set<int>)
    requires branches == Union(us) && rest != {} && rest <= branches
    ensures us != [] && exists i :: 0 <= i < |us| && us[i] * rest != {}
  {
    var x := Element(rest);
    UnionExact(us);
    var i :| 0 <= i < |us| && x in us[i];
    assert x in us[i] * rest;
  }

  // ----- the generator -----

  type PathCondition = seq<string>

  /** One test case: the lines of its path condition, none if its file is missing, and its branches. */
  datatype Test = Test(pc: PathCondition, bs: set<int>)

  /** The branches of the tests that have a path condition. */
  function CoveredBy(tests: seq<Test>): set<int> {
    if tests == [] then {}
    else
      var t := tests[|tests| - 1];
      CoveredBy(tests[..|tests| - 1]) + (if t.pc == [] then {} else t.bs)
  }

  function CoveredByAll(trials: seq<seq<Test>>): set<int> {
    if trials == [] then {} else CoveredByAll(trials[..|trials| - 1]) + CoveredBy(trials[|trials| - 1])
  }

  function SeenIn(tests: seq<Test>): set<(PathCondition, set<int>)> {
    set k | 0 <= k < |tests| && tests[k].pc != [] :: (tests[k].pc, tests[k].bs)
  }

  function SeenInAll(trials: seq<seq<Test>>): set<(PathCondition, set<int>)> {
    if trials == [] then {} else SeenInAll(trials[..|trials| - 1]) + SeenIn(trials[|trials| - 1])
  }

  function IndexOf<T(==)>(s: seq<T>, x: T): (i: int)
    requires x in s
    ensures 0 <= i < |s| && s[i] == x
  {
    if s[0] == x then 0 else 1 + IndexOf(s[1..], x)
  }

  /** The lists have no duplicates, and the clusters are exactly what was seen, by index. */
  ghost predicate Clustered(clusters: map<int, set<int>>, us: seq<set<int>>, pcs: seq<PathCondition>,
                            seen: set<(PathCondition, set<int>)>) {
    && Distinct(us) && Distinct(pcs)
    && (forall b :: b in clusters <==> 0 <= b < |us|)
    && (forall b, c :: b in clusters && c in clusters[b] ==> 0 <= c < |pcs|)
    && (forall b, c :: 0 <= b < |us| && 0 <= c < |pcs| ==> (c in clusters[b] <==> (pcs[c], us[b]) in seen))
    && forall pc, bs :: (pc, bs) in seen ==> pc in pcs && bs in us
  }

  class FeatureGenerator {
    var bsidxClusters: map<int, set<int>>
    var uniqueBranchset: seq<set<int>>
    var uniquePc: seq<PathCondition>
    var branches: set<int>
    var preCovered: set<int>
    var plotData: seq<int>
    var widxInfo: seq<(int, int)>
    var widxPcidxes: map<int, set<int>>
    /** The path conditions seen together with each branch set. */
    ghost var seen: set<(PathCondition, set<int>)>

    ghost predicate Indexed()
      reads this
    {
      Clustered(bsidxClusters, uniqueBranchset, uniquePc, seen)
    }

    /** The branches are those of the distinct branch sets. */
    ghost predicate Valid()
      reads this
    {
      Indexed() && branches == Union(uniqueBranchset)
    }

    constructor ()
      ensures Valid() && branches == {} && seen == {} && plotData == []
    {
      bsidxClusters, uniqueBranchset, uniquePc, branches, preCovered, plotData := map[], [], [], {}, {}, [];
      widxInfo, widxPcidxes := [], map[];
      seen := {};
    }

    /** A test case that has a path condition. */
    method Record(pc: PathCondition, bs: set<int>, widx: int)
      requires Indexed() && widx in widxPcidxes
      modifies `bsidxClusters, `uniqueBranchset, `uniquePc, `widxPcidxes, `seen
      ensures Indexed() && seen == old(seen) + {(pc, bs)} && Union(uniqueBranchset) == old(Union(uniqueBranchset)) + bs
      ensures pc in uniquePc
      ensures widxPcidxes == old(widxPcidxes)[widx := old(widxPcidxes)[widx] + {IndexOf(uniquePc, pc)}]
      ensures old(uniquePc) <= uniquePc && old(uniqueBranchset) <= uniqueBranchset
    {
      if bs !in uniqueBranchset {
        NewSet(bsidxClusters, uniqueBranchset, uniquePc, seen, bs);
        uniqueBranchset := uniqueBranchset + [bs];
        bsidxClusters := bsidxClusters[|uniqueBranchset| - 1 := {}];
      } else {
        KnownSet(uniqueBranchset, bs);
      }
      hide Union;
      if pc !in uniquePc {
        NewPc(bsidxClusters, uniqueBranchset, uniquePc, seen, pc);
        uniquePc := uniquePc + [pc];
      }
      var bsidx, pcidx := IndexOf(uniqueBranchset, bs), IndexOf(uniquePc, pc);
      NewLink(bsidxClusters, uniqueBranchset, uniquePc, seen, bs, pc);
      hide Clustered, IndexOf;
      widxPcidxes := widxPcidxes[widx := widxPcidxes[widx] + {pcidx}];
      bsidxClusters := bsidxClusters[bsidx := bsidxClusters[bsidx] + {pcidx}];
      seen := seen + {(pc, bs)};
    }

    /** The test cases of one trial. */
    method CollectTrial(tests: seq<Test>, widx: int) returns (trialBranches: set<int>)
      requires Indexed()
      modifies `bsidxClusters, `uniqueBranchset, `uniquePc, `widxPcidxes, `seen
      ensures Indexed() && trialBranches == CoveredBy(tests) && seen == old(seen) + SeenIn(tests)
      ensures Union(uniqueBranchset) == old(Union(uniqueBranchset)) + trialBranches
      ensures widx in widxPcidxes && forall w :: w != widx ==> (w in widxPcidxes <==> w in old(widxPcidxes))
    {
      hide Clustered, Union, IndexOf;
      trialBranches := {};
      widxPcidxes := widxPcidxes[widx := {}];
      assert SeenIn(tests[..0]) == {};
      for i := 0 to |tests|
        invariant Indexed() && trialBranches == CoveredBy(tests[..i]) && seen == old(seen) + SeenIn(tests[..i])
        invariant Union(uniqueBranchset) == old(Union(uniqueBranchset)) + trialBranches
        invariant widx in widxPcidxes && forall w :: w != widx ==> (w in widxPcidxes <==> w in old(widxPcidxes))
      {
        var t := tests[i];
        SeenStep(tests, i);
        assert tests[..i + 1][..i] == tests[..i];
        if t.pc == [] {
          continue;
        }
        Record(t.pc, t.bs, widx);
        trialBranches := trialBranches + t.bs;
      }
      assert tests[..|tests|] == tests;
    }

    /** The loop over the trials. */
    method CollectTrials(iteration: int, trials: seq<seq<Test>>) returns (tmpCovered: set<int>)
      requires Indexed()
      modifies `bsidxClusters, `uniqueBranchset, `uniquePc, `widxPcidxes, `seen, `widxInfo
      ensures Indexed() && tmpCovered == CoveredByAll(trials) && seen == old(seen) + SeenInAll(trials)
      ensures Union(uniqueBranchset) == old(Union(uniqueBranchset)) + tmpCovered
      ensures |widxInfo| == |trials|
      ensures forall w :: 0 <= w < |trials| ==> widxInfo[w] == Info(iteration, CoveredBy(trials[w]), preCovered)
    {
      hide Clustered, Union, CoveredBy, SeenIn, Info, CoveredByAll, SeenInAll;
      widxInfo := [];
      widxPcidxes := map[];
      tmpCovered := {};
      AllNone();
      for widx := 0 to |trials|
        invariant Indexed() && tmpCovered == CoveredByAll(trials[..widx])
                  && seen == old(seen) + SeenInAll(trials[..widx])
        invariant Union(uniqueBranchset) == old(Union(uniqueBranchset)) + tmpCovered
        invariant |widxInfo| == widx
        invariant forall w :: 0 <= w < widx ==> widxInfo[w] == Info(iteration, CoveredBy(trials[w]), preCovered)
      {
        AllStep(trials, widx);
        var trialBranches := CollectTrial(trials[widx], widx);
        widxInfo := widxInfo + [Info(iteration, trialBranches, preCovered)];
        tmpCovered := tmpCovered + trialBranches;
      }
      assert trials[..|trials|] == trials;
    }

    /** One iteration: afterwards the branches are those of all test cases so far that had a path condition,
        which are also those of the distinct branch sets. */
    method CollectFeatmaker(iteration: int, trials: seq<seq<Test>>)
      requires Valid()
      modifies this
      ensures Valid() && preCovered == CoveredByAll(trials)
      ensures branches == (if iteration <= 1 then {} else old(branches)) + CoveredByAll(trials)
      ensures seen == (if iteration <= 1 then {} else old(seen)) + SeenInAll(trials)
      ensures plotData == (if iteration <= 1 then [] else old(plotData)) + [|branches|]
      ensures |widxInfo| == |trials|
      ensures forall w :: 0 <= w < |trials| ==>
                widxInfo[w] == Info(iteration, CoveredBy(trials[w]), if iteration <= 1 then {} else old(preCovered))
    {
      hide Clustered, Union, CoveredBy, SeenIn, CoveredByAll, SeenInAll, Info;
      if iteration <= 1 {
        NothingSeen();
        bsidxClusters, uniqueBranchset, uniquePc, branches, plotData, preCovered := map[], [], [], {}, [], {};
        seen := {};
      }
      var tmpCovered := CollectTrials(iteration, trials);
      branches := branches + tmpCovered;
      preCovered := tmpCovered;
      plotData := plotData + [|branches|];
    }

    /** Greedy cover of the branches by the distinct branch sets. */
    method ClusterSetcover() returns (picks: seq<int>)
      requires Valid()
      ensures Indices(uniqueBranchset, picks) && Distinct(picks) && Union(Chosen(uniqueBranchset, picks)) == branches
      ensures Greedy(uniqueBranchset, branches, picks)
    {
      picks := GreedyCover(uniqueBranchset, branches);
      GreedyDistinct(uniqueBranchset, branches, picks);
    }
  }

  /** What is noted of a trial: how many of its branches the iteration before did not cover, and how many it
      has; nothing in the first iteration. */
  function Info(iteration: int, covered: set<int>, preCovered: set<int>): (int, int) {
    if iteration == 1 then (0, 0) else (|covered - preCovered|, |covered|)
  }

  lemma AllNone()
    ensures CoveredByAll([]) == {} && SeenInAll([]) == {}
  {
  }

  lemma AllStep(trials: seq<seq<Test>>, i: nat)
    requires i < |trials|
    ensures CoveredByAll(trials[..i + 1]) == CoveredByAll(trials[..i]) + CoveredBy(trials[i])
    ensures SeenInAll(trials[..i + 1]) == SeenInAll(trials[..i]) + SeenIn(trials[i])
  {
    assert trials[..i + 1][..i] == trials[..i];
  }

  lemma NothingSeen()
    ensures Clustered(map[], [], [], {}) && Union([]) == {}
  {
  }

  lemma SeenStep(tests: seq<Test>, i: nat)
    requires i < |tests|
    ensures SeenIn(tests[..i + 1]) ==
            SeenIn(tests[..i]) + (if tests[i].pc == [] then {} else {(tests[i].pc, tests[i].bs)})
  {
    var a, b := tests[..i + 1], tests[..i];
    assert forall k :: 0 <= k < i ==> a[k] == b[k];
    forall x | x in SeenIn(a)
      ensures x in SeenIn(b) + (if tests[i].pc == [] then {} else {(tests[i].pc, tests[i].bs)})
    {
      var k :| 0 <= k < |a| && a[k].pc != [] && x == (a[k].pc, a[k].bs);
      if k < i {
        assert b[k].pc != [] && x == (b[k].pc, b[k].bs);
      }
    }
    forall x | x in SeenIn(b)
      ensures x in SeenIn(a)
    {
      var k :| 0 <= k < |b| && b[k].pc != [] && x == (b[k].pc, b[k].bs);
      assert a[k].pc != [] && x == (a[k].pc, a[k].bs);
    }
    assert a[i] == tests[i];
  }

  /** The bits of the matrix: a branch of the set that is not covered yet. */
  ghost predicate Matrix(m: array2<bool>, us: seq<set<int>>, order: seq<int>, rest: set<int>)
    reads m
  {
    && m.Length0 == |us| && m.Length1 == |order|
    && forall i, j :: 0 <= i < |us| && 0 <= j < |order| ==> (m[i, j] <==> order[j] in us[i] && order[j] in rest)
  }

  lemma MatrixCount(m: array2<bool>, us: seq<set<int>>, order: seq<int>, rest: set<int>, i: int)
    requires Matrix(m, us, order, rest) && 0 <= i < |us| && Distinct(order) && forall x :: x in rest ==> x in order
    ensures CountTrue(Row(m, i)) == |us[i] * rest|
  {
    RowCount(order, Row(m, i), us[i] * rest);
  }

  /** The row picked in the matrix is the best pick among the sets. */
  lemma PickBest(m: array2<bool>, us: seq<set<int>>, order: seq<int>, rest: set<int>, best: int)
    requires Matrix(m, us, order, rest) && 0 <= best < |us| && Distinct(order) && forall x :: x in rest ==> x in order
    requires forall j :: 0 <= j < |us| ==>
               || CountTrue(Row(m, j)) < CountTrue(Row(m, best))
               || (CountTrue(Row(m, j)) == CountTrue(Row(m, best))
                  && (|us[j]| < |us[best]| || (|us[j]| == |us[best]| && best <= j)))
    requires exists i :: 0 <= i < |us| && us[i] * rest != {}
    ensures BestPick(us, rest, best)
  {
    hide CountTrue, Row, Matrix, Distinct;
    MatrixCount(m, us, order, rest, best);
    forall j | 0 <= j < |us|
      ensures Worse(us, rest, best, j)
    {
      MatrixCount(m, us, order, rest, j);
    }
    var i :| 0 <= i < |us| && us[i] * rest != {};
    MatrixCount(m, us, order, rest, i);
    assert Worse(us, rest, best, i);
    var x := Element(us[i] * rest);
    SubsetSize({x}, us[i] * rest);
  }

  /** The matrix with a row for each set and a column for each branch. */
  method FillMatrix(us: seq<set<int>>, order: seq<int>, ghost branches: set<int>) returns (m: array2<bool>)
    requires forall x :: x in order <==> x in branches
    ensures fresh(m) && Matrix(m, us, order, branches)
  {
    forall j | 0 <= j < |order|
      ensures order[j] in branches
    {
      var x := order[j];
      assert x in order;
    }
    m := new bool[|us|, |order|];
    for i := 0 to |us|
      invariant forall k, j :: 0 <= k < i && 0 <= j < |order| ==> (m[k, j] <==> order[j] in us[k])
    {
      for j := 0 to |order|
        invariant forall k, l :: 0 <= k < i && 0 <= l < |order| ==> (m[k, l] <==> order[l] in us[k])
        invariant forall l :: 0 <= l < j ==> (m[i, l] <==> order[l] in us[i])
      {
        m[i, j] := order[j] in us[i];
      }
    }
  }

  /** Marks what the row covers, and clears the columns of everything covered. */
  method TakeRow(m: array2<bool>, local: array<bool>, row: int, us: seq<set<int>>, order: seq<int>,
                 ghost rest: set<int>)
    requires Matrix(m, us, order, rest) && 0 <= row < |us| && local.Length == |order|
    requires forall j :: 0 <= j < |order| ==> (local[j] <==> order[j] !in rest)
    modifies m, local
    ensures Matrix(m, us, order, rest - us[row])
    ensures forall j :: 0 <= j < |order| ==> (local[j] <==> order[j] !in rest - us[row])
  {
    for j := 0 to |order|
      invariant Matrix(m, us, order, rest)
      invariant forall k :: 0 <= k < j ==> (local[k] <==> order[k] !in rest - us[row])
      invariant forall k :: j <= k < |order| ==> (local[k] <==> order[k] !in rest)
    {
      local[j] := local[j] || m[row, j];
    }
    for i := 0 to |us|
      invariant forall k, j :: 0 <= k < i && 0 <= j < |order| ==>
                (m[k, j] <==> order[j] in us[k] && order[j] in rest - us[row])
      invariant forall k, j :: i <= k < |us| && 0 <= j < |order| ==>
                (m[k, j] <==> order[j] in us[k] && order[j] in rest)
      invariant forall k :: 0 <= k < |order| ==> (local[k] <==> order[k] !in rest - us[row])
    {
      for j := 0 to |order|
        invariant forall k, l :: 0 <= k < i && 0 <= l < |order| ==>
                  (m[k, l] <==> order[l] in us[k] && order[l] in rest - us[row])
        invariant forall k, l :: i < k < |us| && 0 <= l < |order| ==>
                  (m[k, l] <==> order[l] in us[k] && order[l] in rest)
        invariant forall l :: 0 <= l < j ==> (m[i, l] <==> order[l] in us[i] && order[l] in rest - us[row])
        invariant forall l :: j <= l < |order| ==> (m[i, l] <==> order[l] in us[i] && order[l] in rest)
        invariant forall k :: 0 <= k < |order| ==> (local[k] <==> order[k] !in rest - us[row])
      {
        if local[j] {
          m[i, j] := false;
        }
      }
    }
  }

  method Count(local: array<bool>) returns (c: nat)
    ensures c == CountTrue(local[..])
  {
    c := 0;
    for j := 0 to local.Length
      invariant c == CountTrue(local[..j])
    {
      assert local[..j + 1][..j] == local[..j];
      if local[j] {
        c := c + 1;
      }
    }
    assert local[..local.Length] == local[..];
  }

  /** A greedy run and what it leaves. */
  ghost predicate Picking(us: seq<set<int>>, branches: set<int>, picks: seq<int>, rest: set<int>) {
    && Indices(us, picks) && Greedy(us, branches, picks)
    && Union(Chosen(us, picks)) <= branches && rest == branches - Union(Chosen(us, picks))
  }

  /** The body of the loop: one pick, and what is left after it. */
  method PickOne(m: array2<bool>, local: array<bool>, us: seq<set<int>>, order: seq<int>, picks: seq<int>,
                 ghost branches: set<int>, ghost rest: set<int>)
    returns (picks': seq<int>, ghost rest': set<int>)
    requires branches == Union(us) && rest != {} && Picking(us, branches, picks, rest)
    requires Matrix(m, us, order, rest) && Distinct(order)
    requires forall x :: x in order <==> x in branches
    requires local.Length == |order| && forall j :: 0 <= j < |order| ==> (local[j] <==> order[j] !in rest)
    modifies m, local
    ensures Picking(us, branches, picks', rest') && rest' < rest && Matrix(m, us, order, rest')
    ensures forall j :: 0 <= j < |order| ==> (local[j] <==> order[j] !in rest')
  {
    assert m.Length0 == |us|;
    hide CountTrue, Row, Union, Greedy, Distinct, Matrix;
    RestFound(us, branches, rest);
    var newBsidx := PickRow(m, us);
    PickBest(m, us, order, rest, newBsidx);
    RestAll(us, branches, picks);
    GreedySnoc(us, branches, picks, newBsidx);
    assert us[newBsidx] <= branches by { UnionExact(us); }
    assert us[newBsidx] * rest != {};
    hide BestPick;
    var x := Element(us[newBsidx] * rest);
    picks' := picks + [newBsidx];
    rest' := rest - us[newBsidx];
    TakeRow(m, local, newBsidx, us, order, rest);
  }

  /** Picks until every branch is covered, which needs the branches to be those of the sets. */
  method GreedyCover(us: seq<set<int>>, branches: set<int>) returns (picks: seq<int>)
    requires branches == Union(us)
    ensures Indices(us, picks) && Greedy(us, branches, picks) && Union(Chosen(us, picks)) == branches
  {
    hide CountTrue, Row, Distinct, Matrix, Picking;
    var order := ListBranches(branches);
    var m := FillMatrix(us, order, branches);
    var local := new bool[|order|](j => false);
    picks := [];
    ghost var rest := branches;
    forall j | 0 <= j < |order|
      ensures order[j] in rest
    {
      var x := order[j];
      assert x in order;
    }
    GreedyNone(us, branches);
    hide Union, Greedy;
    var covered := Count(local);
    CoveredCount(order, local[..], branches, rest);
    while covered < |branches|
      invariant Picking(us, branches, picks, rest) && rest <= branches && Matrix(m, us, order, rest)
      invariant forall j :: 0 <= j < |order| ==> (local[j] <==> order[j] !in rest)
      invariant covered + |rest| == |branches|
      decreases rest
    {
      picks, rest := PickOne(m, local, us, order, picks, branches, rest);
      covered := Count(local);
      CoveredCount(order, local[..], branches, rest);
    }
    NothingLeft(us, branches, picks, rest);
  }

  lemma GreedyNone(us: seq<set<int>>, branches: set<int>)
    ensures Picking(us, branches, [], branches)
  {
  }

  lemma NothingLeft(us: seq<set<int>>, branches: set<int>, picks: seq<int>, rest: set<int>)
    requires Picking(us, branches, picks, rest) && |rest| == 0
    ensures Indices(us, picks) && Greedy(us, branches, picks) && Union(Chosen(us, picks)) == branches
  {
    hide Greedy, Union;
  }

  lemma RestAll(us: seq<set<int>>, branches: set<int>, picks: seq<int>)
    requires Indices(us, picks)
    ensures Rest(us, branches, picks, |picks|) == branches - Union(Chosen(us, picks))
  {
    assert Chosen(us, picks)[..|picks|] == Chosen(us, picks);
  }

  lemma CoveredCount(order: seq<int>, local: seq<bool>, branches: set<int>, rest: set<int>)
    requires Distinct(order) && |local| == |order| == |branches| && (forall x :: x in order <==> x in branches)
             && rest <= branches
    requires forall j :: 0 <= j < |order| ==> (local[j] <==> order[j] !in rest)
    ensures CountTrue(local) + |rest| == |branches|
  {
    forall j | 0 <= j < |order|
      ensures local[j] <==> order[j] in branches - rest
    {
      var x := order[j];
      assert x in order;
    }
    RowCount(order, local, branches - rest);
    assert branches == (branches - rest) + rest;
    assert |branches| == |branches - rest| + |rest|;
  }

  lemma KnownSet(us: seq<set<int>>, bs: set<int>)
    requires bs in us
    ensures Union(us) + bs == Union(us)
  {
    UnionExact(us);
  }

  lemma NewSet(clusters: map<int, set<int>>, us: seq<set<int>>, pcs: seq<PathCondition>,
               seen: set<(PathCondition, set<int>)>, bs: set<int>)
    requires Clustered(clusters, us, pcs, seen) && bs !in us
    ensures Clustered(clusters[|us| := {}], us + [bs], pcs, seen) && Union(us + [bs]) == Union(us) + bs
  {
    UnionSnoc(us, bs);
    hide Union;
  }

  lemma NewPc(clusters: map<int, set<int>>, us: seq<set<int>>, pcs: seq<PathCondition>,
              seen: set<(PathCondition, set<int>)>, pc: PathCondition)
    requires Clustered(clusters, us, pcs, seen) && pc !in pcs
    ensures Clustered(clusters, us, pcs + [pc], seen)
  {
  }

  lemma NewLink(clusters: map<int, set<int>>, us: seq<set<int>>, pcs: seq<PathCondition>,
                seen: set<(PathCondition, set<int>)>,
                bs: set<int>, pc: PathCondition)
    requires Clustered(clusters, us, pcs, seen) && bs in us && pc in pcs
    ensures var b, c := IndexOf(us, bs), IndexOf(pcs, pc);
            b in clusters && Clustered(clusters[b := clusters[b] + {c}], us, pcs, seen + {(pc, bs)})
  {
    var b, c := IndexOf(us, bs), IndexOf(pcs, pc);
    var clusters' := clusters[b := clusters[b] + {c}];
    forall b', c' | 0 <= b' < |us| && 0 <= c' < |pcs|
      ensures c' in clusters'[b'] <==> (pcs[c'], us[b']) in seen + {(pc, bs)}
    {
      assert us[b'] == bs ==> b' == b;
      assert pcs[c'] == pc ==> c' == c;
    }
  }
}
