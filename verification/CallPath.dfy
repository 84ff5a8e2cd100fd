/** Call paths folded so that no call repeats on the way to the root, and the statistics summed up over
    them in one pass from the newest path to the oldest. */
module CallPaths {

  /** A call: the instruction and the function it enters. The root has a call of its own. */
  datatype Call = Call(site: int, fn: int) | NoCall

  /** `parent` is -1 for the root. */
  datatype Node = Node(parent: int, call: Call, children: map<Call, int>)

  /** The root comes first, and every node was made after its parent. */
  predicate Rooted(nodes: seq<Node>) {
    && nodes != [] && nodes[0].parent == -1 && nodes[0].call == NoCall
    && forall k :: 0 < k < |nodes| ==> 0 <= nodes[k].parent < k && nodes[k].call != NoCall
  }

  /** `a` is `k` or above it. */
  predicate Above(nodes: seq<Node>, a: int, k: int)
    requires Rooted(nodes) && 0 <= k < |nodes|
    decreases k
  {
    a == k || (k > 0 && Above(nodes, a, nodes[k].parent))
  }

  /** No call is on the way from a node to the root twice. */
  ghost predicate NoRepeat(nodes: seq<Node>)
    requires Rooted(nodes)
  {
    forall a, b, k :: 0 <= a < b < |nodes| && 0 <= k < |nodes| && Above(nodes, a, k) && Above(nodes, b, k) ==>
      nodes[a].call != nodes[b].call
  }

  /** A child is a node made below, or one further up, or the node itself. */
  ghost predicate ChildOk(nodes: seq<Node>, k: int, call: Call)
    requires Rooted(nodes) && 0 <= k < |nodes| && call in nodes[k].children
  {
    var c := nodes[k].children[call];
    0 < c < |nodes| && nodes[c].call == call && (nodes[c].parent == k || Above(nodes, c, k))
  }

  ghost predicate Folded(nodes: seq<Node>) {
    && Rooted(nodes) && NoRepeat(nodes)
    && forall k, call :: 0 <= k < |nodes| && call in nodes[k].children ==> ChildOk(nodes, k, call)
  }

  lemma {:induction false} AboveBelow(nodes: seq<Node>, a: int, k: int)
    requires Rooted(nodes) && 0 <= k < |nodes| && Above(nodes, a, k)
    ensures 0 <= a <= k
    decreases k
  {
    if a != k {
      AboveBelow(nodes, a, nodes[k].parent);
    }
  }

  lemma AboveLow(nodes: seq<Node>, a: int, k: int)
    requires Rooted(nodes) && 0 <= k < |nodes|
    ensures Above(nodes, a, k) ==> 0 <= a <= k
  {
    if Above(nodes, a, k) {
      AboveBelow(nodes, a, k);
    }
  }

  lemma {:induction false} AboveChain(nodes: seq<Node>, a: int, b: int, k: int)
    requires Rooted(nodes) && 0 <= b < |nodes| && 0 <= k < |nodes| && Above(nodes, a, b) && Above(nodes, b, k)
    ensures Above(nodes, a, k)
    decreases k
  {
    if b != k {
      AboveChain(nodes, a, b, nodes[k].parent);
    }
  }

  /** The nodes above stay the same when nodes are added at the end or children are noted. */
  lemma {:induction false} AboveSame(nodes: seq<Node>, more: seq<Node>, a: int, k: int)
    requires Rooted(nodes) && Rooted(more) && 0 <= k < |nodes| <= |more|
    requires forall j :: 0 <= j < |nodes| ==> more[j].parent == nodes[j].parent
    ensures Above(nodes, a, k) <==> Above(more, a, k)
    decreases k
  {
    if k > 0 {
      AboveSame(nodes, more, a, nodes[k].parent);
    }
  }

  /** A new path below a node that has no such call above it keeps every path free of repeats. */
  lemma AddKeeps(nodes: seq<Node>, parent: int, call: Call)
    requires Folded(nodes) && 0 <= parent < |nodes| && call != NoCall
    requires forall a :: Above(nodes, a, parent) && 0 <= a < |nodes| ==> nodes[a].call != call
    ensures Folded(nodes + [Node(parent, call, map[])])
  {
    var n := |nodes|;
    var more := nodes + [Node(parent, call, map[])];
    assert Rooted(more);
    forall a, b, k | 0 <= a < b < |more| && 0 <= k < |more| && Above(more, a, k) && Above(more, b, k)
      ensures more[a].call != more[b].call
    {
      AboveBelow(more, b, k);
      if k < n {
        AboveSame(nodes, more, a, k);
        AboveSame(nodes, more, b, k);
      } else {
        AboveBelow(more, a, parent);
        AboveSame(nodes, more, a, parent);
        if b < n {
          AboveSame(nodes, more, b, parent);
        }
      }
    }
    forall k, c | 0 <= k < |more| && c in more[k].children
      ensures ChildOk(more, k, c)
    {
      assert k < n && ChildOk(nodes, k, c);
      AboveSame(nodes, more, nodes[k].children[c], k);
    }
  }

  lemma NoteKeeps(nodes: seq<Node>, k: int, call: Call, c: int)
    requires Folded(nodes) && 0 <= k < |nodes| && 0 < c < |nodes| && nodes[c].call == call
    requires nodes[c].parent == k || Above(nodes, c, k)
    ensures Folded(nodes[k := nodes[k].(children := nodes[k].children[call := c])])
  {
    var more := nodes[k := nodes[k].(children := nodes[k].children[call := c])];
    assert Rooted(more);
    forall a, b, j | 0 <= a < b < |more| && 0 <= j < |more| && Above(more, a, j) && Above(more, b, j)
      ensures more[a].call != more[b].call
    {
      AboveSame(nodes, more, a, j);
      AboveSame(nodes, more, b, j);
    }
    forall j, x | 0 <= j < |more| && x in more[j].children
      ensures ChildOk(more, j, x)
    {
      AboveSame(nodes, more, more[j].children[x], j);
      if j != k || x != call {
        assert ChildOk(nodes, j, x);
      }
    }
  }

  // ----- sums -----

  /** The sum of the statistics of the nodes below `n` for which the flag is set. */
  function SumIf(stats: seq<int>, flags: seq<bool>, n: nat): int
    requires n <= |stats| && n <= |flags|
  {
    if n == 0 then 0 else SumIf(stats, flags, n - 1) + (if flags[n - 1] then stats[n - 1] else 0)
  }

  lemma {:induction false} SumSplit(stats: seq<int>, f: seq<bool>, g: seq<bool>, h: seq<bool>, n: nat)
    requires n <= |stats| && n <= |f| && n <= |g| && n <= |h|
    requires forall m :: 0 <= m < n ==> (f[m] <==> g[m] || h[m]) && !(g[m] && h[m])
    ensures SumIf(stats, f, n) == SumIf(stats, g, n) + SumIf(stats, h, n)
  {
    if n > 0 {
      SumSplit(stats, f, g, h, n - 1);
    }
  }

  lemma {:induction false} SumSame(stats: seq<int>, f: seq<bool>, g: seq<bool>, n: nat)
    requires n <= |stats| && n <= |f| && n <= |g| && forall m :: 0 <= m < n ==> f[m] == g[m]
    ensures SumIf(stats, f, n) == SumIf(stats, g, n)
  {
    if n > 0 {
      SumSame(stats, f, g, n - 1);
    }
  }

  lemma {:induction false} SumNone(stats: seq<int>, f: seq<bool>, n: nat)
    requires n <= |stats| && n <= |f| && forall m :: 0 <= m < n ==> !f[m]
    ensures SumIf(stats, f, n) == 0
  {
    if n > 0 {
      SumNone(stats, f, n - 1);
    }
  }

  lemma {:induction false} SumOne(stats: seq<int>, f: seq<bool>, n: nat, k: int)
    requires n <= |stats| && n <= |f| && 0 <= k < n && forall m :: 0 <= m < n ==> (f[m] <==> m == k)
    ensures SumIf(stats, f, n) == stats[k]
  {
    if k == n - 1 {
      SumNone(stats, f, n - 1);
    } else {
      SumOne(stats, f, n - 1, k);
    }
  }

  // ----- the subtree of a node -----

  function Below(nodes: seq<Node>, k: int): (f: seq<bool>)
    requires Rooted(nodes)
    ensures |f| == |nodes| && forall m :: 0 <= m < |f| ==> (f[m] <==> Above(nodes, k, m))
  {
    seq(|nodes|, m requires 0 <= m < |nodes| => Above(nodes, k, m))
  }

  /** The sum over the node and everything that has it above by the parent pointers. */
  function Subtree(nodes: seq<Node>, stats: seq<int>, k: int): int
    requires Rooted(nodes) && |stats| == |nodes|
  {
    SumIf(stats, Below(nodes, k), |nodes|)
  }

  /** `m` is `k`, or below it by nodes from `i` on only. */
  predicate Reaches(nodes: seq<Node>, i: int, k: int, m: int)
    requires Rooted(nodes) && 0 <= m < |nodes|
    decreases m
  {
    m == k || (m > 0 && m >= i && Reaches(nodes, i, k, nodes[m].parent))
  }

  function Reached(nodes: seq<Node>, i: int, k: int): (f: seq<bool>)
    requires Rooted(nodes)
    ensures |f| == |nodes| && forall m :: 0 <= m < |f| ==> (f[m] <==> Reaches(nodes, i, k, m))
  {
    seq(|nodes|, m requires 0 <= m < |nodes| => Reaches(nodes, i, k, m))
  }

  /** What a node's summary holds when the nodes from `i` on have been added to their parents. */
  function Partial(nodes: seq<Node>, stats: seq<int>, i: int, k: int): int
    requires Rooted(nodes) && |stats| == |nodes|
  {
    SumIf(stats, Reached(nodes, i, k), |nodes|)
  }

  lemma {:induction false} ReachesStep(nodes: seq<Node>, i: int, k: int, m: int)
    requires Rooted(nodes) && 0 < i < |nodes| && 0 <= m < |nodes| && 0 <= k < |nodes|
    ensures nodes[i].parent == k ==>
              (Reaches(nodes, i, k, m) <==> Reaches(nodes, i + 1, k, m) || Reaches(nodes, i + 1, i, m))
    ensures nodes[i].parent == k ==> !(Reaches(nodes, i + 1, k, m) && Reaches(nodes, i + 1, i, m))
    ensures nodes[i].parent != k ==> (Reaches(nodes, i, k, m) <==> Reaches(nodes, i + 1, k, m))
    decreases m
  {
    if m > 0 {
      ReachesStep(nodes, i, k, nodes[m].parent);
    }
    ReachesHigh(nodes, i + 1, k, m);
    ReachesHigh(nodes, i + 1, i, m);
    if m == i {
      ReachesHigh(nodes, i, k, nodes[i].parent);
    }
  }

  /** Below the threshold only the node itself is reached. */
  lemma ReachesHigh(nodes: seq<Node>, i: int, k: int, m: int)
    requires Rooted(nodes) && 0 <= m < |nodes|
    ensures m < i ==> (Reaches(nodes, i, k, m) <==> m == k)
  {
  }

  lemma PartialStep(nodes: seq<Node>, stats: seq<int>, i: int, k: int)
    requires Rooted(nodes) && |stats| == |nodes| && 0 < i < |nodes| && 0 <= k < |nodes|
    ensures Partial(nodes, stats, i, k) ==
            Partial(nodes, stats, i + 1, k) + if nodes[i].parent == k then Partial(nodes, stats, i + 1, i) else 0
  {
    forall m | 0 <= m < |nodes|
      ensures nodes[i].parent == k ==>
                (Reaches(nodes, i, k, m) <==> Reaches(nodes, i + 1, k, m) || Reaches(nodes, i + 1, i, m))
      ensures nodes[i].parent == k ==> !(Reaches(nodes, i + 1, k, m) && Reaches(nodes, i + 1, i, m))
      ensures nodes[i].parent != k ==> (Reaches(nodes, i, k, m) <==> Reaches(nodes, i + 1, k, m))
    {
      ReachesStep(nodes, i, k, m);
    }
    if nodes[i].parent == k {
      SumSplit(stats, Reached(nodes, i, k), Reached(nodes, i + 1, k), Reached(nodes, i + 1, i), |nodes|);
    } else {
      SumSame(stats, Reached(nodes, i, k), Reached(nodes, i + 1, k), |nodes|);
    }
  }

  lemma PartialStart(nodes: seq<Node>, stats: seq<int>, k: int)
    requires Rooted(nodes) && |stats| == |nodes| && 0 <= k < |nodes|
    ensures Partial(nodes, stats, |nodes|, k) == stats[k]
  {
    SumOne(stats, Reached(nodes, |nodes|, k), |nodes|, k);
  }

  lemma {:induction false} ReachesAll(nodes: seq<Node>, i: int, k: int, m: int)
    requires Rooted(nodes) && 0 <= m < |nodes| && i <= k + 1
    ensures Reaches(nodes, i, k, m) <==> Above(nodes, k, m)
    decreases m
  {
    if m > 0 {
      ReachesAll(nodes, i, k, nodes[m].parent);
      AboveLow(nodes, k, nodes[m].parent);
    }
  }

  /** Once all later nodes are added a node's summary is the sum over its subtree. */
  lemma PartialDone(nodes: seq<Node>, stats: seq<int>, i: int, k: int)
    requires Rooted(nodes) && |stats| == |nodes| && i <= k + 1
    ensures Partial(nodes, stats, i, k) == Subtree(nodes, stats, k)
  {
    forall m | 0 <= m < |nodes|
      ensures Reaches(nodes, i, k, m) <==> Above(nodes, k, m)
    {
      ReachesAll(nodes, i, k, m);
    }
    SumSame(stats, Reached(nodes, i, k), Below(nodes, k), |nodes|);
  }

  // ----- the table by call -----

  /** The call is on the way from `m` to the root, at a node from `i` on. */
  predicate UnderFrom(nodes: seq<Node>, i: int, call: Call, m: int)
    requires Rooted(nodes) && 0 <= m < |nodes|
    decreases m
  {
    (m >= i && m > 0 && nodes[m].call == call) || (m > 0 && UnderFrom(nodes, i, call, nodes[m].parent))
  }

  function Under(nodes: seq<Node>, i: int, call: Call): (f: seq<bool>)
    requires Rooted(nodes)
    ensures |f| == |nodes| && forall m :: 0 <= m < |f| ==> (f[m] <==> UnderFrom(nodes, i, call, m))
  {
    seq(|nodes|, m requires 0 <= m < |nodes| => UnderFrom(nodes, i, call, m))
  }

  /** The statistics of every path that passes the call, each counted once. */
  function ByCall(nodes: seq<Node>, stats: seq<int>, i: int, call: Call): int
    requires Rooted(nodes) && |stats| == |nodes|
  {
    SumIf(stats, Under(nodes, i, call), |nodes|)
  }

  lemma {:induction false} UnderExact(nodes: seq<Node>, i: int, call: Call, m: int)
    requires Rooted(nodes) && 0 <= m < |nodes|
    ensures UnderFrom(nodes, i, call, m) <==>
            exists a :: 0 < a < |nodes| && a >= i && nodes[a].call == call && Above(nodes, a, m)
    decreases m
  {
    if m > 0 {
      UnderExact(nodes, i, call, nodes[m].parent);
      if a :| 0 < a < |nodes| && a >= i && nodes[a].call == call && Above(nodes, a, nodes[m].parent) {
        assert Above(nodes, a, m);
      }
      if a :| 0 < a < |nodes| && a >= i && nodes[a].call == call && Above(nodes, a, m) {
        assert a == m || Above(nodes, a, nodes[m].parent);
      }
      assert Above(nodes, m, m);
    }
  }

  lemma UnderStep(nodes: seq<Node>, i: int, call: Call, m: int)
    requires Rooted(nodes) && NoRepeat(nodes) && 0 < i < |nodes| && 0 <= m < |nodes|
    ensures UnderFrom(nodes, i, call, m) <==>
            UnderFrom(nodes, i + 1, call, m) || (nodes[i].call == call && Above(nodes, i, m))
    ensures !(UnderFrom(nodes, i + 1, call, m) && nodes[i].call == call && Above(nodes, i, m))
  {
    UnderExact(nodes, i, call, m);
    UnderExact(nodes, i + 1, call, m);
  }

  /** No call repeats on a path, so the node's subtree adds nothing that was counted before. */
  lemma ByCallStep(nodes: seq<Node>, stats: seq<int>, i: int, call: Call)
    requires Rooted(nodes) && NoRepeat(nodes) && |stats| == |nodes| && 0 < i < |nodes|
    ensures ByCall(nodes, stats, i, call) ==
            ByCall(nodes, stats, i + 1, call) + if nodes[i].call == call then Subtree(nodes, stats, i) else 0
  {
    hide NoRepeat;
    forall m | 0 <= m < |nodes|
      ensures UnderFrom(nodes, i, call, m) <==>
              UnderFrom(nodes, i + 1, call, m) || (nodes[i].call == call && Above(nodes, i, m))
      ensures !(UnderFrom(nodes, i + 1, call, m) && nodes[i].call == call && Above(nodes, i, m))
    {
      UnderStep(nodes, i, call, m);
    }
    if nodes[i].call == call {
      SumSplit(stats, Under(nodes, i, call), Under(nodes, i + 1, call), Below(nodes, i), |nodes|);
    } else {
      SumSame(stats, Under(nodes, i, call), Under(nodes, i + 1, call), |nodes|);
    }
  }

  lemma ByCallStart(nodes: seq<Node>, stats: seq<int>, call: Call)
    requires Rooted(nodes) && |stats| == |nodes|
    ensures ByCall(nodes, stats, |nodes|, call) == 0
  {
    forall m | 0 <= m < |nodes|
      ensures !UnderFrom(nodes, |nodes|, call, m)
    {
      UnderExact(nodes, |nodes|, call, m);
    }
    SumNone(stats, Under(nodes, |nodes|, call), |nodes|);
  }

  /** The nodes from `i` on that are paths of the call. */
  function OfCall(nodes: seq<Node>, i: int, call: Call): (f: seq<bool>)
    ensures |f| == |nodes| && forall m :: 0 <= m < |f| ==> (f[m] <==> m > 0 && m >= i && nodes[m].call == call)
  {
    seq(|nodes|, m requires 0 <= m < |nodes| => m > 0 && m >= i && nodes[m].call == call)
  }

  /** How often the call was made, on whatever path. */
  function CallCount(nodes: seq<Node>, counts: seq<int>, i: int, call: Call): int
    requires |counts| == |nodes|
  {
    SumIf(counts, OfCall(nodes, i, call), |nodes|)
  }

  lemma CallCountStep(nodes: seq<Node>, counts: seq<int>, i: int, call: Call)
    requires |counts| == |nodes| && 0 < i < |nodes|
    ensures CallCount(nodes, counts, i, call) ==
            CallCount(nodes, counts, i + 1, call) + if nodes[i].call == call then counts[i] else 0
  {
    var only := seq(|nodes|, m requires 0 <= m < |nodes| => m == i && nodes[i].call == call);
    SumSplit(counts, OfCall(nodes, i, call), OfCall(nodes, i + 1, call), only, |nodes|);
    if nodes[i].call == call {
      SumOne(counts, only, |nodes|, i);
    } else {
      SumNone(counts, only, |nodes|);
    }
  }

  lemma CallCountStart(nodes: seq<Node>, counts: seq<int>, call: Call)
    requires |counts| == |nodes|
    ensures CallCount(nodes, counts, |nodes|, call) == 0
  {
    SumNone(counts, OfCall(nodes, |nodes|, call), |nodes|);
  }

  // ----- the manager -----

  datatype CallSiteInfo = CallSiteInfo(count: int, statistics: int)

  class CallPathManager {
    /** The root, then the paths in the order of their creation. */
    var nodes: seq<Node>
    var statistics: seq<int>
    var summaryStatistics: seq<int>
    var counts: seq<int>

    ghost predicate Valid()
      reads this
    {
      Folded(nodes) && |statistics| == |summaryStatistics| == |counts| == |nodes|
    }

    constructor ()
      ensures Valid() && |nodes| == 1 && summaryStatistics == [0]
    {
      nodes := [Node(-1, NoCall, map[])];
      statistics, summaryStatistics, counts := [0], [0], [0];
    }

    /** The node above, or the parent itself, that already has the call; else a new path. */
    method ComputeCallPath(parent: int, call: Call) returns (r: int)
      requires Valid() && 0 <= parent < |nodes| && call != NoCall
      modifies this
      ensures Valid() && 0 < r < |nodes| && nodes[r].call == call
      ensures if r < |old(nodes)| then nodes == old(nodes) && Above(nodes, r, parent)
              else r == |old(nodes)| && nodes == old(nodes) + [Node(parent, call, map[])]
      ensures statistics == old(statistics) + (if r < |old(nodes)| then [] else [0])
      ensures counts == old(counts) + (if r < |old(nodes)| then [] else [0])
      ensures summaryStatistics == old(summaryStatistics) + (if r < |old(nodes)| then [] else [0])
    {
      hide NoRepeat, ChildOk;
      r := parent;
      while r != -1
        invariant Valid() && nodes == old(nodes) && statistics == old(statistics) && counts == old(counts)
        invariant summaryStatistics == old(summaryStatistics)
        invariant -1 <= r < |nodes| && (r >= 0 ==> Above(nodes, r, parent))
        invariant forall a :: 0 <= a < |nodes| && Above(nodes, a, parent) ==>
                  (r >= 0 && Above(nodes, a, r)) || nodes[a].call != call
        decreases r
      {
        if nodes[r].call == call {
          return;
        }
        if r > 0 {
          AboveChain(nodes, nodes[r].parent, r, parent);
        }
        r := nodes[r].parent;
      }
      AddKeeps(nodes, parent, call);
      r := |nodes|;
      nodes := nodes + [Node(parent, call, map[])];
      statistics, summaryStatistics, counts := statistics + [0], summaryStatistics + [0], counts + [0];
    }

    /** The path of a call made from a path: remembered, folded into one above, or new. */
    method GetCallPath(parent: int, call: Call) returns (r: int)
      requires Valid() && 0 <= parent < |nodes| && call != NoCall
      modifies this
      ensures Valid() && 0 < r < |nodes| && nodes[r].call == call
      ensures |old(nodes)| <= |nodes| <= |old(nodes)| + 1
      ensures nodes[r].parent == parent || Above(nodes, r, parent)
      ensures forall k :: 0 <= k < |old(nodes)| ==>
              nodes[k].parent == old(nodes)[k].parent && nodes[k].call == old(nodes)[k].call
      ensures old(statistics) <= statistics && old(counts) <= counts && old(summaryStatistics) <= summaryStatistics
    {
      hide NoRepeat;
      if call in nodes[parent].children {
        r := nodes[parent].children[call];
        assert ChildOk(nodes, parent, call);
      } else {
        r := ComputeCallPath(parent, call);
        hide ChildOk;
        NoteKeeps(nodes, parent, call, r);
        ghost var before := nodes;
        nodes := nodes[parent := nodes[parent].(children := nodes[parent].children[call := r])];
        AboveSame(before, nodes, r, parent);
      }
    }

    /** One pass from the newest path to the oldest leaves every path with the sum over its subtree, and the
        table with what was spent under each call, no path counted twice. The root is not reset first, so it
        keeps what earlier passes left. */
    method GetSummaryStatistics() returns (results: map<Call, CallSiteInfo>)
      requires Valid()
      modifies `summaryStatistics
      ensures Valid()
      ensures forall k :: 0 < k < |nodes| ==> summaryStatistics[k] == Subtree(nodes, statistics, k)
      ensures summaryStatistics[0] == old(summaryStatistics)[0] + Subtree(nodes, statistics, 0) - statistics[0]
      ensures forall call :: call in results <==> exists k :: 0 < k < |nodes| && nodes[k].call == call
      ensures forall call :: call in results ==>
                && results[call].statistics == ByCall(nodes, statistics, 1, call)
                && results[call].count == CallCount(nodes, counts, 1, call)
    {
      hide NoRepeat, ChildOk, Subtree, Partial, ByCall, CallCount;
      results := map[];
      var n := |nodes|;
      var start := summaryStatistics[0] - statistics[0];
      summaryStatistics := [summaryStatistics[0]] + statistics[1..];
      forall k | 0 <= k < n
        ensures Partial(nodes, statistics, n, k) == statistics[k]
      {
        PartialStart(nodes, statistics, k);
      }
      forall call
        ensures ByCall(nodes, statistics, n, call) == 0 == CallCount(nodes, counts, n, call)
      {
        ByCallStart(nodes, statistics, call);
        CallCountStart(nodes, counts, call);
      }
      var i := n;
      while i > 1
        invariant 1 <= i <= n == |nodes| == |summaryStatistics|
        invariant summaryStatistics[0] == start + Partial(nodes, statistics, i, 0)
        invariant forall k :: 0 < k < n ==> summaryStatistics[k] == Partial(nodes, statistics, i, k)
        invariant forall call :: call in results <==> exists k :: i <= k < n && nodes[k].call == call
        invariant forall call ::
          (if call in results then results[call].statistics else 0) == ByCall(nodes, statistics, i, call)
        invariant forall call ::
          (if call in results then results[call].count else 0) == CallCount(nodes, counts, i, call)
      {
        i := i - 1;
        var cp := nodes[i];
        forall k | 0 <= k < n
          ensures Partial(nodes, statistics, i, k) ==
                  Partial(nodes, statistics, i + 1, k)
                  + if cp.parent == k then Partial(nodes, statistics, i + 1, i) else 0
        {
          PartialStep(nodes, statistics, i, k);
        }
        PartialDone(nodes, statistics, i + 1, i);
        forall call
          ensures ByCall(nodes, statistics, i, call) ==
                  ByCall(nodes, statistics, i + 1, call) + if cp.call == call then Subtree(nodes, statistics, i) else 0
          ensures CallCount(nodes, counts, i, call) ==
                  CallCount(nodes, counts, i + 1, call) + if cp.call == call then counts[i] else 0
        {
          ByCallStep(nodes, statistics, i, call);
          CallCountStep(nodes, counts, i, call);
        }
        summaryStatistics := summaryStatistics[cp.parent := summaryStatistics[cp.parent] + summaryStatistics[i]];
        var csi := if cp.call in results then results[cp.call] else CallSiteInfo(0, 0);
        results := results[cp.call := CallSiteInfo(csi.count + counts[i], csi.statistics + summaryStatistics[i])];
      }
      forall k | 0 <= k < n
        ensures Partial(nodes, statistics, 1, k) == Subtree(nodes, statistics, k)
      {
        PartialDone(nodes, statistics, 1, k);
      }
    }
  }

  /** One call on which `v` is spent, and two passes: the root says `v` first and twice as much then. */
  method RootGrows(call: Call, v: int) returns (m: CallPathManager, once: int)
    requires call != NoCall
    ensures fresh(m) && m.Valid() && |m.nodes| == 2 && Subtree(m.nodes, m.statistics, 0) == v
    ensures once == v && m.summaryStatistics == [2 * v, v]
  {
    hide NoRepeat, ChildOk, Subtree, ByCall, CallCount;
    m := new CallPathManager();
    var r := m.GetCallPath(0, call);
    m.statistics := [0, v];
    OneCall(m.nodes, m.statistics, v);
    var results := m.GetSummaryStatistics();
    once := m.summaryStatistics[0];
    results := m.GetSummaryStatistics();
  }

  lemma OneCall(nodes: seq<Node>, stats: seq<int>, v: int)
    requires Rooted(nodes) && |nodes| == 2 && stats == [0, v]
    ensures Subtree(nodes, stats, 0) == Subtree(nodes, stats, 1) == v
  {
    assert Above(nodes, 0, 0) && Above(nodes, 0, 1) && Above(nodes, 1, 1) && !Above(nodes, 1, 0);
    assert SumIf(stats, Below(nodes, 0), 2) == SumIf(stats, Below(nodes, 0), 0) + stats[0] + stats[1];
    assert SumIf(stats, Below(nodes, 1), 2) == SumIf(stats, Below(nodes, 1), 0) + stats[1];
  }
}
