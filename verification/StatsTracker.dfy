/** The distances that guide the search: how far it is from an instruction to the return of its function,
    and to the nearest instruction not covered yet. Both are found by sweeping over all instructions
    until nothing changes; zero stands for unreachable. */
module Distances {

  datatype Kind = Return | Call | Other

  /** `targets` are the functions a call may reach, `fn` is the function the instruction is in. */
  datatype Instr = Instr(kind: Kind, succs: seq<int>, targets: seq<int>, fn: int)

  datatype Function = Function(isDeclaration: bool, doesNotReturn: bool, entry: int)

  datatype Program = Program(instrs: seq<Instr>, fns: seq<Function>)

  predicate WFInstr(p: Program, i: Instr) {
    && (forall k :: 0 <= k < |i.succs| ==> 0 <= i.succs[k] < |p.instrs|)
    && (forall k :: 0 <= k < |i.targets| ==> 0 <= i.targets[k] < |p.fns|)
    && 0 <= i.fn < |p.fns| && !p.fns[i.fn].isDeclaration
  }

  predicate WFProgram(p: Program) {
    && (forall i :: 0 <= i < |p.instrs| ==> WFInstr(p, p.instrs[i]))
    && forall f :: 0 <= f < |p.fns| && !p.fns[f].isDeclaration ==>
         0 <= p.fns[f].entry < |p.instrs| && p.instrs[p.fns[f].entry].fn == f
  }

  // ----- the relaxation of one slot -----

  /** The smaller distance, where zero is no distance. */
  function Better(best: int, val: int): int { if best == 0 || val < best then val else best }

  /** The best of `acc` and the nonzero values, each with `base` added. */
  function Relaxed(vals: seq<int>, base: int, acc: int): int {
    if vals == [] then acc
    else
      var r, v := Relaxed(vals[..|vals| - 1], base, acc), vals[|vals| - 1];
      if v != 0 then Better(r, base + v) else r
  }

  predicate NonNegative(s: seq<int>) { forall k :: 0 <= k < |s| ==> s[k] >= 0 }

  lemma {:induction false} RelaxedExact(vals: seq<int>, base: int, acc: int)
    requires NonNegative(vals) && base > 0 && acc >= 0
    ensures Relaxed(vals, base, acc) >= 0
    ensures acc != 0 ==> 0 < Relaxed(vals, base, acc) <= acc
    ensures forall k :: 0 <= k < |vals| && vals[k] != 0 ==> 0 < Relaxed(vals, base, acc) <= base + vals[k]
    ensures Relaxed(vals, base, acc) == acc ||
            exists k :: 0 <= k < |vals| && vals[k] != 0 && Relaxed(vals, base, acc) == base + vals[k]
  {
    if vals != [] {
      var n := |vals| - 1;
      RelaxedExact(vals[..n], base, acc);
      var r, v := Relaxed(vals[..n], base, acc), vals[n];
      if v != 0 && Better(r, base + v) == base + v {
        assert vals[n] != 0 && Relaxed(vals, base, acc) == base + vals[n];
      } else if r != acc {
        var k :| 0 <= k < n && vals[..n][k] != 0 && r == base + vals[..n][k];
        assert vals[k] != 0 && r == base + vals[k];
      }
      forall k | 0 <= k < |vals| && vals[k] != 0
        ensures 0 < Relaxed(vals, base, acc) <= base + vals[k]
      {
        assert k < n ==> vals[..n][k] == vals[k];
      }
    }
  }

  predicate InRange(idx: seq<int>, n: int) { forall k :: 0 <= k < |idx| ==> 0 <= idx[k] < n }

  function At(slots: seq<int>, idx: seq<int>): (vals: seq<int>)
    requires InRange(idx, |slots|)
    ensures |vals| == |idx| && forall k :: 0 <= k < |idx| ==> vals[k] == slots[idx[k]]
  {
    seq(|idx|, k requires 0 <= k < |idx| => slots[idx[k]])
  }

  /** The cost of passing the instruction: one, and for a call the cheapest function it can return from;
      zero if it never returns. */
  function Through(p: Program, paths: seq<int>, i: int): int
    requires WFProgram(p) && 0 <= i < |p.instrs| && |paths| == |p.fns|
  {
    assert WFInstr(p, p.instrs[i]);
    if p.instrs[i].kind == Call then Relaxed(At(paths, p.instrs[i].targets), 1, 0) else 1
  }

  /** The distance of an instruction from those of its successors and its own so far. */
  function Via(p: Program, slots: seq<int>, through: int, i: int): int
    requires WFProgram(p) && 0 <= i < |p.instrs| <= |slots|
  {
    ViaFrom(p, slots, through, i, slots[i])
  }

  function ViaFrom(p: Program, slots: seq<int>, through: int, i: int, acc: int): int
    requires WFProgram(p) && 0 <= i < |p.instrs| <= |slots|
  {
    assert WFInstr(p, p.instrs[i]);
    Relaxed(At(slots, p.instrs[i].succs), through, acc)
  }

  // ----- progress -----

  function Zeros(s: seq<int>): nat { if s == [] then 0 else (if s[0] == 0 then 1 else 0) + Zeros(s[1..]) }

  function Sum(s: seq<int>): int { if s == [] then 0 else s[0] + Sum(s[1..]) }

  lemma {:induction false} UpdateCounts(s: seq<int>, k: nat, v: int)
    requires k < |s|
    ensures Zeros(s[k := v]) == Zeros(s) - (if s[k] == 0 then 1 else 0) + (if v == 0 then 1 else 0)
    ensures Sum(s[k := v]) == Sum(s) - s[k] + v
  {
    if k == 0 {
      assert s[k := v][1..] == s[1..];
    } else {
      assert s[k := v][1..] == s[1..][k - 1 := v];
      UpdateCounts(s[1..], k - 1, v);
    }
  }

  lemma {:induction false} SumNonNegative(s: seq<int>)
    requires NonNegative(s)
    ensures Sum(s) >= 0
  {
    if s != [] {
      SumNonNegative(s[1..]);
    }
  }

  // ----- what the distance to return means -----

  /** A way from an instruction to a return, through functions that return. */
  datatype Path = Ret(at: int) | Step(at: int, next: Path) | Over(at: int, callee: Callee, next: Path)
  datatype Callee = External(f: int) | Body(f: int, path: Path)

  predicate IsPath(p: Program, q: Path) {
    && 0 <= q.at < |p.instrs|
    && match q
       case Ret(i) => p.instrs[i].kind == Return
       case Step(i, next) => p.instrs[i].kind != Call && IsPath(p, next) && next.at in p.instrs[i].succs
       case Over(i, c, next) =>
         && p.instrs[i].kind == Call && IsCallee(p, c) && c.f in p.instrs[i].targets
         && IsPath(p, next) && next.at in p.instrs[i].succs
  }

  predicate IsCallee(p: Program, c: Callee) {
    && 0 <= c.f < |p.fns|
    && match c
       case External(f) => p.fns[f].isDeclaration && !p.fns[f].doesNotReturn
       case Body(f, q) => !p.fns[f].isDeclaration && IsPath(p, q) && q.at == p.fns[f].entry
  }

  function Weight(q: Path): (w: int)
    ensures w > 0
  {
    match q
    case Ret(_) => 1
    case Step(_, next) => 1 + Weight(next)
    case Over(_, c, next) => 1 + CalleeWeight(c) + Weight(next)
  }

  function CalleeWeight(c: Callee): (w: int)
    ensures w > 0
  {
    match c
    case External(_) => 1
    case Body(_, q) => Weight(q)
  }

  /** There is a path of this weight. */
  ghost predicate HasPath(p: Program, i: int, w: int) { exists q :: IsPath(p, q) && q.at == i && Weight(q) == w }

  ghost predicate HasCallee(p: Program, f: int, w: int) {
    exists c :: IsCallee(p, c) && c.f == f && CalleeWeight(c) == w
  }

  /** The slot is zero if there is no path from the instruction, and else the least weight of one. */
  ghost predicate Shortest(p: Program, slots: seq<int>, i: int)
    requires 0 <= i < |slots|
  {
    && (slots[i] != 0 ==> HasPath(p, i, slots[i]))
    && forall w :: HasPath(p, i, w) ==> 0 < slots[i] <= w
  }

  ghost predicate ShortestCall(p: Program, paths: seq<int>, f: int)
    requires 0 <= f < |paths|
  {
    && (paths[f] != 0 ==> HasCallee(p, f, paths[f]))
    && forall w :: HasCallee(p, f, w) ==> 0 < paths[f] <= w
  }

  /** The invariant of the sweeps: every distance so far is that of some path. */
  ghost predicate Witnessed(p: Program, dist: seq<int>, paths: seq<int>)
    requires WFProgram(p)
  {
    && |dist| == |p.instrs| && |paths| == |p.fns| && NonNegative(dist) && NonNegative(paths)
    && (forall i :: 0 <= i < |dist| ==> WitnessedAt(p, dist, paths, i))
    && forall f :: 0 <= f < |paths| ==> WitnessedCall(p, dist, paths, f)
  }

  ghost predicate WitnessedAt(p: Program, dist: seq<int>, paths: seq<int>, i: int)
    requires WFProgram(p) && 0 <= i < |dist| == |p.instrs| && |paths| == |p.fns|
  {
    && (p.instrs[i].kind == Return ==> dist[i] == 1)
    && (dist[i] != 0 ==> HasPath(p, i, dist[i]) && Through(p, paths, i) != 0)
  }

  ghost predicate WitnessedCall(p: Program, dist: seq<int>, paths: seq<int>, f: int)
    requires WFProgram(p) && 0 <= f < |paths| == |p.fns| && |dist| == |p.instrs|
  {
    if p.fns[f].isDeclaration then paths[f] == if p.fns[f].doesNotReturn then 0 else 1
    else paths[f] == 0 || paths[f] == dist[p.fns[f].entry]
  }

  // ----- one step of a sweep -----

  predicate IsEntry(p: Program, i: int)
    requires WFProgram(p) && 0 <= i < |p.instrs|
  {
    assert WFInstr(p, p.instrs[i]);
    p.fns[p.instrs[i].fn].entry == i
  }

  /** The instruction is passable and its slot, or that of the function it begins, can be improved. */
  predicate Improves(p: Program, dist: seq<int>, paths: seq<int>, i: int)
    requires WFProgram(p) && 0 <= i < |p.instrs| == |dist| && |paths| == |p.fns|
  {
    assert WFInstr(p, p.instrs[i]);
    var through := Through(p, paths, i);
    through != 0 &&
    var best := Via(p, dist, through, i);
    best != dist[i] || (IsEntry(p, i) && paths[p.instrs[i].fn] != best)
  }

  function NextPaths(p: Program, dist: seq<int>, paths: seq<int>, i: int): seq<int>
    requires WFProgram(p) && 0 <= i < |p.instrs| == |dist| && |paths| == |p.fns|
  {
    assert WFInstr(p, p.instrs[i]);
    if IsEntry(p, i) then paths[p.instrs[i].fn := Via(p, dist, Through(p, paths, i), i)] else paths
  }

  function NextDist(p: Program, dist: seq<int>, paths: seq<int>, i: int): seq<int>
    requires WFProgram(p) && 0 <= i < |p.instrs| == |dist| && |paths| == |p.fns|
  {
    dist[i := Via(p, dist, Through(p, paths, i), i)]
  }

  lemma ThroughFacts(p: Program, paths: seq<int>, i: int)
    requires WFProgram(p) && 0 <= i < |p.instrs| && |paths| == |p.fns| && NonNegative(paths)
    ensures Through(p, paths, i) >= 0 && (p.instrs[i].kind != Call ==> Through(p, paths, i) == 1)
    ensures p.instrs[i].kind == Call ==>
              forall f :: f in p.instrs[i].targets ==>
                0 <= f < |paths| && (paths[f] != 0 ==> 0 < Through(p, paths, i) <= 1 + paths[f])
    ensures p.instrs[i].kind == Call && Through(p, paths, i) != 0 ==>
              exists f :: f in p.instrs[i].targets && 0 <= f < |paths| && paths[f] != 0
                && Through(p, paths, i) == 1 + paths[f]
  {
    assert WFInstr(p, p.instrs[i]);
    if p.instrs[i].kind == Call {
      var targets := p.instrs[i].targets;
      var vals := At(paths, targets);
      RelaxedExact(vals, 1, 0);
      forall f | f in targets
        ensures 0 <= f < |paths| && (paths[f] != 0 ==> 0 < Through(p, paths, i) <= 1 + paths[f])
      {
        var k :| 0 <= k < |targets| && targets[k] == f;
        assert vals[k] == paths[f];
      }
      if Through(p, paths, i) != 0 {
        var k :| 0 <= k < |vals| && vals[k] != 0 && Relaxed(vals, 1, 0) == 1 + vals[k];
        assert targets[k] in targets && paths[targets[k]] != 0;
      }
    }
  }

  lemma ViaFacts(p: Program, slots: seq<int>, through: int, i: int)
    requires WFProgram(p) && 0 <= i < |p.instrs| <= |slots| && NonNegative(slots) && through > 0
    ensures Via(p, slots, through, i) >= 0 && (slots[i] != 0 ==> 0 < Via(p, slots, through, i) <= slots[i])
    ensures forall s :: s in p.instrs[i].succs ==>
              0 <= s < |p.instrs| && (slots[s] != 0 ==> 0 < Via(p, slots, through, i) <= through + slots[s])
    ensures Via(p, slots, through, i) == slots[i] ||
            exists s :: s in p.instrs[i].succs && 0 <= s < |p.instrs| && slots[s] != 0
              && Via(p, slots, through, i) == through + slots[s]
  {
    assert WFInstr(p, p.instrs[i]);
    var succs := p.instrs[i].succs;
    var vals := At(slots, succs);
    RelaxedExact(vals, through, slots[i]);
    forall s | s in succs
      ensures 0 <= s < |p.instrs| && (slots[s] != 0 ==> 0 < Via(p, slots, through, i) <= through + slots[s])
    {
      var k :| 0 <= k < |succs| && succs[k] == s;
      assert vals[k] == slots[s];
    }
    if Via(p, slots, through, i) != slots[i] {
      var k :| 0 <= k < |vals| && vals[k] != 0 && Relaxed(vals, through, slots[i]) == through + vals[k];
      assert succs[k] in succs && slots[succs[k]] != 0;
    }
  }

  lemma CalleeWitness(p: Program, dist: seq<int>, paths: seq<int>, f: int)
    requires WFProgram(p) && Witnessed(p, dist, paths) && 0 <= f < |paths| && paths[f] != 0
    ensures HasCallee(p, f, paths[f])
  {
    assert WitnessedCall(p, dist, paths, f);
    if p.fns[f].isDeclaration {
      var c := External(f);
      assert IsCallee(p, c) && c.f == f && CalleeWeight(c) == 1;
    } else {
      var e := p.fns[f].entry;
      assert WitnessedAt(p, dist, paths, e);
      var q :| IsPath(p, q) && q.at == e && Weight(q) == dist[e];
      var c := Body(f, q);
      assert IsCallee(p, c) && c.f == f && CalleeWeight(c) == paths[f];
    }
  }

  /** The improved distance is that of a path. */
  lemma StepPath(p: Program, dist: seq<int>, paths: seq<int>, i: int)
    requires WFProgram(p) && Witnessed(p, dist, paths) && 0 <= i < |dist| && Through(p, paths, i) != 0
    requires Via(p, dist, Through(p, paths, i), i) != 0
    ensures HasPath(p, i, Via(p, dist, Through(p, paths, i), i))
  {
    var through := Through(p, paths, i);
    var best := Via(p, dist, through, i);
    ThroughFacts(p, paths, i);
    ViaFacts(p, dist, through, i);
    assert WitnessedAt(p, dist, paths, i);
    if best != dist[i] {
      var s :| s in p.instrs[i].succs && 0 <= s < |p.instrs| && dist[s] != 0 && best == through + dist[s];
      assert WitnessedAt(p, dist, paths, s);
      var q :| IsPath(p, q) && q.at == s && Weight(q) == dist[s];
      if p.instrs[i].kind == Call {
        var f :| f in p.instrs[i].targets && 0 <= f < |paths| && paths[f] != 0 && through == 1 + paths[f];
        CalleeWitness(p, dist, paths, f);
        var c :| IsCallee(p, c) && c.f == f && CalleeWeight(c) == paths[f];
        var r := Over(i, c, q);
        assert IsPath(p, r) && r.at == i && Weight(r) == best;
      } else {
        var r := Step(i, q);
        assert IsPath(p, r) && r.at == i && Weight(r) == best;
      }
    }
  }

  /** Functions that return keep returning, so what was passable stays passable. */
  lemma ThroughStays(p: Program, paths: seq<int>, paths': seq<int>, j: int)
    requires WFProgram(p) && 0 <= j < |p.instrs| && |paths| == |paths'| == |p.fns| && NonNegative(paths)
             && NonNegative(paths')
    requires forall f :: 0 <= f < |paths| && paths[f] != 0 ==> paths'[f] != 0
    requires Through(p, paths, j) != 0
    ensures Through(p, paths', j) != 0
  {
    ThroughFacts(p, paths, j);
    ThroughFacts(p, paths', j);
  }

  lemma StepWitnessed(p: Program, dist: seq<int>, paths: seq<int>, i: int)
    requires WFProgram(p) && Witnessed(p, dist, paths) && 0 <= i < |dist| && Improves(p, dist, paths, i)
    ensures Witnessed(p, NextDist(p, dist, paths, i), NextPaths(p, dist, paths, i))
  {
    var through := Through(p, paths, i);
    var best := Via(p, dist, through, i);
    var dist', paths' := NextDist(p, dist, paths, i), NextPaths(p, dist, paths, i);
    var f := p.instrs[i].fn;
    assert WFInstr(p, p.instrs[i]);
    ThroughFacts(p, paths, i);
    ViaFacts(p, dist, through, i);
    assert WitnessedAt(p, dist, paths, i) && WitnessedCall(p, dist, paths, f);
    StepPath(p, dist, paths, i) by { StepNonzero(p, dist, paths, i); }
    StepNonzero(p, dist, paths, i);
    hide Via, Through, HasPath;
    forall j | 0 <= j < |dist'|
      ensures WitnessedAt(p, dist', paths', j)
    {
      assert WitnessedAt(p, dist, paths, j);
      if dist'[j] != 0 {
        ThroughStays(p, paths, paths', j);
      }
    }
    forall g | 0 <= g < |paths'|
      ensures WitnessedCall(p, dist', paths', g)
    {
      assert WitnessedCall(p, dist, paths, g);
    }
  }

  lemma StepNonzero(p: Program, dist: seq<int>, paths: seq<int>, i: int)
    requires WFProgram(p) && Witnessed(p, dist, paths) && 0 <= i < |dist| && Improves(p, dist, paths, i)
    ensures Through(p, paths, i) > 0 && Via(p, dist, Through(p, paths, i), i) > 0
  {
    assert WFInstr(p, p.instrs[i]);
    ThroughFacts(p, paths, i);
    ViaFacts(p, dist, Through(p, paths, i), i);
    assert WitnessedCall(p, dist, paths, p.instrs[i].fn);
  }

  /** Every change fills an empty slot or makes a distance smaller. */
  lemma StepProgress(p: Program, dist: seq<int>, paths: seq<int>, i: int)
    requires WFProgram(p) && Witnessed(p, dist, paths) && 0 <= i < |dist| && Improves(p, dist, paths, i)
    ensures var dist', paths' := NextDist(p, dist, paths, i), NextPaths(p, dist, paths, i);
            || Zeros(dist') + Zeros(paths') < Zeros(dist) + Zeros(paths)
            || (Zeros(dist') + Zeros(paths') == Zeros(dist) + Zeros(paths)
               && Sum(dist') + Sum(paths') < Sum(dist) + Sum(paths))
  {
    var through := Through(p, paths, i);
    var best := Via(p, dist, through, i);
    var f := p.instrs[i].fn;
    assert WFInstr(p, p.instrs[i]);
    ViaFacts(p, dist, through, i) by { StepNonzero(p, dist, paths, i); }
    StepNonzero(p, dist, paths, i);
    assert WitnessedCall(p, dist, paths, f);
    UpdateCounts(dist, i, best);
    UpdateCounts(paths, f, best);
  }

  // ----- the fixed point -----

  lemma {:induction false} PathBound(p: Program, dist: seq<int>, paths: seq<int>, q: Path)
    requires WFProgram(p) && Witnessed(p, dist, paths) && IsPath(p, q)
    requires forall i :: 0 <= i < |dist| ==> !Improves(p, dist, paths, i)
    ensures 0 < dist[q.at] <= Weight(q)
    decreases q
  {
    var i := q.at;
    assert WitnessedAt(p, dist, paths, i) && !Improves(p, dist, paths, i);
    ThroughFacts(p, paths, i);
    match q
    case Ret(_) =>
    case Step(_, next) =>
      PathBound(p, dist, paths, next);
      ViaFacts(p, dist, 1, i);
    case Over(_, c, next) =>
      PathBound(p, dist, paths, next);
      CalleeBound(p, dist, paths, c);
      ViaFacts(p, dist, Through(p, paths, i), i);
  }

  lemma {:induction false} CalleeBound(p: Program, dist: seq<int>, paths: seq<int>, c: Callee)
    requires WFProgram(p) && Witnessed(p, dist, paths) && IsCallee(p, c)
    requires forall i :: 0 <= i < |dist| ==> !Improves(p, dist, paths, i)
    ensures 0 < paths[c.f] <= CalleeWeight(c)
    decreases c
  {
    assert WitnessedCall(p, dist, paths, c.f);
    match c
    case External(_) =>
    case Body(f, q) =>
      PathBound(p, dist, paths, q);
      var e := q.at;
      assert WitnessedAt(p, dist, paths, e) && !Improves(p, dist, paths, e);
  }

  /** Where no step changes anything, every slot has exactly the shortest distance. */
  lemma FixedExact(p: Program, dist: seq<int>, paths: seq<int>)
    requires WFProgram(p) && Witnessed(p, dist, paths)
    requires forall i :: 0 <= i < |dist| ==> !Improves(p, dist, paths, i)
    ensures forall i :: 0 <= i < |dist| ==> Shortest(p, dist, i)
    ensures forall f :: 0 <= f < |paths| ==> ShortestCall(p, paths, f)
  {
    forall i | 0 <= i < |dist|
      ensures Shortest(p, dist, i)
    {
      assert WitnessedAt(p, dist, paths, i);
      forall w | HasPath(p, i, w)
        ensures 0 < dist[i] <= w
      {
        var q :| IsPath(p, q) && q.at == i && Weight(q) == w;
        PathBound(p, dist, paths, q);
      }
    }
    forall f | 0 <= f < |paths|
      ensures ShortestCall(p, paths, f)
    {
      if paths[f] != 0 {
        CalleeWitness(p, dist, paths, f);
      }
      forall w | HasCallee(p, f, w)
        ensures 0 < paths[f] <= w
      {
        var c :| IsCallee(p, c) && c.f == f && CalleeWeight(c) == w;
        CalleeBound(p, dist, paths, c);
      }
    }
  }

  // ----- what the distance to uncovered code means -----

  /** A way from an instruction to an uncovered one in the same function; calls are passed over. */
  datatype Route = Here(at: int) | Go(at: int, onward: Route)

  predicate IsRoute(p: Program, paths: seq<int>, uncovered: seq<bool>, r: Route)
    requires WFProgram(p) && |paths| == |p.fns| && |uncovered| == |p.instrs|
  {
    && 0 <= r.at < |p.instrs|
    && match r
       case Here(i) => uncovered[i]
       case Go(i, next) =>
         Through(p, paths, i) != 0 && next.at in p.instrs[i].succs
         && IsRoute(p, paths, uncovered, next)
  }

  function RouteWeight(p: Program, paths: seq<int>, r: Route): int
    requires WFProgram(p) && |paths| == |p.fns|
  {
    match r
    case Here(_) => 1
    case Go(i, next) => (if 0 <= i < |p.instrs| then Through(p, paths, i) else 0) + RouteWeight(p, paths, next)
  }

  ghost predicate HasRoute(p: Program, paths: seq<int>, uncovered: seq<bool>, i: int, w: int)
    requires WFProgram(p) && |paths| == |p.fns| && |uncovered| == |p.instrs|
  {
    exists r :: IsRoute(p, paths, uncovered, r) && r.at == i && RouteWeight(p, paths, r) == w
  }

  ghost predicate Nearest(p: Program, paths: seq<int>, uncovered: seq<bool>, slots: seq<int>, i: int)
    requires WFProgram(p) && |paths| == |p.fns| && |uncovered| == |p.instrs| && 0 <= i < |slots|
  {
    && (slots[i] != 0 ==> HasRoute(p, paths, uncovered, i, slots[i]))
    && forall w :: HasRoute(p, paths, uncovered, i, w) ==> 0 < slots[i] <= w
  }

  /** The slots of the functions come after those of the instructions, and stay empty. */
  ghost predicate Routed(p: Program, paths: seq<int>, uncovered: seq<bool>, slots: seq<int>)
    requires WFProgram(p) && |paths| == |p.fns| && |uncovered| == |p.instrs|
  {
    && |slots| == |p.instrs| + |p.fns| && NonNegative(slots)
    && (forall k :: |p.instrs| <= k < |slots| ==> slots[k] == 0)
    && (forall i :: 0 <= i < |p.instrs| && uncovered[i] ==> slots[i] == 1)
    && forall i :: 0 <= i < |p.instrs| && slots[i] != 0 ==> HasRoute(p, paths, uncovered, i, slots[i])
  }

  /** The slot after its relaxation. */
  function Nearer(p: Program, paths: seq<int>, slots: seq<int>, i: int): int
    requires WFProgram(p) && |paths| == |p.fns| && 0 <= i < |p.instrs| <= |slots|
  {
    if Through(p, paths, i) == 0 then slots[i] else Via(p, slots, Through(p, paths, i), i)
  }

  lemma NearerRoute(p: Program, paths: seq<int>, uncovered: seq<bool>, slots: seq<int>, i: int)
    requires WFProgram(p) && |paths| == |p.fns| && NonNegative(paths) && |uncovered| == |p.instrs|
             && 0 <= i < |p.instrs|
    requires Routed(p, paths, uncovered, slots) && Nearer(p, paths, slots, i) != slots[i]
    ensures HasRoute(p, paths, uncovered, i, Nearer(p, paths, slots, i))
  {
    var through, best := Through(p, paths, i), Nearer(p, paths, slots, i);
    ThroughFacts(p, paths, i);
    ViaFacts(p, slots, through, i);
    var s :| s in p.instrs[i].succs && 0 <= s < |p.instrs| && slots[s] != 0 && best == through + slots[s];
    assert HasRoute(p, paths, uncovered, s, slots[s]);
    hide Via, Through;
    var r :| IsRoute(p, paths, uncovered, r) && r.at == s && RouteWeight(p, paths, r) == slots[s];
    var longer := Go(i, r);
    assert IsRoute(p, paths, uncovered, longer) && longer.at == i && RouteWeight(p, paths, longer) == best;
  }

  lemma NearerBound(p: Program, paths: seq<int>, slots: seq<int>, i: int)
    requires WFProgram(p) && |paths| == |p.fns| && NonNegative(paths) && 0 <= i < |p.instrs| <= |slots|
             && NonNegative(slots)
    ensures Nearer(p, paths, slots, i) >= 0 && (slots[i] != 0 ==> 0 < Nearer(p, paths, slots, i) <= slots[i])
  {
    ThroughFacts(p, paths, i);
    if Through(p, paths, i) != 0 {
      ViaFacts(p, slots, Through(p, paths, i), i);
    }
  }

  lemma NearerRouted(p: Program, paths: seq<int>, uncovered: seq<bool>, slots: seq<int>, i: int)
    requires WFProgram(p) && |paths| == |p.fns| && NonNegative(paths) && |uncovered| == |p.instrs|
             && 0 <= i < |p.instrs|
    requires Routed(p, paths, uncovered, slots) && Nearer(p, paths, slots, i) != slots[i]
    ensures var slots' := slots[i := Nearer(p, paths, slots, i)];
            && Routed(p, paths, uncovered, slots')
            && (Zeros(slots') < Zeros(slots) || (Zeros(slots') == Zeros(slots) && Sum(slots') < Sum(slots)))
  {
    var best := Nearer(p, paths, slots, i);
    UpdateCounts(slots, i, best);
    NearerBound(p, paths, slots, i);
    NearerRoute(p, paths, uncovered, slots, i);
    hide HasRoute, Nearer, Zeros, Sum;
    var slots' := slots[i := best];
    forall j | 0 <= j < |p.instrs| && slots'[j] != 0
      ensures HasRoute(p, paths, uncovered, j, slots'[j])
    {
      if j != i {
        assert slots'[j] == slots[j];
      }
    }
  }

  lemma {:induction false} RouteBound(p: Program, paths: seq<int>, uncovered: seq<bool>, slots: seq<int>, r: Route)
    requires WFProgram(p) && |paths| == |p.fns| && NonNegative(paths) && |uncovered| == |p.instrs|
    requires Routed(p, paths, uncovered, slots) && IsRoute(p, paths, uncovered, r)
    requires forall i :: 0 <= i < |p.instrs| ==> Nearer(p, paths, slots, i) == slots[i]
    ensures 0 < slots[r.at] <= RouteWeight(p, paths, r)
  {
    match r
    case Here(_) =>
    case Go(i, next) =>
      RouteBound(p, paths, uncovered, slots, next);
      ThroughFacts(p, paths, i);
      ViaFacts(p, slots, Through(p, paths, i), i);
      assert Nearer(p, paths, slots, i) == slots[i];
  }

  lemma NearestExact(p: Program, paths: seq<int>, uncovered: seq<bool>, slots: seq<int>)
    requires WFProgram(p) && |paths| == |p.fns| && NonNegative(paths) && |uncovered| == |p.instrs|
    requires Routed(p, paths, uncovered, slots)
    requires forall i :: 0 <= i < |p.instrs| ==> Nearer(p, paths, slots, i) == slots[i]
    ensures forall i :: 0 <= i < |p.instrs| ==> Nearest(p, paths, uncovered, slots, i)
  {
    forall i, w | 0 <= i < |p.instrs| && HasRoute(p, paths, uncovered, i, w)
      ensures 0 < slots[i] <= w
    {
      var r :| IsRoute(p, paths, uncovered, r) && r.at == i && RouteWeight(p, paths, r) == w;
      RouteBound(p, paths, uncovered, slots, r);
    }
  }

  /** Uncovered code inside a function that is called does not count: here a call leads to nothing but an
      uncovered instruction, which is next if the function is entered, and has no route. */
  lemma CalleeIgnored(paths: seq<int>)
    requires |paths| == 2
    ensures var p := Program([Instr(Call, [1], [1], 0), Instr(Return, [], [], 0), Instr(Return, [], [], 1)],
                             [Function(false, false, 0), Function(false, false, 2)]);
            && WFProgram(p) && HasRoute(p, paths, [false, false, true], 2, 1)
            && HasDeepRoute(p, paths, [false, false, true], 0, 2) && !NeverShorter(p, paths, [false, false, true])
            && forall w :: !HasRoute(p, paths, [false, false, true], 0, w)
  {
    var p := Program([Instr(Call, [1], [1], 0), Instr(Return, [], [], 0), Instr(Return, [], [], 1)],
                     [Function(false, false, 0), Function(false, false, 2)]);
    assert forall i :: 0 <= i < |p.instrs| ==> WFInstr(p, p.instrs[i]);
    var uncovered := [false, false, true];
    assert p.instrs[0].succs == [1] && p.instrs[1].succs == [] && p.instrs[2].succs == [];
    hide WFProgram, HasRoute, HasDeepRoute, NeverShorter;
    EnteredNext(p, paths, uncovered);
  }

  lemma EnteredNext(p: Program, paths: seq<int>, uncovered: seq<bool>)
    requires WFProgram(p) && |paths| == |p.fns| && |uncovered| == |p.instrs| == 3
    requires Enters(p, 0, 1) && p.fns[1].entry == 2
    requires uncovered == [false, false, true] && forall i :: 0 <= i < 3 ==> 2 !in p.instrs[i].succs
    ensures HasRoute(p, paths, uncovered, 2, 1) && HasDeepRoute(p, paths, uncovered, 0, 2)
    ensures !NeverShorter(p, paths, uncovered) && forall w :: !HasRoute(p, paths, uncovered, 0, w)
  {
    assert IsRoute(p, paths, uncovered, Here(2)) && RouteWeight(p, paths, Here(2)) == 1;
    var r := Enter(0, 1, DeepHere(2));
    assert IsDeepRoute(p, paths, uncovered, DeepHere(2));
    assert IsDeepRoute(p, paths, uncovered, r) && DeepWeight(p, paths, r) == 2;
    forall w
      ensures !HasRoute(p, paths, uncovered, 0, w)
    {
      forall r | IsRoute(p, paths, uncovered, r)
        ensures r.at == 2
      {
        OnlyAtEnd(p, paths, uncovered, r);
      }
    }
    assert HasRoute(p, paths, uncovered, p.fns[1].entry, 1);
  }

  lemma {:induction false} OnlyAtEnd(p: Program, paths: seq<int>, uncovered: seq<bool>, r: Route)
    requires WFProgram(p) && |paths| == |p.fns| && |uncovered| == |p.instrs| == 3 && IsRoute(p, paths, uncovered, r)
    requires uncovered == [false, false, true] && forall i :: 0 <= i < 3 ==> 2 !in p.instrs[i].succs
    ensures r.at == 2
  {
    if r.Go? {
      OnlyAtEnd(p, paths, uncovered, r.onward);
    }
  }

  // ----- routes that enter the functions called -----

  /** As a route, and it may also go on inside a function that is called. */
  datatype DeepRoute = DeepHere(at: int) | DeepGo(at: int, onward: DeepRoute) | Enter(at: int, f: int,
    onward: DeepRoute)

  /** The call may reach the function, which has a body. */
  predicate Enters(p: Program, i: int, f: int)
    requires WFProgram(p) && 0 <= i < |p.instrs|
  {
    p.instrs[i].kind == Call && f in p.instrs[i].targets && 0 <= f < |p.fns| && !p.fns[f].isDeclaration
  }

  predicate IsDeepRoute(p: Program, paths: seq<int>, uncovered: seq<bool>, r: DeepRoute)
    requires WFProgram(p) && |paths| == |p.fns| && |uncovered| == |p.instrs|
  {
    && 0 <= r.at < |p.instrs|
    && match r
       case DeepHere(i) => uncovered[i]
       case DeepGo(i, next) => Through(p, paths, i) != 0 && next.at in p.instrs[i].succs
         && IsDeepRoute(p, paths, uncovered, next)
       case Enter(i, f, next) => Enters(p, i, f) && next.at == p.fns[f].entry && IsDeepRoute(p, paths, uncovered, next)
  }

  function DeepWeight(p: Program, paths: seq<int>, r: DeepRoute): int
    requires WFProgram(p) && |paths| == |p.fns|
  {
    match r
    case DeepHere(_) => 1
    case DeepGo(i, next) => (if 0 <= i < |p.instrs| then Through(p, paths, i) else 0) + DeepWeight(p, paths, next)
    case Enter(_, _, next) => 1 + DeepWeight(p, paths, next)
  }

  ghost predicate HasDeepRoute(p: Program, paths: seq<int>, uncovered: seq<bool>, i: int, w: int)
    requires WFProgram(p) && |paths| == |p.fns| && |uncovered| == |p.instrs|
  {
    exists r :: IsDeepRoute(p, paths, uncovered, r) && r.at == i && DeepWeight(p, paths, r) == w
  }

  ghost predicate DeepNearest(p: Program, paths: seq<int>, uncovered: seq<bool>, slots: seq<int>, i: int)
    requires WFProgram(p) && |paths| == |p.fns| && |uncovered| == |p.instrs| && 0 <= i < |slots|
  {
    && (slots[i] != 0 ==> HasDeepRoute(p, paths, uncovered, i, slots[i]))
    && forall w :: HasDeepRoute(p, paths, uncovered, i, w) ==> 0 < slots[i] <= w
  }

  function Deep(r: Route): DeepRoute {
    match r
    case Here(i) => DeepHere(i)
    case Go(i, next) => DeepGo(i, Deep(next))
  }

  lemma {:induction false} DeepRouteOf(p: Program, paths: seq<int>, uncovered: seq<bool>, r: Route)
    requires WFProgram(p) && |paths| == |p.fns| && |uncovered| == |p.instrs| && IsRoute(p, paths, uncovered, r)
    ensures IsDeepRoute(p, paths, uncovered, Deep(r)) && Deep(r).at == r.at
            && DeepWeight(p, paths, Deep(r)) == RouteWeight(p, paths, r)
  {
    if r.Go? {
      DeepRouteOf(p, paths, uncovered, r.onward);
    }
  }

  /** Entering a function would be shorter than what the slot of the call says. */
  predicate Shortcut(p: Program, slots: seq<int>, i: int, f: int)
    requires WFProgram(p) && 0 <= i < |p.instrs| <= |slots|
  {
    Enters(p, i, f) && slots[p.fns[f].entry] != 0 && (slots[i] == 0 || 1 + slots[p.fns[f].entry] < slots[i])
  }

  lemma {:induction false} DeepBound(p: Program, paths: seq<int>, uncovered: seq<bool>, slots: seq<int>, r: DeepRoute)
    requires WFProgram(p) && |paths| == |p.fns| && NonNegative(paths) && |uncovered| == |p.instrs| <= |slots|
    requires forall i :: 0 <= i < |p.instrs| ==> Nearest(p, paths, uncovered, slots, i)
    requires forall i, f :: 0 <= i < |p.instrs| ==> !Shortcut(p, slots, i, f)
    requires IsDeepRoute(p, paths, uncovered, r)
    ensures 0 < slots[r.at] <= DeepWeight(p, paths, r)
  {
    hide Through;
    assert Nearest(p, paths, uncovered, slots, r.at);
    match r
    case DeepHere(i) =>
      assert IsRoute(p, paths, uncovered, Here(i)) && RouteWeight(p, paths, Here(i)) == 1;
      assert HasRoute(p, paths, uncovered, i, 1);
    case DeepGo(i, next) =>
      DeepBound(p, paths, uncovered, slots, next);
      assert Nearest(p, paths, uncovered, slots, next.at);
      var q :| IsRoute(p, paths, uncovered, q) && q.at == next.at && RouteWeight(p, paths, q) == slots[next.at];
      assert IsRoute(p, paths, uncovered, Go(i, q));
      assert HasRoute(p, paths, uncovered, i, Through(p, paths, i) + slots[next.at]);
    case Enter(i, f, next) =>
      DeepBound(p, paths, uncovered, slots, next);
      assert !Shortcut(p, slots, i, f);
  }

  ghost predicate RouteWithin(p: Program, paths: seq<int>, uncovered: seq<bool>, i: int, w: int)
    requires WFProgram(p) && |paths| == |p.fns| && |uncovered| == |p.instrs|
  {
    exists w' :: w' <= w && HasRoute(p, paths, uncovered, i, w')
  }

  /** Wherever uncovered code is ahead in a function that a call enters, a route past calls leads from the call
      to uncovered code no later. */
  ghost predicate NeverShorter(p: Program, paths: seq<int>, uncovered: seq<bool>)
    requires WFProgram(p) && |paths| == |p.fns| && |uncovered| == |p.instrs|
  {
    forall i, f, w :: 0 <= i < |p.instrs| && Enters(p, i, f) && HasRoute(p, paths, uncovered, p.fns[f].entry, w) ==>
      RouteWithin(p, paths, uncovered, i, 1 + w)
  }

  /** The slots are exact for routes into the functions called as well exactly if entering one is never
      shorter. */
  ghost predicate DeepExactAt(p: Program, paths: seq<int>, uncovered: seq<bool>, slots: seq<int>)
    requires WFProgram(p) && |paths| == |p.fns| && |uncovered| == |p.instrs| <= |slots|
  {
    (forall i :: 0 <= i < |p.instrs| ==> DeepNearest(p, paths, uncovered, slots, i)) <==>
    NeverShorter(p, paths, uncovered)
  }

  lemma WithinExact(p: Program, paths: seq<int>, uncovered: seq<bool>, slots: seq<int>, i: int, w: int)
    requires WFProgram(p) && |paths| == |p.fns| && |uncovered| == |p.instrs| <= |slots| && 0 <= i < |p.instrs|
    requires Nearest(p, paths, uncovered, slots, i)
    ensures RouteWithin(p, paths, uncovered, i, w) <==> slots[i] != 0 && slots[i] <= w
  {
  }

  /** No slot of a call is above what lies ahead where it enters exactly if entering is never shorter. */
  lemma NoShortcutExact(p: Program, paths: seq<int>, uncovered: seq<bool>, slots: seq<int>)
    requires WFProgram(p) && |paths| == |p.fns| && |uncovered| == |p.instrs| <= |slots|
    requires forall i :: 0 <= i < |p.instrs| ==> Nearest(p, paths, uncovered, slots, i)
    ensures (forall i, f :: 0 <= i < |p.instrs| ==> !Shortcut(p, slots, i, f)) <==> NeverShorter(p, paths, uncovered)
  {
    hide HasRoute, RouteWithin;
    forall i, f | 0 <= i < |p.instrs| && Shortcut(p, slots, i, f)
      ensures !NeverShorter(p, paths, uncovered)
    {
      var entry := p.fns[f].entry;
      assert Nearest(p, paths, uncovered, slots, entry);
      assert HasRoute(p, paths, uncovered, entry, slots[entry]);
      WithinExact(p, paths, uncovered, slots, i, 1 + slots[entry]);
    }
    forall i, f, w | 0 <= i < |p.instrs| && Enters(p, i, f) && HasRoute(p, paths, uncovered, p.fns[f].entry, w)
      ensures RouteWithin(p, paths, uncovered, i, 1 + w) || Shortcut(p, slots, i, f)
    {
      assert Nearest(p, paths, uncovered, slots, p.fns[f].entry);
      WithinExact(p, paths, uncovered, slots, i, 1 + w);
    }
  }

  /** What holds of slots that are exact for routes past calls. */
  lemma DeepExact(p: Program, paths: seq<int>, uncovered: seq<bool>, slots: seq<int>)
    requires WFProgram(p) && |paths| == |p.fns| && NonNegative(paths) && |uncovered| == |p.instrs| <= |slots|
    requires forall i :: 0 <= i < |p.instrs| ==> Nearest(p, paths, uncovered, slots, i)
    ensures DeepExactAt(p, paths, uncovered, slots)
  {
    NoShortcutExact(p, paths, uncovered, slots);
    hide Nearest, DeepNearest, Shortcut, NeverShorter;
    forall i | 0 <= i < |p.instrs|
      ensures (forall k, f :: 0 <= k < |p.instrs| ==> !Shortcut(p, slots, k, f)) ==>
              DeepNearest(p, paths, uncovered, slots, i)
    {
      if forall k, f :: 0 <= k < |p.instrs| ==> !Shortcut(p, slots, k, f) {
        DeepNearestAt(p, paths, uncovered, slots, i);
      }
    }
    forall i, f | 0 <= i < |p.instrs| && Shortcut(p, slots, i, f)
      ensures !DeepNearest(p, paths, uncovered, slots, i)
    {
      ShortcutMissed(p, paths, uncovered, slots, i, f);
    }
  }

  lemma DeepNearestAt(p: Program, paths: seq<int>, uncovered: seq<bool>, slots: seq<int>, i: int)
    requires WFProgram(p) && |paths| == |p.fns| && NonNegative(paths) && |uncovered| == |p.instrs| <= |slots|
    requires forall k :: 0 <= k < |p.instrs| ==> Nearest(p, paths, uncovered, slots, k)
    requires forall k, f :: 0 <= k < |p.instrs| ==> !Shortcut(p, slots, k, f)
    requires 0 <= i < |p.instrs|
    ensures DeepNearest(p, paths, uncovered, slots, i)
  {
    hide Through, Shortcut;
    assert Nearest(p, paths, uncovered, slots, i);
    if slots[i] != 0 {
      var q :| IsRoute(p, paths, uncovered, q) && q.at == i && RouteWeight(p, paths, q) == slots[i];
      DeepRouteOf(p, paths, uncovered, q);
      assert HasDeepRoute(p, paths, uncovered, i, slots[i]);
    }
    forall w | HasDeepRoute(p, paths, uncovered, i, w)
      ensures 0 < slots[i] <= w
    {
      var r :| IsDeepRoute(p, paths, uncovered, r) && r.at == i && DeepWeight(p, paths, r) == w;
      DeepBound(p, paths, uncovered, slots, r);
    }
  }

  lemma ShortcutMissed(p: Program, paths: seq<int>, uncovered: seq<bool>, slots: seq<int>, i: int, f: int)
    requires WFProgram(p) && |paths| == |p.fns| && |uncovered| == |p.instrs| <= |slots|
    requires forall k :: 0 <= k < |p.instrs| ==> Nearest(p, paths, uncovered, slots, k)
    requires 0 <= i < |p.instrs| && Shortcut(p, slots, i, f)
    ensures !DeepNearest(p, paths, uncovered, slots, i)
  {
    hide Through;
    var e := p.fns[f].entry;
    assert Nearest(p, paths, uncovered, slots, e);
    var q :| IsRoute(p, paths, uncovered, q) && q.at == e && RouteWeight(p, paths, q) == slots[e];
    DeepRouteOf(p, paths, uncovered, q);
    var r := Enter(i, f, Deep(q));
    assert IsDeepRoute(p, paths, uncovered, r) && DeepWeight(p, paths, r) == 1 + slots[e];
    assert HasDeepRoute(p, paths, uncovered, i, 1 + slots[e]);
  }

  // ----- a stack of frames -----

  /** From the frames' instructions, the innermost last: uncovered code in the innermost frame, or past its
      return in the frames around it. */
  ghost predicate Ahead(p: Program, paths: seq<int>, uncovered: seq<bool>, pcs: seq<int>, w: int)
    requires WFProgram(p) && |paths| == |p.fns| && |uncovered| == |p.instrs|
    decreases |pcs|
  {
    pcs != [] &&
    var pc := pcs[|pcs| - 1];
    || HasRoute(p, paths, uncovered, pc, w)
    || exists r :: HasPath(p, pc, r) && Ahead(p, paths, uncovered, pcs[..|pcs| - 1], w - r)
  }

  function Combined(local: int, toReturn: int, atReturn: int): int {
    if atReturn == 0 then local
    else if toReturn == 0 then local
    else if local == 0 then toReturn + atReturn
    else if local < toReturn + atReturn then local
    else toReturn + atReturn
  }

  function StackDistance(toReturn: seq<int>, toUncovered: seq<int>, pcs: seq<int>): int
    requires InRange(pcs, |toReturn|) && |toReturn| <= |toUncovered|
  {
    if pcs == [] then 0
    else
      var pc := pcs[|pcs| - 1];
      Combined(toUncovered[pc], toReturn[pc], StackDistance(toReturn, toUncovered, pcs[..|pcs| - 1]))
  }

  /** The distance of a state is exact too: zero if there is no uncovered code ahead of any of its frames,
      else the least weight of a way there. */
  lemma {:induction false} StackExact(p: Program, dist: seq<int>, paths: seq<int>, uncovered: seq<bool>,
                                      slots: seq<int>, pcs: seq<int>)
    requires WFProgram(p) && |dist| == |p.instrs| <= |slots| && |paths| == |p.fns| && |uncovered| == |p.instrs|
    requires NonNegative(dist) && NonNegative(slots) && InRange(pcs, |dist|)
    requires forall i :: 0 <= i < |dist| ==> Shortest(p, dist, i) && Nearest(p, paths, uncovered, slots, i)
    ensures StackDistance(dist, slots, pcs) >= 0
    ensures StackDistance(dist, slots, pcs) != 0 ==> Ahead(p, paths, uncovered, pcs, StackDistance(dist, slots, pcs))
    ensures forall w :: Ahead(p, paths, uncovered, pcs, w) ==> 0 < StackDistance(dist, slots, pcs) <= w
    decreases |pcs|
  {
    if pcs != [] {
      var pc, rest := pcs[|pcs| - 1], pcs[..|pcs| - 1];
      StackExact(p, dist, paths, uncovered, slots, rest);
      assert Shortest(p, dist, pc) && Nearest(p, paths, uncovered, slots, pc);
      var d, o := StackDistance(dist, slots, pcs), StackDistance(dist, slots, rest);
      hide HasPath, HasRoute;
      if d != 0 && d != slots[pc] {
        assert HasPath(p, pc, dist[pc]) && d - dist[pc] == o;
      }
      forall w | Ahead(p, paths, uncovered, pcs, w)
        ensures 0 < d <= w
      {
        if !HasRoute(p, paths, uncovered, pc, w) {
          var r :| HasPath(p, pc, r) && Ahead(p, paths, uncovered, rest, w - r);
        }
      }
    }
  }

  // ----- the tracker -----

  /** The initial slots: one for a return, or for an uncovered instruction. */
  lemma StartWitnessed(p: Program, dist: seq<int>, paths: seq<int>)
    requires WFProgram(p) && |dist| == |p.instrs| && |paths| == |p.fns|
    requires forall i :: 0 <= i < |dist| ==> dist[i] == if p.instrs[i].kind == Return then 1 else 0
    requires forall f :: 0 <= f < |paths| ==>
             paths[f] == if p.fns[f].isDeclaration && !p.fns[f].doesNotReturn then 1 else 0
    ensures Witnessed(p, dist, paths)
  {
    forall i | 0 <= i < |dist|
      ensures WitnessedAt(p, dist, paths, i)
    {
      if dist[i] != 0 {
        assert IsPath(p, Ret(i)) && Weight(Ret(i)) == 1;
      }
    }
  }

  lemma StartRouted(p: Program, paths: seq<int>, uncovered: seq<bool>, slots: seq<int>)
    requires WFProgram(p) && |paths| == |p.fns| && |uncovered| == |p.instrs| && |slots| == |p.instrs| + |p.fns|
    requires forall k :: 0 <= k < |slots| ==> slots[k] == if k < |p.instrs| && uncovered[k] then 1 else 0
    ensures Routed(p, paths, uncovered, slots)
  {
    forall i | 0 <= i < |p.instrs| && slots[i] != 0
      ensures HasRoute(p, paths, uncovered, i, slots[i])
    {
      assert IsRoute(p, paths, uncovered, Here(i)) && RouteWeight(p, paths, Here(i)) == 1;
    }
  }

  lemma RelaxedSnoc(vals: seq<int>, k: nat, base: int, acc: int)
    requires k < |vals|
    ensures Relaxed(vals[..k + 1], base, acc) ==
            if vals[k] != 0 then Better(Relaxed(vals[..k], base, acc), base + vals[k])
              else Relaxed(vals[..k], base, acc)
  {
    assert vals[..k + 1][..k] == vals[..k];
  }

  class StatsTracker {
    const program: Program
    const minDistToReturn: array<int>
    /** The functions have slots of their own after those of the instructions. */
    const minDistToUncovered: array<int>
    var functionShortestPath: seq<int>

    ghost predicate Shaped()
      reads this
    {
      && WFProgram(program) && minDistToReturn.Length == |program.instrs| && |functionShortestPath| == |program.fns|
      && minDistToUncovered.Length == |program.instrs| + |program.fns| && minDistToReturn != minDistToUncovered
    }

    constructor (program: Program)
      requires WFProgram(program)
      ensures Shaped() && this.program == program && fresh(minDistToReturn) && fresh(minDistToUncovered)
    {
      this.program := program;
      minDistToReturn := new int[|program.instrs|](i => 0);
      minDistToUncovered := new int[|program.instrs| + |program.fns|](i => 0);
      functionShortestPath := seq(|program.fns|, f => 0);
    }

    /** The cost of passing an instruction, by a loop over the targets of a call. */
    method BestThrough(i: int) returns (bestThrough: int)
      requires Shaped() && 0 <= i < |program.instrs|
      ensures bestThrough == Through(program, functionShortestPath, i)
    {
      assert WFInstr(program, program.instrs[i]);
      bestThrough := 0;
      if program.instrs[i].kind == Call {
        var targets := program.instrs[i].targets;
        ghost var vals := At(functionShortestPath, targets);
        for k := 0 to |targets|
          invariant bestThrough == Relaxed(vals[..k], 1, 0)
        {
          RelaxedSnoc(vals, k, 1, 0);
          var dist := functionShortestPath[targets[k]];
          if dist != 0 {
            dist := 1 + dist;
            if bestThrough == 0 || dist < bestThrough {
              bestThrough := dist;
            }
          }
        }
        assert vals[..|targets|] == vals;
      } else {
        bestThrough := 1;
      }
    }

    /** The best way on, by a loop over the successors. */
    method BestVia(slots: array<int>, i: int, through: int, acc: int) returns (best: int)
      requires Shaped() && 0 <= i < |program.instrs| <= slots.Length
      ensures best == ViaFrom(program, slots[..], through, i, acc)
    {
      assert WFInstr(program, program.instrs[i]);
      best := acc;
      var succs := program.instrs[i].succs;
      ghost var vals := At(slots[..], succs);
      for k := 0 to |succs|
        invariant best == Relaxed(vals[..k], through, acc)
      {
        RelaxedSnoc(vals, k, through, acc);
        var dist := slots[succs[k]];
        if dist != 0 {
          var val := through + dist;
          if best == 0 || val < best {
            best := val;
          }
        }
      }
      assert vals[..|succs|] == vals;
    }

    /** One instruction of a sweep for the distance to return. */
    method RelaxReturn(i: int) returns (changed: bool)
      requires Shaped() && 0 <= i < |program.instrs| && Witnessed(program, minDistToReturn[..], functionShortestPath)
      modifies minDistToReturn, `functionShortestPath
      ensures Shaped() && changed == old(Improves(program, minDistToReturn[..], functionShortestPath, i))
      ensures changed ==>
                && minDistToReturn[..] == old(NextDist(program, minDistToReturn[..], functionShortestPath, i))
                && functionShortestPath == old(NextPaths(program, minDistToReturn[..], functionShortestPath, i))
      ensures !changed ==>
              minDistToReturn[..] == old(minDistToReturn[..]) && functionShortestPath == old(functionShortestPath)
    {
      assert WFInstr(program, program.instrs[i]);
      changed := false;
      var bestThrough := BestThrough(i);
      if bestThrough != 0 {
        var cur := minDistToReturn[i];
        var best := BestVia(minDistToReturn, i, bestThrough, cur);
        var f := program.instrs[i].fn;
        var entry := program.fns[f].entry == i;
        if best != cur || (entry && functionShortestPath[f] != best) {
          minDistToReturn[i] := best;
          changed := true;
          if entry {
            functionShortestPath := functionShortestPath[f := best];
          }
        }
      }
    }

    ghost function ReturnZeros(): nat
      reads this, minDistToReturn
    {
      Zeros(minDistToReturn[..]) + Zeros(functionShortestPath)
    }

    ghost function ReturnSum(): int
      reads this, minDistToReturn
    {
      Sum(minDistToReturn[..]) + Sum(functionShortestPath)
    }

    /** A sweep over the instructions, the last first. */
    method SweepReturn() returns (changed: bool)
      requires Shaped() && Witnessed(program, minDistToReturn[..], functionShortestPath)
      modifies minDistToReturn, `functionShortestPath
      ensures Shaped() && Witnessed(program, minDistToReturn[..], functionShortestPath)
      ensures changed ==>
              ReturnZeros() < old(ReturnZeros())
                || (ReturnZeros() == old(ReturnZeros()) && ReturnSum() < old(ReturnSum()))
      ensures !changed ==> ReturnZeros() == old(ReturnZeros()) && ReturnSum() == old(ReturnSum())
      ensures !changed ==> forall i :: 0 <= i < |program.instrs| ==>
              !Improves(program, minDistToReturn[..], functionShortestPath, i)
    {
      hide Witnessed, Improves, NextDist, NextPaths, Zeros, Sum;
      changed := false;
      var i := |program.instrs|;
      while i > 0
        invariant 0 <= i <= |program.instrs| && Shaped()
                  && Witnessed(program, minDistToReturn[..], functionShortestPath)
        invariant changed ==>
                  ReturnZeros() < old(ReturnZeros())
                    || (ReturnZeros() == old(ReturnZeros()) && ReturnSum() < old(ReturnSum()))
        invariant !changed ==>
                  minDistToReturn[..] == old(minDistToReturn[..]) && functionShortestPath == old(functionShortestPath)
        invariant !changed ==> forall j :: i <= j < |program.instrs| ==>
                  !Improves(program, minDistToReturn[..], functionShortestPath, j)
      {
        i := i - 1;
        ghost var dist, paths := minDistToReturn[..], functionShortestPath;
        if Improves(program, dist, paths, i) {
          StepWitnessed(program, dist, paths, i);
          StepProgress(program, dist, paths, i);
        }
        var c := RelaxReturn(i);
        changed := changed || c;
      }
    }

    /** The shortest ways to return, of every instruction and through every function. */
    method ComputeReturns()
      requires Shaped()
      modifies minDistToReturn, `functionShortestPath
      ensures Shaped() && NonNegative(minDistToReturn[..]) && NonNegative(functionShortestPath)
      ensures forall i :: 0 <= i < |program.instrs| ==> Shortest(program, minDistToReturn[..], i)
      ensures forall f :: 0 <= f < |program.fns| ==> ShortestCall(program, functionShortestPath, f)
    {
      functionShortestPath := seq(|program.fns|, f requires 0 <= f < |program.fns| =>
        if program.fns[f].isDeclaration && !program.fns[f].doesNotReturn then 1 else 0);
      ghost var initial := functionShortestPath;
      for i := 0 to |program.instrs|
        invariant Shaped() && functionShortestPath == initial
        invariant forall k :: 0 <= k < i ==> minDistToReturn[k] == if program.instrs[k].kind == Return then 1 else 0
      {
        minDistToReturn[i] := if program.instrs[i].kind == Return then 1 else 0;
      }
      StartWitnessed(program, minDistToReturn[..], functionShortestPath);
      var changed := true;
      while changed
        invariant Shaped() && Witnessed(program, minDistToReturn[..], functionShortestPath)
        invariant !changed ==> forall i :: 0 <= i < |program.instrs| ==>
                  !Improves(program, minDistToReturn[..], functionShortestPath, i)
        decreases ReturnZeros(), ReturnSum(), changed
      {
        Bounded();
        changed := SweepReturn();
      }
      FixedExact(program, minDistToReturn[..], functionShortestPath);
    }

    lemma Bounded()
      requires Shaped() && Witnessed(program, minDistToReturn[..], functionShortestPath)
      ensures ReturnSum() >= 0
    {
      SumNonNegative(minDistToReturn[..]);
      SumNonNegative(functionShortestPath);
    }

    /** One instruction of a sweep for the distance to uncovered code. The slot of a callee is read as well;
        it belongs to the function, not to its first instruction. */
    method RelaxUncovered(i: int, ghost uncovered: seq<bool>) returns (changed: bool)
      requires Shaped() && 0 <= i < |program.instrs| && |uncovered| == |program.instrs|
      requires Routed(program, functionShortestPath, uncovered, minDistToUncovered[..])
      modifies minDistToUncovered
      ensures changed <==>
              old(Nearer(program, functionShortestPath, minDistToUncovered[..], i) != minDistToUncovered[i])
      ensures minDistToUncovered[..] ==
              old(minDistToUncovered[..][i := Nearer(program, functionShortestPath, minDistToUncovered[..], i)])
    {
      assert WFInstr(program, program.instrs[i]);
      ghost var slots := minDistToUncovered[..];
      var cur := minDistToUncovered[i];
      var best := cur;
      var bestThrough := BestThrough(i);
      if program.instrs[i].kind == Call {
        var targets := program.instrs[i].targets;
        for k := 0 to |targets|
          invariant best == cur
        {
          if !program.fns[targets[k]].isDeclaration {
            var calleeDist := minDistToUncovered[|program.instrs| + targets[k]];
            assert calleeDist == slots[|program.instrs| + targets[k]];
            if calleeDist != 0 {
              calleeDist := 1 + calleeDist;
              if best == 0 || calleeDist < best {
                best := calleeDist;
              }
            }
          }
        }
      }
      if bestThrough != 0 {
        best := BestVia(minDistToUncovered, i, bestThrough, best);
      }
      changed := best != cur;
      if changed {
        minDistToUncovered[i] := best;
      }
      assert minDistToUncovered[..] == slots[i := best];
    }

    method SweepUncovered(ghost uncovered: seq<bool>) returns (changed: bool)
      requires Shaped() && |uncovered| == |program.instrs| && NonNegative(functionShortestPath)
      requires Routed(program, functionShortestPath, uncovered, minDistToUncovered[..])
      modifies minDistToUncovered
      ensures Routed(program, functionShortestPath, uncovered, minDistToUncovered[..])
      ensures changed ==>
                || Zeros(minDistToUncovered[..]) < old(Zeros(minDistToUncovered[..]))
                || (Zeros(minDistToUncovered[..]) == old(Zeros(minDistToUncovered[..])) &&
                    Sum(minDistToUncovered[..]) < old(Sum(minDistToUncovered[..])))
      ensures !changed ==> minDistToUncovered[..] == old(minDistToUncovered[..])
      ensures !changed ==> forall i :: 0 <= i < |program.instrs| ==>
                Nearer(program, functionShortestPath, minDistToUncovered[..], i) == minDistToUncovered[..][i]
    {
      hide Routed, Nearer, Zeros, Sum;
      changed := false;
      var i := |program.instrs|;
      while i > 0
        invariant 0 <= i <= |program.instrs| && Routed(program, functionShortestPath, uncovered, minDistToUncovered[..])
        invariant changed ==>
                    || Zeros(minDistToUncovered[..]) < old(Zeros(minDistToUncovered[..]))
                    || (Zeros(minDistToUncovered[..]) == old(Zeros(minDistToUncovered[..])) &&
                        Sum(minDistToUncovered[..]) < old(Sum(minDistToUncovered[..])))
        invariant !changed ==> minDistToUncovered[..] == old(minDistToUncovered[..])
        invariant !changed ==> forall j :: i <= j < |program.instrs| ==>
                    Nearer(program, functionShortestPath, minDistToUncovered[..], j) == minDistToUncovered[..][j]
      {
        i := i - 1;
        ghost var slots := minDistToUncovered[..];
        if Nearer(program, functionShortestPath, slots, i) != slots[i] {
          NearerRouted(program, functionShortestPath, uncovered, slots, i);
        }
        var c := RelaxUncovered(i, uncovered);
        if !c {
          assert minDistToUncovered[..] == slots;
        }
        changed := changed || c;
      }
    }

    /** The nearest uncovered instruction of every instruction, by the shortest ways through functions. */
    method ComputeUncovered(uncovered: seq<bool>)
      requires Shaped() && |uncovered| == |program.instrs| && NonNegative(functionShortestPath)
      modifies minDistToUncovered
      ensures NonNegative(minDistToUncovered[..])
      ensures forall i :: 0 <= i < |program.instrs| ==>
                Nearest(program, functionShortestPath, uncovered, minDistToUncovered[..], i)
      ensures DeepExactAt(program, functionShortestPath, uncovered, minDistToUncovered[..])
    {
      for i := 0 to minDistToUncovered.Length
        invariant forall k :: 0 <= k < i ==>
                  minDistToUncovered[k] == if k < |program.instrs| && uncovered[k] then 1 else 0
      {
        minDistToUncovered[i] := if i < |program.instrs| && uncovered[i] then 1 else 0;
      }
      StartRouted(program, functionShortestPath, uncovered, minDistToUncovered[..]);
      var changed := true;
      while changed
        invariant Routed(program, functionShortestPath, uncovered, minDistToUncovered[..])
        invariant !changed ==> forall i :: 0 <= i < |program.instrs| ==>
                    Nearer(program, functionShortestPath, minDistToUncovered[..], i) == minDistToUncovered[..][i]
        decreases Zeros(minDistToUncovered[..]), Sum(minDistToUncovered[..]), changed
      {
        SumNonNegative(minDistToUncovered[..]);
        changed := SweepUncovered(uncovered);
      }
      NearestExact(program, functionShortestPath, uncovered, minDistToUncovered[..]);
      DeepExact(program, functionShortestPath, uncovered, minDistToUncovered[..]);
    }

    /** The distance of a state, frame by frame from the outermost. */
    method StateDistance(pcs: seq<int>) returns (currentFrameMinDist: int)
      requires Shaped() && InRange(pcs, |program.instrs|)
      ensures currentFrameMinDist == StackDistance(minDistToReturn[..], minDistToUncovered[..], pcs)
    {
      currentFrameMinDist := 0;
      for k := 0 to |pcs|
        invariant currentFrameMinDist == StackDistance(minDistToReturn[..], minDistToUncovered[..], pcs[..k])
      {
        assert pcs[..k + 1][..k] == pcs[..k] && pcs[..k + 1][k] == pcs[k];
        currentFrameMinDist := Combined(minDistToUncovered[pcs[k]], minDistToReturn[pcs[k]], currentFrameMinDist);
      }
      assert pcs[..|pcs|] == pcs;
    }

    /** All of it, for one state: the distance is zero exactly if no uncovered code lies ahead of any frame,
        and is the least weight of a way there otherwise. */
    method ComputeReachableUncovered(uncovered: seq<bool>, pcs: seq<int>) returns (distance: int)
      requires Shaped() && |uncovered| == |program.instrs| && InRange(pcs, |program.instrs|)
      modifies minDistToReturn, minDistToUncovered, `functionShortestPath
      ensures Shaped() && forall f :: 0 <= f < |program.fns| ==> ShortestCall(program, functionShortestPath, f)
      ensures distance != 0 ==> Ahead(program, functionShortestPath, uncovered, pcs, distance)
      ensures forall w :: Ahead(program, functionShortestPath, uncovered, pcs, w) ==> 0 < distance <= w
    {
      ComputeReturns();
      ComputeUncovered(uncovered);
      distance := StateDistance(pcs);
      StackExact(program, minDistToReturn[..], functionShortestPath, uncovered, minDistToUncovered[..], pcs);
    }
  }
}
