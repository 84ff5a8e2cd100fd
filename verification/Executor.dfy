/** The steps that split, narrow and end paths: fork, branch and the symbolic switch, with a solver that
    is right about all assignments. */
module Executors {
  import opened Collections
  import opened Bits
  import opened Exprs
  import opened Create
  import opened CreateSound
  import opened CreateShape
  import opened Constraints
  import opened PathPool

  // ----- queries -----

  /** Is the expression true under every assignment that satisfies the list? */
  type Oracle = (seq<Expr>, Expr) -> bool

  ghost predicate Correct(valid: Oracle) {
    forall cs, e :: WFSet(cs) && WFConstraint(e) ==> (valid(cs, e) <==> Implies(cs, e))
  }

  ghost predicate Implies(cs: seq<Expr>, e: Expr)
    requires WFSet(cs) && WFConstraint(e)
  {
    forall a :: AllHold(cs, a) ==> Holds(e, a)
  }

  /** Some assignment satisfies the list and the expression. */
  ghost predicate Feasible(cs: seq<Expr>, e: Expr)
    requires WFSet(cs) && WFConstraint(e)
  {
    exists a :: AllHold(cs, a) && Holds(e, a)
  }

  datatype Validity = True | False | Unknown

  /** A constant answers itself; anything else is simplified with the list first. */
  predicate MustBeTrue(valid: Oracle, cs: seq<Expr>, e: Expr)
    requires WFSet(cs) && WFConstraint(e)
  {
    if e.Constant? then e.value == 1 else valid(cs, SimplifyWith(cs, e))
  }

  function Negated(e: Expr): (n: Expr)
    requires WFConstraint(e)
    ensures WFConstraint(n)
  {
    IsZeroShape(e);
    hide WF, Width, Folded, IsZero;
    IsZero(e)
  }

  predicate MayBeTrue(valid: Oracle, cs: seq<Expr>, e: Expr)
    requires WFSet(cs) && WFConstraint(e)
  {
    !MustBeTrue(valid, cs, Negated(e))
  }

  function Evaluate(valid: Oracle, cs: seq<Expr>, e: Expr): Validity
    requires WFSet(cs) && WFConstraint(e)
  {
    if e.Constant? then (if e.value == 1 then True else False)
    else
      var s := SimplifyWith(cs, e);
      if valid(cs, s) then True
      else if valid(cs, Negated(s)) then False
      else Unknown
  }

  lemma NegatedHolds(e: Expr, a: Assignment)
    requires WFConstraint(e)
    ensures Holds(Negated(e), a) <==> !Holds(e, a)
  {
    hide WF, Width, Folded, IsZero, Eval;
    IsZeroSound(e, a);
    EvalBool(e, a);
  }

  lemma NegatedTwice(e: Expr, cs: seq<Expr>)
    requires WFSet(cs) && WFConstraint(e)
    ensures Implies(cs, Negated(e)) <==> !Feasible(cs, e)
    ensures Implies(cs, e) <==> !Feasible(cs, Negated(e))
  {
    hide WF, Width, Folded, AllHold, Eval, Negated;
    forall a ensures Holds(Negated(e), a) <==> !Holds(e, a) {
      NegatedHolds(e, a);
    }
  }

  lemma SimplifiedSame(cs: seq<Expr>, e: Expr)
    requires WFSet(cs) && WFConstraint(e)
    ensures WFConstraint(SimplifyWith(cs, e)) && (Implies(cs, SimplifyWith(cs, e)) <==> Implies(cs, e))
    ensures Implies(cs, Negated(SimplifyWith(cs, e))) <==> Implies(cs, Negated(e))
  {
    hide WF, Width, Folded, AllHold, Eval, Negated, SimplifyWith;
    forall a | AllHold(cs, a)
      ensures Holds(SimplifyWith(cs, e), a) <==> Holds(e, a)
      ensures Holds(Negated(SimplifyWith(cs, e)), a) <==> Holds(Negated(e), a)
    {
      SimplifyWithSound(cs, e, a);
      NegatedHolds(e, a);
      NegatedHolds(SimplifyWith(cs, e), a);
    }
  }

  lemma ConstantHolds(e: Expr, cs: seq<Expr>)
    requires WFSet(cs) && WFConstraint(e) && e.Constant? && Satisfiable(cs)
    ensures Implies(cs, e) <==> e.value == 1
  {
    hide AllHold, Folded;
    if a :| AllHold(cs, a) && e.value != 1 {
      assert !Holds(e, a);
    }
  }

  /** On a list with a solution the answers are exact, fast path and simplification included. */
  lemma QueriesExact(valid: Oracle, cs: seq<Expr>, e: Expr)
    requires Correct(valid) && WFSet(cs) && WFConstraint(e) && Satisfiable(cs)
    ensures MustBeTrue(valid, cs, e) <==> Implies(cs, e)
    ensures MayBeTrue(valid, cs, e) <==> Feasible(cs, e)
    ensures Evaluate(valid, cs, e) == if Implies(cs, e) then True else if !Feasible(cs, e) then False else Unknown
  {
    hide WF, Width, Folded, AllHold, Eval, Negated, SimplifyWith, Implies, Feasible, Satisfiable;
    NegatedTwice(e, cs);
    SimplifiedSame(cs, e);
    SimplifiedSame(cs, Negated(e));
    if e.Constant? {
      ConstantHolds(e, cs);
      ConstantBoth(cs, e);
    }
    if Negated(e).Constant? {
      ConstantHolds(Negated(e), cs);
    }
  }

  lemma ConstantBoth(cs: seq<Expr>, e: Expr)
    requires WFSet(cs) && WFConstraint(e) && e.Constant? && Satisfiable(cs)
    ensures !Implies(cs, e) ==> !Feasible(cs, e)
  {
    hide AllHold, Folded;
  }

  // ----- states -----

  /** `cs'` means the list and the expression together. */
  ghost predicate Added(cs: seq<Expr>, e: Expr, cs': seq<Expr>)
    requires WFSet(cs) && WFConstraint(e)
  {
    WFSet(cs') && forall a :: AllHold(cs', a) <==> AllHold(cs, a) && Holds(e, a)
  }

  /** What forking needs to know of an execution state. */
  class ExecutionState {
    var pc: nat
    var constraints: seq<Expr>
    var depth: nat
    var forkDisabled: bool

    constructor (pc: nat)
      ensures this.pc == pc && constraints == [] && depth == 0 && !forkDisabled
    {
      this.pc, constraints, depth, forkDisabled := pc, [], 0, false;
    }

    constructor Copy(state: ExecutionState)
      ensures pc == state.pc && constraints == state.constraints && depth == state.depth
      ensures forkDisabled == state.forkDisabled
    {
      pc, constraints, depth, forkDisabled := state.pc, state.constraints, state.depth, state.forkDisabled;
    }

    /** Both states are one level deeper. */
    method Branch() returns (falseState: ExecutionState)
      modifies `depth
      ensures fresh(falseState) && falseState.pc == pc && falseState.constraints == constraints
      ensures falseState.depth == depth == old(depth) + 1 && falseState.forkDisabled == forkDisabled
    {
      depth := depth + 1;
      falseState := new ExecutionState.Copy(this);
    }
  }

  /** Returns false for the fatal error on a constraint that is constant false, or becomes so. */
  method Constrain(state: ExecutionState, condition: Expr) returns (ok: bool)
    requires WFSet(state.constraints) && WFConstraint(condition)
    modifies state`constraints
    ensures ok ==> Added(old(state.constraints), condition, state.constraints)
    ensures ok <==> AddConstraint(old(state.constraints), condition).Some?
    ensures Feasible(old(state.constraints), condition) ==> ok
  {
    hide AllHold, Eval, WF, Width, Folded, AddConstraint;
    ghost var cs := state.constraints;
    if condition.Constant? {
      ConstantAdded(cs, condition);
    }
    forall a
      ensures match AddConstraint(cs, condition)
              case Some(cs') => AllHold(cs', a) <==> AllHold(cs, a) && Holds(condition, a)
              case None => !(AllHold(cs, a) && Holds(condition, a))
    {
      AddConstraintExact(cs, condition, a);
    }
    if condition.Constant? {
      return condition.value == 1;
    }
    var r := AddConstraint(state.constraints, condition);
    if r.Some? {
      state.constraints := r.value;
    }
    ok := r.Some?;
  }

  lemma ConstantAdded(cs: seq<Expr>, e: Expr)
    requires WFSet(cs) && WFConstraint(e) && e.Constant?
    ensures AddConstraint(cs, e) == if e.value == 1 then Some(cs) else None
  {
    hide WF, Width, Folded;
  }

  /** Conditions of which no input of the path meets two. */
  ghost predicate Exclusive(cs: seq<Expr>, conditions: seq<Expr>)
    requires WFSet(cs) && WFSet(conditions)
  {
    forall i, j, a :: 0 <= i < j < |conditions| && AllHold(cs, a) ==>
      !(Holds(conditions[i], a) && Holds(conditions[j], a))
  }

  /** Conditions of which every input of the path meets one. */
  ghost predicate Exhaustive(cs: seq<Expr>, conditions: seq<Expr>)
    requires WFSet(cs) && WFSet(conditions)
  {
    forall a :: AllHold(cs, a) ==> exists i :: 0 <= i < |conditions| && Holds(conditions[i], a)
  }

  ghost predicate AllFeasible(cs: seq<Expr>, conditions: seq<Expr>)
    requires WFSet(cs) && WFSet(conditions)
  {
    forall i :: 0 <= i < |conditions| ==> Feasible(cs, conditions[i])
  }

  /** Each list is the path with one of the conditions. */
  ghost predicate AddedEach(cs: seq<Expr>, conditions: seq<Expr>, css: seq<seq<Expr>>)
    requires WFSet(cs) && WFSet(conditions)
  {
    |css| == |conditions| && forall i :: 0 <= i < |css| ==> Added(cs, conditions[i], css[i])
  }

  lemma ConditionsSplit(cs: seq<Expr>, conditions: seq<Expr>, css: seq<seq<Expr>>)
    requires WFSet(cs) && WFSet(conditions) && AddedEach(cs, conditions, css)
    requires Exclusive(cs, conditions) && AllFeasible(cs, conditions)
    ensures Parts(cs, css) && (Exhaustive(cs, conditions) ==> Whole(cs, css))
  {
    hide WF, Width, Folded, AllHold, Eval;
    forall i | 0 <= i < |css|
      ensures WFSet(css[i]) && Satisfiable(css[i]) && Within(css[i], cs)
    {
      assert Added(cs, conditions[i], css[i]) && Feasible(cs, conditions[i]);
      var a :| AllHold(cs, a) && Holds(conditions[i], a);
      assert AllHold(css[i], a);
    }
    forall i, j | 0 <= i < j < |css|
      ensures Disjoint(css[i], css[j])
    {
      assert Added(cs, conditions[i], css[i]) && Added(cs, conditions[j], css[j]);
    }
    if Exhaustive(cs, conditions) {
      forall a | AllHold(cs, a)
        ensures exists i :: 0 <= i < |css| && AllHold(css[i], a)
      {
        var i :| 0 <= i < |conditions| && Holds(conditions[i], a);
        assert Added(cs, conditions[i], css[i]);
        assert AllHold(css[i], a);
      }
    }
  }

  predicate OnlyAt<T>(result: seq<Option<T>>, n: nat) {
    n < |result| && forall i :: 0 <= i < |result| ==> (result[i].Some? <==> i == n)
  }

  /** A condition and its negation. */
  lemma TwoWays(cs: seq<Expr>, e: Expr)
    requires WFSet(cs) && WFConstraint(e)
    ensures WFSet([e, Negated(e)]) && Exclusive(cs, [e, Negated(e)]) && Exhaustive(cs, [e, Negated(e)])
    ensures Feasible(cs, e) && Feasible(cs, Negated(e)) ==> AllFeasible(cs, [e, Negated(e)])
  {
    hide WF, Width, Folded, AllHold, Eval, Negated;
    var both := [e, Negated(e)];
    forall a
      ensures Holds(both[0], a) <==> !Holds(both[1], a)
    {
      NegatedHolds(e, a);
    }
    forall a | AllHold(cs, a)
      ensures exists i :: 0 <= i < |both| && Holds(both[i], a)
    {
      assert Holds(both[0], a) || Holds(both[1], a);
    }
  }

  // ----- the conditions of a switch -----

  datatype Case = Case(value: Expr, block: nat)

  /** The case values are distinct constants of the width of the condition. */
  predicate WFCases(cond: Expr, cases: seq<Case>) {
    && WF(cond) && Folded(cond)
    && (forall i :: 0 <= i < |cases| ==>
          WF(cases[i].value) && cases[i].value.Constant? && Width(cases[i].value) == Width(cond))
    && forall i, j :: 0 <= i < j < |cases| ==> cases[i].value.value != cases[j].value.value
  }

  /** The block the program goes to when the condition has the value `v`. */
  function Target(cases: seq<Case>, dflt: nat, v: nat): nat {
    if cases == [] then dflt
    else if cases[0].value.Constant? && cases[0].value.value == v then cases[0].block
    else Target(cases[1..], dflt, v)
  }

  /** Whatever meets `ds` meets `cs`, and goes to the block `pc`. */
  ghost predicate RoutedTo(ds: seq<Expr>, pc: nat, cs: seq<Expr>, cond: Expr, cases: seq<Case>, dflt: nat) {
    && WFSet(ds) && WFSet(cs) && WF(cond)
    && forall a :: AllHold(ds, a) ==> AllHold(cs, a) && pc == Target(cases, dflt, Eval(cond, a))
  }

  lemma ConstantRouted(cs: seq<Expr>, cond: Expr, cases: seq<Case>, dflt: nat)
    requires WFSet(cs) && WF(cond) && cond.Constant?
    ensures RoutedTo(cs, Target(cases, dflt, cond.value), cs, cond, cases, dflt)
  {
    hide AllHold, WF, Target;
  }

  /** One of the first `n` cases has the value `v` and leads to `b`. */
  predicate Hits(cases: seq<Case>, n: nat, b: nat, v: nat) {
    exists i :: 0 <= i < n && i < |cases| && cases[i].value.Constant? && cases[i].value.value == v
      && cases[i].block == b
  }

  /** One of the first `n` cases has the value `v` and leads away from the default. */
  predicate Leaves(cases: seq<Case>, n: nat, dflt: nat, v: nat) {
    exists i :: 0 <= i < n && i < |cases| && cases[i].value.Constant? && cases[i].value.value == v
      && cases[i].block != dflt
  }

  lemma {:induction false} TargetFound(cases: seq<Case>, dflt: nat, v: nat, i: nat)
    requires i < |cases| && cases[i].value.Constant? && cases[i].value.value == v
    requires forall j, k :: 0 <= j < k < |cases| && cases[j].value.Constant? && cases[k].value.Constant? ==>
               cases[j].value.value != cases[k].value.value
    ensures Target(cases, dflt, v) == cases[i].block
  {
    if i > 0 {
      assert cases[1..][i - 1] == cases[i];
      TargetFound(cases[1..], dflt, v, i - 1);
    }
  }

  lemma {:induction false} TargetMissing(cases: seq<Case>, dflt: nat, v: nat)
    requires forall i :: 0 <= i < |cases| && cases[i].value.Constant? ==> cases[i].value.value != v
    ensures Target(cases, dflt, v) == dflt
  {
    if cases != [] {
      TargetMissing(cases[1..], dflt, v);
    }
  }

  /** What the grouped cases say of the block. */
  lemma TargetGroups(cond: Expr, cases: seq<Case>, dflt: nat, v: nat)
    requires WFCases(cond, cases)
    ensures forall b :: b != dflt ==> (Target(cases, dflt, v) == b <==> Hits(cases, |cases|, b, v))
    ensures Target(cases, dflt, v) == dflt <==> !Leaves(cases, |cases|, dflt, v)
  {
    hide WF, Width, Folded;
    if i :| 0 <= i < |cases| && cases[i].value.value == v {
      TargetFound(cases, dflt, v, i);
    } else {
      TargetMissing(cases, dflt, v);
    }
  }

  /** The expression holds on the path exactly where one of the first `n` cases leads to `b`. */
  ghost predicate Leads(cs: seq<Expr>, cond: Expr, cases: seq<Case>, n: nat, b: nat, e: Expr)
    requires WFSet(cs) && WF(cond)
  {
    WFConstraint(e) && forall a :: AllHold(cs, a) ==> (Holds(e, a) <==> Hits(cases, n, b, Eval(cond, a)))
  }

  /** On the path no case that leads to `b` is taken. */
  ghost predicate Unreached(cs: seq<Expr>, cond: Expr, cases: seq<Case>, n: nat, b: nat)
    requires WFSet(cs) && WF(cond)
  {
    forall a :: AllHold(cs, a) ==> !Hits(cases, n, b, Eval(cond, a))
  }

  ghost predicate Stays(cond: Expr, cases: seq<Case>, n: nat, dflt: nat, e: Expr)
    requires WF(cond)
  {
    WFConstraint(e) && forall a :: Holds(e, a) <==> !Leaves(cases, n, dflt, Eval(cond, a))
  }

  /** The match of one case. */
  ghost predicate Matches(cond: Expr, value: Expr, e: Expr)
    requires WF(cond) && value.Constant?
  {
    WFConstraint(e) && forall a :: Holds(e, a) <==> Eval(cond, a) == value.value
  }

  lemma MatchExact(cond: Expr, value: Expr)
    requires WF(cond) && Folded(cond) && WF(value) && value.Constant? && Width(value) == Width(cond)
    ensures Matches(cond, value, EqCreate(cond, value))
  {
    EqShape(cond, value) by { FoldedConst(value); }
    hide WF, Width, Folded, EqCreate, Eval;
    forall a ensures Holds(EqCreate(cond, value), a) <==> Eval(cond, a) == value.value {
      EqSound(cond, value, a);
      ConstValue(value, a);
    }
  }

  lemma HitsStep(cond: Expr, cases: seq<Case>, n: nat, dflt: nat, b: nat, v: nat)
    requires WFCases(cond, cases) && n < |cases|
    ensures Hits(cases, n + 1, b, v) <==> Hits(cases, n, b, v) || (cases[n].value.value == v && cases[n].block == b)
    ensures Leaves(cases, n + 1, dflt, v) <==>
            Leaves(cases, n, dflt, v) || (cases[n].value.value == v && cases[n].block != dflt)
  {
    hide WF, Width, Folded;
    assert cases[n].value.Constant?;
    if cases[n].value.value == v && cases[n].block == b {
      assert Hits(cases, n + 1, b, v);
    }
    if cases[n].value.value == v && cases[n].block != dflt {
      assert Leaves(cases, n + 1, dflt, v);
    }
  }

  /** After `n` cases: each block in `bbOrder` has the condition that leads to it, no other block but the
      default is reached, and `stay` is the condition of the default. */
  ghost predicate Grouped(cs: seq<Expr>, cond: Expr, cases: seq<Case>, n: nat, dflt: nat, bbOrder: seq<nat>,
                          targets: map<nat, Expr>)
    requires WFSet(cs) && WF(cond)
  {
    && Distinct(bbOrder) && Elems(bbOrder) == targets.Keys && dflt !in targets
    && (forall b :: b in targets ==> Leads(cs, cond, cases, n, b, targets[b]) && Feasible(cs, targets[b]))
    && forall b :: b != dflt && b !in targets ==> Unreached(cs, cond, cases, n, b)
  }

  lemma UnreachedLeads(cs: seq<Expr>, cond: Expr, cases: seq<Case>, n: nat, b: nat)
    requires WFSet(cs) && WF(cond) && Unreached(cs, cond, cases, n, b)
    ensures Leads(cs, cond, cases, n, b, FALSE)
  {
    hide AllHold, WFSet, Hits;
    assert WFConstraint(FALSE);
    assert forall a :: !Holds(FALSE, a);
  }

  /** A case that leads elsewhere, or that the path rules out, changes nothing for the block. */
  lemma LeadsStill(cs: seq<Expr>, cond: Expr, cases: seq<Case>, n: nat, b: nat, match_: Expr)
    requires WFSet(cs) && WFCases(cond, cases) && n < |cases| && Matches(cond, cases[n].value, match_)
    requires cases[n].block != b || !Feasible(cs, match_)
    ensures forall e :: Leads(cs, cond, cases, n, b, e) ==> Leads(cs, cond, cases, n + 1, b, e)
    ensures Unreached(cs, cond, cases, n, b) ==> Unreached(cs, cond, cases, n + 1, b)
  {
    hide AllHold, WFSet, Hits, Leaves, WF, Width, Folded, Eval;
    forall a | AllHold(cs, a)
      ensures Hits(cases, n + 1, b, Eval(cond, a)) <==> Hits(cases, n, b, Eval(cond, a))
    {
      HitsStep(cond, cases, n, b, b, Eval(cond, a));
    }
  }

  /** A feasible case is joined to the condition of its block. */
  lemma LeadsMore(cs: seq<Expr>, cond: Expr, cases: seq<Case>, n: nat, b: nat, match_: Expr, e: Expr)
    requires WFSet(cs) && WFCases(cond, cases) && n < |cases| && Matches(cond, cases[n].value, match_)
    requires cases[n].block == b && Leads(cs, cond, cases, n, b, e) && Feasible(cs, match_)
    ensures Typed(match_, e) && Leads(cs, cond, cases, n + 1, b, OrCreate(match_, e))
            && Feasible(cs, OrCreate(match_, e))
  {
    hide AllHold, WFSet, Hits, Leaves, WF, Width, Folded, Eval, OrCreate;
    OrShape(match_, e);
    forall a
      ensures Holds(OrCreate(match_, e), a) <==> Holds(match_, a) || Holds(e, a)
      ensures Hits(cases, n + 1, b, Eval(cond, a)) <==>
              Hits(cases, n, b, Eval(cond, a)) || Eval(cond, a) == cases[n].value.value
    {
      OrHolds(match_, e, a);
      HitsStep(cond, cases, n, b, b, Eval(cond, a));
    }
    var a :| AllHold(cs, a) && Holds(match_, a);
    assert AllHold(cs, a) && Holds(OrCreate(match_, e), a);
  }

  lemma StaysStep(cond: Expr, cases: seq<Case>, n: nat, dflt: nat, match_: Expr, e: Expr)
    requires WFCases(cond, cases) && n < |cases| && Matches(cond, cases[n].value, match_)
             && Stays(cond, cases, n, dflt, e)
    ensures cases[n].block == dflt ==> Stays(cond, cases, n + 1, dflt, e)
    ensures Typed(e, Negated(match_))
    ensures cases[n].block != dflt ==> Stays(cond, cases, n + 1, dflt, AndCreate(e, Negated(match_)))
  {
    hide AllHold, WFSet, Hits, Leaves, WF, Width, Folded, Eval, AndCreate, Negated;
    AndShape(e, Negated(match_));
    forall a
      ensures Leaves(cases, n + 1, dflt, Eval(cond, a)) <==>
              Leaves(cases, n, dflt, Eval(cond, a)) || (Eval(cond, a) == cases[n].value.value && cases[n].block != dflt)
      ensures Holds(AndCreate(e, Negated(match_)), a) <==> Holds(e, a) && !Holds(match_, a)
    {
      AndHolds(e, Negated(match_), a);
      NegatedHolds(match_, a);
      HitsStep(cond, cases, n, dflt, dflt, Eval(cond, a));
    }
  }

  lemma GroupedStart(cs: seq<Expr>, cond: Expr, cases: seq<Case>, dflt: nat)
    requires WFSet(cs) && WFCases(cond, cases)
    ensures Grouped(cs, cond, cases, 0, dflt, [], map[]) && Stays(cond, cases, 0, dflt, TRUE)
  {
    hide AllHold, WFSet;
    assert WFConstraint(TRUE);
    assert forall a :: Holds(TRUE, a);
  }

  /** A case that goes to the default, or that the path rules out. */
  lemma GroupedSkip(cs: seq<Expr>, cond: Expr, cases: seq<Case>, n: nat, dflt: nat, bbOrder: seq<nat>,
                    targets: map<nat, Expr>, match_: Expr)
    requires WFSet(cs) && WFCases(cond, cases) && n < |cases| && Matches(cond, cases[n].value, match_)
    requires Grouped(cs, cond, cases, n, dflt, bbOrder, targets)
    requires cases[n].block == dflt || !Feasible(cs, match_)
    ensures Grouped(cs, cond, cases, n + 1, dflt, bbOrder, targets)
  {
    hide AllHold, WFSet, Leads, Unreached, Feasible, Matches, WF, Width, Folded, Distinct, Elems;
    forall b | b != dflt
      ensures b in targets ==> Leads(cs, cond, cases, n + 1, b, targets[b])
      ensures b !in targets ==> Unreached(cs, cond, cases, n + 1, b)
    {
      LeadsStill(cs, cond, cases, n, b, match_);
    }
  }

  /** A feasible case away from the default: the condition of its block grows, or a block is added. */
  lemma GroupedTake(cs: seq<Expr>, cond: Expr, cases: seq<Case>, n: nat, dflt: nat, bbOrder: seq<nat>,
                    targets: map<nat, Expr>, match_: Expr)
    requires WFSet(cs) && WFCases(cond, cases) && n < |cases| && Matches(cond, cases[n].value, match_)
    requires Grouped(cs, cond, cases, n, dflt, bbOrder, targets)
    requires cases[n].block != dflt && Feasible(cs, match_)
    ensures var b := cases[n].block;
            var e := if b in targets then targets[b] else FALSE;
            && Typed(match_, e)
            && Grouped(cs, cond, cases, n + 1, dflt,
                       if b in targets then bbOrder else bbOrder + [b], targets[b := OrCreate(match_, e)])
  {
    hide AllHold, WFSet, Leads, Unreached, Feasible, Matches, WF, Width, Folded, OrCreate;
    var b := cases[n].block;
    var e := if b in targets then targets[b] else FALSE;
    if b !in targets {
      UnreachedLeads(cs, cond, cases, n, b);
      ElemsSnoc(bbOrder, b);
    }
    LeadsMore(cs, cond, cases, n, b, match_, e);
    hide Distinct, Elems;
    forall x | x != dflt && x != b
      ensures x in targets ==> Leads(cs, cond, cases, n + 1, x, targets[x])
      ensures x !in targets ==> Unreached(cs, cond, cases, n + 1, x)
    {
      LeadsStill(cs, cond, cases, n, x, match_);
    }
  }

  lemma ElemsSnoc(s: seq<nat>, x: nat)
    ensures Elems(s + [x]) == Elems(s) + {x} && (Distinct(s) && x !in Elems(s) ==> Distinct(s + [x]))
  {
  }

  /** The k-th condition holds on the path exactly where the program goes to the k-th block. */
  ghost predicate Routes(cs: seq<Expr>, cond: Expr, cases: seq<Case>, dflt: nat, bbOrder: seq<nat>,
                         conditions: seq<Expr>)
    requires WFSet(cs) && WF(cond)
  {
    && |bbOrder| == |conditions| && Distinct(bbOrder) && WFSet(conditions)
    && (forall k, a :: 0 <= k < |conditions| && AllHold(cs, a) ==>
          (Holds(conditions[k], a) <==> Target(cases, dflt, Eval(cond, a)) == bbOrder[k]))
    && forall a :: AllHold(cs, a) ==> Target(cases, dflt, Eval(cond, a)) in bbOrder
  }

  lemma RoutesSplit(cs: seq<Expr>, cond: Expr, cases: seq<Case>, dflt: nat, bbOrder: seq<nat>, conditions: seq<Expr>)
    requires WFSet(cs) && WF(cond) && Routes(cs, cond, cases, dflt, bbOrder, conditions)
    ensures WFSet(conditions) && Exclusive(cs, conditions) && Exhaustive(cs, conditions)
    ensures Satisfiable(cs) ==> conditions != []
  {
    hide AllHold, WF, Width, Folded, Eval, Target, Exclusive, Exhaustive;
    RoutesExclusive(cs, cond, cases, dflt, bbOrder, conditions);
    RoutesExhaustive(cs, cond, cases, dflt, bbOrder, conditions);
    if Satisfiable(cs) {
      var a :| AllHold(cs, a);
      assert Target(cases, dflt, Eval(cond, a)) in bbOrder;
    }
  }

  lemma RoutesExclusive(cs: seq<Expr>, cond: Expr, cases: seq<Case>, dflt: nat, bbOrder: seq<nat>,
                        conditions: seq<Expr>)
    requires WFSet(cs) && WF(cond) && Routes(cs, cond, cases, dflt, bbOrder, conditions)
    ensures Exclusive(cs, conditions)
  {
    hide AllHold, WF, Width, Folded, Eval, Target;
    forall i, j, a | 0 <= i < j < |conditions| && AllHold(cs, a)
      ensures !(Holds(conditions[i], a) && Holds(conditions[j], a))
    {
      assert bbOrder[i] != bbOrder[j];
    }
  }

  lemma RoutesExhaustive(cs: seq<Expr>, cond: Expr, cases: seq<Case>, dflt: nat, bbOrder: seq<nat>,
                         conditions: seq<Expr>)
    requires WFSet(cs) && WF(cond) && Routes(cs, cond, cases, dflt, bbOrder, conditions)
    ensures Exhaustive(cs, conditions)
  {
    hide AllHold, WF, Width, Folded, Eval, Target;
    forall a | AllHold(cs, a)
      ensures exists k :: 0 <= k < |conditions| && Holds(conditions[k], a)
    {
      var k :| 0 <= k < |bbOrder| && bbOrder[k] == Target(cases, dflt, Eval(cond, a));
      assert Holds(conditions[k], a);
    }
  }

  function Picked(targets: map<nat, Expr>, bbOrder: seq<nat>): (r: seq<Expr>)
    requires forall b :: b in bbOrder ==> b in targets
    ensures |r| == |bbOrder| && forall k :: 0 <= k < |r| ==> r[k] == targets[bbOrder[k]]
  {
    seq(|bbOrder|, k requires 0 <= k < |bbOrder| => targets[bbOrder[k]])
  }

  /** On the path the block's condition holds exactly where the program goes there. */
  ghost predicate Follows(cs: seq<Expr>, cond: Expr, cases: seq<Case>, dflt: nat, b: nat, e: Expr)
    requires WFSet(cs) && WF(cond)
  {
    WFConstraint(e) && forall a :: AllHold(cs, a) ==> (Holds(e, a) <==> Target(cases, dflt, Eval(cond, a)) == b)
  }

  ghost predicate FollowsAll(cs: seq<Expr>, cond: Expr, cases: seq<Case>, dflt: nat, targets: map<nat, Expr>)
    requires WFSet(cs) && WF(cond)
  {
    && (forall b :: b in targets ==> Follows(cs, cond, cases, dflt, b, targets[b]) && Feasible(cs, targets[b]))
    && forall a :: AllHold(cs, a) ==> Target(cases, dflt, Eval(cond, a)) in targets
  }

  /** The groups, with the default if the path can reach it, hold exactly where the program goes to
      their blocks. */
  lemma GroupTargets(cs: seq<Expr>, cond: Expr, cases: seq<Case>, dflt: nat, bbOrder: seq<nat>,
                     targets: map<nat, Expr>, stay: Expr)
    requires WFSet(cs) && WFCases(cond, cases) && Grouped(cs, cond, cases, |cases|, dflt, bbOrder, targets)
    requires Stays(cond, cases, |cases|, dflt, stay)
    ensures WFConstraint(stay)
    ensures if Feasible(cs, stay) then FollowsAll(cs, cond, cases, dflt, targets[dflt := stay])
            else FollowsAll(cs, cond, cases, dflt, targets)
  {
    hide AllHold, WF, Width, Folded, Eval, Target, Hits, Leaves, Elems, Distinct, Feasible;
    StaysTyped(cond, cases, dflt, stay);
    forall b | b in targets
      ensures b != dflt && Feasible(cs, targets[b]) && Follows(cs, cond, cases, dflt, b, targets[b])
    {
      assert Leads(cs, cond, cases, |cases|, b, targets[b]);
      forall a | AllHold(cs, a)
        ensures Holds(targets[b], a) <==> Target(cases, dflt, Eval(cond, a)) == b
      {
        TargetGroups(cond, cases, dflt, Eval(cond, a));
      }
    }
    if !Feasible(cs, stay) {
      NeverFeasible(cs, stay);
    }
    forall a | AllHold(cs, a)
      ensures Holds(stay, a) <==> Target(cases, dflt, Eval(cond, a)) == dflt
      ensures Target(cases, dflt, Eval(cond, a)) in targets || Target(cases, dflt, Eval(cond, a)) == dflt
    {
      TargetGroups(cond, cases, dflt, Eval(cond, a));
      var b := Target(cases, dflt, Eval(cond, a));
      assert b != dflt && b !in targets ==> Unreached(cs, cond, cases, |cases|, b);
    }
  }

  lemma GroupedOrder(cs: seq<Expr>, cond: Expr, cases: seq<Case>, dflt: nat, bbOrder: seq<nat>, targets: map<nat, Expr>)
    requires WFSet(cs) && WF(cond) && Grouped(cs, cond, cases, |cases|, dflt, bbOrder, targets)
    ensures (forall b :: b in bbOrder <==> b in targets) && Distinct(bbOrder) && Distinct(bbOrder + [dflt])
  {
    hide Leads, Unreached, WF, AllHold;
    InElems(bbOrder);
    ElemsSnoc(bbOrder, dflt);
  }

  /** With or without the default, the groups are the routes of the program. */
  lemma GroupedRoutes(cs: seq<Expr>, cond: Expr, cases: seq<Case>, dflt: nat, bbOrder: seq<nat>,
                      targets: map<nat, Expr>, stay: Expr)
    requires WFSet(cs) && WFCases(cond, cases) && Grouped(cs, cond, cases, |cases|, dflt, bbOrder, targets)
    requires Stays(cond, cases, |cases|, dflt, stay)
    ensures WFConstraint(stay)
    ensures (forall b :: b in bbOrder ==> b in targets)
            && (forall b :: b in bbOrder + [dflt] ==> b in targets[dflt := stay])
    ensures Feasible(cs, stay) ==>
              && Routes(cs, cond, cases, dflt, bbOrder + [dflt], Picked(targets[dflt := stay], bbOrder + [dflt]))
              && AllFeasible(cs, Picked(targets[dflt := stay], bbOrder + [dflt]))
    ensures !Feasible(cs, stay) ==>
              && Routes(cs, cond, cases, dflt, bbOrder, Picked(targets, bbOrder))
              && AllFeasible(cs, Picked(targets, bbOrder))
  {
    GroupedOrder(cs, cond, cases, dflt, bbOrder, targets);
    GroupTargets(cs, cond, cases, dflt, bbOrder, targets, stay);
    hide Grouped, Stays, AllHold, WF, Width, Folded, Eval, Target, Elems, Distinct, Routes, FollowsAll, Feasible,
         AllFeasible;
    if Feasible(cs, stay) {
      PickedRoutes(cs, cond, cases, dflt, bbOrder + [dflt], targets[dflt := stay]);
    } else {
      PickedRoutes(cs, cond, cases, dflt, bbOrder, targets);
    }
  }

  lemma PickedRoutes(cs: seq<Expr>, cond: Expr, cases: seq<Case>, dflt: nat, order: seq<nat>, targets: map<nat, Expr>)
    requires WFSet(cs) && WF(cond) && Distinct(order) && forall b :: b in order <==> b in targets
    requires FollowsAll(cs, cond, cases, dflt, targets)
    ensures Routes(cs, cond, cases, dflt, order, Picked(targets, order)) && AllFeasible(cs, Picked(targets, order))
  {
    hide AllHold, WF, Width, Folded, Eval, Target, Elems, Distinct, Feasible;
    var conditions := Picked(targets, order);
    forall k | 0 <= k < |order|
      ensures Follows(cs, cond, cases, dflt, order[k], conditions[k]) && Feasible(cs, conditions[k])
    {
      assert order[k] in targets;
    }
  }

  lemma NeverFeasible(cs: seq<Expr>, e: Expr)
    requires WFSet(cs) && WFConstraint(e) && !Feasible(cs, e)
    ensures forall a :: AllHold(cs, a) ==> !Holds(e, a)
  {
  }

  lemma InElems(s: seq<nat>)
    ensures forall x :: x in s <==> x in Elems(s)
  {
  }

  /** New states wait in `added`, and ended ones stay among the states until the next update. */
  ghost predicate Books(live: set<ExecutionState>, states: set<ExecutionState>, added: seq<ExecutionState>,
                        removed: seq<ExecutionState>)
  {
    && live == (states - Elems(removed)) + Elems(added)
    && Elems(added) !! states && Elems(removed) <= states && Distinct(added) && Distinct(removed)
  }

  class Executor {
    const valid: Oracle
    const maxDepth: nat
    const maxForks: Option<nat>
    var inhibitForking: bool
    var forks: nat
    var states: set<ExecutionState>
    var addedStates: seq<ExecutionState>
    var removedStates: seq<ExecutionState>
    /** The states that have not been terminated, and the path conditions of those that have. */
    ghost var live: set<ExecutionState>
    ghost var ended: seq<seq<Expr>>

    ghost function Paths(): Pool<ExecutionState>
      reads this, live
    {
      Pool(map s | s in live :: s.constraints, ended)
    }

    ghost predicate Bookkeeping()
      reads this
    {
      Books(live, states, addedStates, removedStates)
    }

    ghost predicate Valid()
      reads this, live
    {
      Bookkeeping() && Sound(Paths()) && Correct(valid) && forall s :: s in live ==> WFSet(s.constraints)
    }

    constructor (valid: Oracle, maxDepth: nat, maxForks: Option<nat>, initial: ExecutionState)
      requires Correct(valid) && initial.constraints == []
      ensures Valid() && live == {initial} && forall a :: Covers(Paths(), a)
    {
      hide AllHold, Correct;
      this.valid, this.maxDepth, this.maxForks := valid, maxDepth, maxForks;
      inhibitForking, forks := false, 0;
      states, addedStates, removedStates := {initial}, [], [];
      live, ended := {initial}, [];
      new;
      StartSound(initial);
      ghost var start: Pool<ExecutionState> := Pool(map[initial := []], []);
      assert Paths() == start;
    }

    /** A state that never reached the searcher goes at once, any other is marked for removal. */
    method TerminateState(state: ExecutionState)
      requires Valid() && state in live
      modifies this
      ensures Valid() && live == old(live) - {state} && ended == old(ended) + [state.constraints]
      ensures SameCover(old(Paths()), Paths()) && states == old(states)
      ensures forks == old(forks) && inhibitForking == old(inhibitForking)
    {
      hide AllHold, Correct, Sound, SameCover;
      ghost var p := Paths();
      var it := 0;
      while it < |addedStates| && addedStates[it] != state
        invariant it <= |addedStates| && forall j :: 0 <= j < it ==> addedStates[j] != state
      {
        it := it + 1;
      }
      if it == |addedStates| {
        removedStates := removedStates + [state];
      } else {
        addedStates := addedStates[..it] + addedStates[it + 1..];
      }
      live, ended := live - {state}, ended + [state.constraints];
      assert Paths() == Pool(p.live - {state}, p.ended + [p.live[state]]);
      EndKeeps(p, state, Paths());
    }

    method UpdateStates()
      requires Valid()
      modifies this
      ensures Valid() && states == live == old(live) && addedStates == removedStates == []
      ensures Paths() == old(Paths())
      ensures forks == old(forks) && inhibitForking == old(inhibitForking)
    {
      hide AllHold, Correct, Sound;
      states := states + Elems(addedStates);
      addedStates := [];
      for i := 0 to |removedStates|
        invariant removedStates == old(removedStates) && addedStates == [] && live == old(live) && ended == old(ended)
        invariant states == (old(states) + Elems(old(addedStates))) - Elems(removedStates[..i])
        invariant forks == old(forks) && inhibitForking == old(inhibitForking)
      {
        assert removedStates[i] in states;
        assert removedStates[..i + 1] == removedStates[..i] + [removedStates[i]];
        states := states - {removedStates[i]};
      }
      assert removedStates[..|removedStates|] == removedStates;
      removedStates := [];
      assert Paths() == old(Paths());
    }

    // ----- branch -----

    predicate LimitReached()
      reads this
    {
      maxForks.Some? && forks >= maxForks.value
    }

    /** `n` states with the constraints of the first: itself, and copies of states made before. */
    method Copies(state: ExecutionState, n: nat, rng: nat -> nat) returns (result: seq<ExecutionState>)
      requires 0 < n
      modifies `addedStates, state`depth
      ensures |result| == n && result[0] == state && addedStates == old(addedStates) + result[1..]
      ensures Distinct(result)
      ensures forall i :: 0 < i < n ==> fresh(result[i])
      ensures forall i :: 0 <= i < n ==> result[i].constraints == state.constraints
    {
      result := [state];
      for i := 1 to n
        invariant |result| == i && result[0] == state && addedStates == old(addedStates) + result[1..]
        invariant forall k, j :: 0 <= k < j < i ==> result[k] != result[j]
        invariant forall k :: 0 < k < i ==> fresh(result[k])
        invariant forall k :: 0 <= k < i ==> result[k].constraints == state.constraints
      {
        var es := result[rng(i) % i];
        var ns := es.Branch();
        addedStates := addedStates + [ns];
        result := result + [ns];
      }
    }

    /** Each state narrowed to its own condition; with feasible conditions the fatal error never occurs. */
    static method ConstrainEach(result: seq<ExecutionState>, conditions: seq<Expr>, ghost cs: seq<Expr>)
      requires |result| == |conditions| && WFSet(cs) && WFSet(conditions) && AllFeasible(cs, conditions)
      requires Distinct(result)
      requires forall i :: 0 <= i < |result| ==> result[i].constraints == cs
      modifies set i | 0 <= i < |result| :: result[i]
      ensures forall i :: 0 <= i < |result| ==> Added(cs, conditions[i], result[i].constraints)
    {
      hide AllHold, Added, Feasible, WF, Width, Folded;
      for i := 0 to |result|
        invariant forall k :: 0 <= k < i ==> Added(cs, conditions[k], result[k].constraints)
        invariant forall k :: i <= k < |result| ==> result[k].constraints == cs
      {
        var ok := Constrain(result[i], conditions[i]);
        assert ok;
      }
    }

    static ghost function Lists(result: seq<ExecutionState>): (css: seq<seq<Expr>>)
      reads result
      ensures |css| == |result| && forall i :: 0 <= i < |css| ==> css[i] == result[i].constraints
    {
      seq(|result|, i requires 0 <= i < |result| reads result => result[i].constraints)
    }

    /** The path of a live state replaced by its parts, of which all but the first are new states. */
    ghost method Replace(p: Pool<ExecutionState>, state: ExecutionState, result: seq<ExecutionState>,
                         conditions: seq<Expr>)
      requires Sound(p) && Correct(valid) && state in p.live && WFSet(p.live[state]) && p.ended == ended
               && p.live.Keys == live
      requires WFSet(conditions) && |result| == |conditions| && result != [] && result[0] == state
      requires Distinct(result)
      requires forall i :: 0 < i < |result| ==> result[i] !in live
      requires forall s :: s in live && s != state ==> s.constraints == p.live[s]
      requires forall i :: 0 <= i < |result| ==> Added(p.live[state], conditions[i], result[i].constraints)
      requires Exclusive(p.live[state], conditions) && AllFeasible(p.live[state], conditions)
      requires Books(live + Elems(result), states, addedStates, removedStates)
      modifies `live
      ensures Valid() && live == old(live) + Elems(result)
      ensures forall a :: Covers(Paths(), a) ==> Covers(p, a)
      ensures Exhaustive(p.live[state], conditions) ==> SameCover(p, Paths())
    {
      hide AllHold, Added, Feasible, WF, Width, Folded, Sound, Exclusive, Exhaustive, AllFeasible, Correct;
      hide Books, Parts, Whole, Replaced, Covers, SameCover, Distinct, Elems;
      var css := Lists(result);
      ConditionsSplit(p.live[state], conditions, css);
      live := live + Elems(result);
      ReplacedPaths(p, state, result, css);
      SplitKeeps(p, state, result, css, Paths());
      SoundTyped();
    }

    lemma ReplacedPaths(p: Pool<ExecutionState>, state: ExecutionState, result: seq<ExecutionState>,
                        css: seq<seq<Expr>>)
      requires state in p.live && p.ended == ended && p.live.Keys + Elems(result) == live
      requires |css| == |result| && result != [] && result[0] == state
      requires Distinct(result)
      requires forall i :: 0 < i < |result| ==> result[i] !in p.live
      requires forall s :: s in p.live && s != state ==> s.constraints == p.live[s]
      requires forall i :: 0 <= i < |result| ==> css[i] == result[i].constraints
      ensures Replaced(p, state, result, css, Paths())
    {
      assert forall i :: 0 <= i < |result| ==> result[i] in Elems(result);
      assert forall t :: t in Elems(result) ==> t in result;
    }

    lemma SoundTyped()
      requires Sound(Paths())
      ensures forall s :: s in live ==> WFSet(s.constraints)
    {
      forall s | s in live ensures WFSet(s.constraints) {
        assert Paths().live[s] == s.constraints;
      }
    }

    /** Narrows the state to one condition. */
    method TakeOne(state: ExecutionState, condition: Expr)
      requires Valid() && state in live && WFConstraint(condition) && Feasible(state.constraints, condition)
      modifies state, `live
      ensures live == old(live)
      ensures Valid() && Added(old(state.constraints), condition, state.constraints)
      ensures forall a :: Covers(Paths(), a) ==> old(Covers(Paths(), a))
      ensures old(Implies(state.constraints, condition)) ==> SameCover(old(Paths()), Paths())
    {
      ghost var p, cs := Paths(), state.constraints;
      assert p.live[state] == cs;
      OneCondition(cs, condition);
      hide AllHold, Added, Feasible, WF, Width, Folded, Sound, Exclusive, Exhaustive, AllFeasible, Correct, Covers,
           SameCover, Implies;
      hide WFConstraint, WFSet, Books, Distinct, Elems;
      OneState(live, state);
      var ok := Constrain(state, condition);
      Replace(p, state, [state], [condition]);
    }

    /** All conditions, each with a state of its own. */
    method TakeAll(state: ExecutionState, conditions: seq<Expr>, rng: nat -> nat) returns (result: seq<ExecutionState>)
      requires Valid() && state in live && conditions != [] && WFSet(conditions)
      requires Exclusive(state.constraints, conditions) && AllFeasible(state.constraints, conditions)
      modifies `addedStates, `live, state
      ensures Valid() && |result| == |conditions| && result[0] == state && Distinct(result)
      ensures forall i :: 0 <= i < |result| ==> Added(old(state.constraints), conditions[i], result[i].constraints)
      ensures forall i :: 0 < i < |result| ==> fresh(result[i])
      ensures live == old(live) + Elems(result)
      ensures forall a :: Covers(Paths(), a) ==> old(Covers(Paths(), a))
      ensures old(Exhaustive(state.constraints, conditions)) ==> SameCover(old(Paths()), Paths())
    {
      ghost var p, cs := Paths(), state.constraints;
      assert p.live[state] == cs;
      hide AllHold, Added, Feasible, WF, Width, Folded, Sound, Exclusive, Exhaustive, AllFeasible, Correct, Covers,
           SameCover;
      hide WFConstraint, WFSet;
      result := Copies(state, |conditions|, rng);
      assert Books(live + Elems(result), states, addedStates, removedStates) by {
        BooksGrow(live, states, old(addedStates), removedStates, result);
      }
      hide Books, Distinct, Elems;
      ConstrainEach(result, conditions, cs);
      Replace(p, state, result, conditions);
    }

    /** The state takes one of the conditions and new states the others; at the fork limit one condition is
        picked. The conditions must exclude each other, as the seeding code says, and be feasible. */
    method Branch(state: ExecutionState, conditions: seq<Expr>, rng: nat -> nat)
      returns (result: seq<Option<ExecutionState>>)
      requires Valid() && state in live && conditions != [] && WFSet(conditions)
      requires Exclusive(state.constraints, conditions) && AllFeasible(state.constraints, conditions)
      modifies this, state
      ensures Valid() && |result| == |conditions|
      ensures forall i :: 0 <= i < |result| && result[i].Some? ==>
                result[i].value in live && (result[i].value == state || fresh(result[i].value)) &&
                Added(old(state.constraints), conditions[i], result[i].value.constraints)
      ensures forall i, j :: 0 <= i < j < |result| && result[i].Some? && result[j].Some? ==> result[i] != result[j]
      ensures old(LimitReached()) ==> exists n :: OnlyAt(result, n)
      ensures !old(LimitReached()) ==> forall i :: 0 <= i < |result| ==> result[i].Some?
      ensures forall a :: Covers(Paths(), a) ==> old(Covers(Paths(), a))
      ensures !old(LimitReached()) && old(Exhaustive(state.constraints, conditions)) ==>
              SameCover(old(Paths()), Paths())
      ensures old(live) <= live && ended == old(ended)
      ensures forall s :: s in live ==> (s in old(live) && s != state) || Some(s) in result
    {
      hide AllHold, Added, Feasible, WF, Width, Folded, WFConstraint, Sound, Exclusive, Exhaustive, Correct, Covers,
           SameCover, Books;
      if LimitReached() {
        var next := rng(0) % |conditions|;
        result := seq(|conditions|, i => if i == next then Some(state) else None);
        assert OnlyAt(result, next);
        TakeOne(state, conditions[next]);
      } else {
        forks := forks + |conditions| - 1;
        assert Paths() == old(Paths());
        var all := TakeAll(state, conditions, rng);
        assert forall i :: 0 <= i < |all| ==> all[i] in Elems(all);
        result := seq(|conditions|, i requires 0 <= i < |all| => Some(all[i]));
        assert forall i :: 0 <= i < |all| ==> result[i] == Some(all[i]);
      }
    }

    // ----- fork -----

    predicate Inhibited(current: ExecutionState, memoryInhibit: bool)
      reads this, current
    {
      memoryInhibit || current.forkDisabled || inhibitForking || LimitReached()
    }

    method EndBoth(s: ExecutionState, t: ExecutionState)
      requires Valid() && s in live && t in live && s != t
      modifies this
      ensures Valid() && SameCover(old(Paths()), Paths()) && live == old(live) - {s, t}
    {
      hide SameCover, Covers, Books, Correct, AllHold;
      ghost var o := Paths();
      TerminateState(s);
      ghost var p := Paths();
      TerminateState(t);
      SameCoverTwice(o, p, Paths());
    }

    /** The state takes one side of the condition, and a new one the other. */
    method Split(current: ExecutionState, condition: Expr) returns (falseState: ExecutionState)
      requires Valid() && current in live && WFConstraint(condition)
      requires Feasible(current.constraints, condition) && Feasible(current.constraints, Negated(condition))
      modifies this, current
      ensures Valid() && SameCover(old(Paths()), Paths())
      ensures fresh(falseState) && live == old(live) + {falseState}
      ensures Added(old(current.constraints), condition, current.constraints)
      ensures Added(old(current.constraints), Negated(condition), falseState.constraints)
    {
      TwoWays(current.constraints, condition);
      hide AllHold, Added, Feasible, WF, Width, Folded, WFConstraint, Sound, Exclusive, Exhaustive, Correct, Covers;
      hide SameCover, Books, Negated, WFSet, AllFeasible, Elems, Distinct, LimitReached;
      forks := forks + 1;
      assert Paths() == old(Paths());
      var both := TakeAll(current, [condition, Negated(condition)], i => 0);
      falseState := both[1];
      TwoElems(both);
    }

    /** Both sides of a condition that can go either way; at the depth limit both end at once. */
    method ForkBoth(current: ExecutionState, condition: Expr)
      returns (t: Option<ExecutionState>, f: Option<ExecutionState>)
      requires Valid() && current in live && WFConstraint(condition)
      requires Feasible(current.constraints, condition) && Feasible(current.constraints, Negated(condition))
      modifies this, current
      ensures Valid() && SameCover(old(Paths()), Paths())
      ensures t.Some? <==> f.Some?
      ensures t.None? ==> maxDepth != 0 && live == old(live) - {current}
      ensures t.Some? ==>
                && t.value == current && fresh(f.value) && live == old(live) + {f.value}
                && Added(old(current.constraints), condition, current.constraints)
                && Added(old(current.constraints), Negated(condition), f.value.constraints)
    {
      ghost var o := Paths();
      var falseState := Split(current, condition);
      if maxDepth != 0 && maxDepth <= current.depth {
        ghost var p := Paths();
        hide SameCover, Covers, Books, Correct, AllHold, Added, WFConstraint;
        EndBoth(current, falseState);
        SameCoverTwice(o, p, Paths());
        return None, None;
      }
      return Some(current), Some(falseState);
    }

    /** A query that times out ends the state. A condition the path decides changes nothing; one it does not
        decide splits the path in two, or, where forking is inhibited, narrows it to one side. */
    method Fork(current: ExecutionState, condition: Expr, timedOut: bool, memoryInhibit: bool, coin: bool)
      returns (t: Option<ExecutionState>, f: Option<ExecutionState>)
      requires Valid() && current in live && WFConstraint(condition)
      modifies this, current
      ensures Valid()
      ensures t.Some? ==> t.value in live && Added(old(current.constraints), condition, t.value.constraints)
      ensures f.Some? ==> f.value in live && Added(old(current.constraints), Negated(condition), f.value.constraints)
      ensures t.Some? && f.Some? ==> t.value == current && fresh(f.value) && live == old(live) + {f.value}
      ensures t.Some? != f.Some? ==> live == old(live) && (t == Some(current) || f == Some(current))
      ensures t.None? && f.None? ==> live == old(live) - {current} && (timedOut || maxDepth != 0)
      ensures !timedOut && maxDepth == 0 && !old(Inhibited(current, memoryInhibit)) ==>
                && (t.Some? <==> old(Feasible(current.constraints, condition)))
                && (f.Some? <==> old(Feasible(current.constraints, Negated(condition))))
      ensures forall a :: Covers(Paths(), a) ==> old(Covers(Paths(), a))
      ensures timedOut || !old(Inhibited(current, memoryInhibit)) ==> SameCover(old(Paths()), Paths())
    {
      ghost var cs := current.constraints;
      assert Paths().live[current] == cs;
      assert Satisfiable(cs);
      QueriesExact(valid, cs, condition);
      NegatedTwice(condition, cs);
      SameCoverSelf(Paths());
      hide AllHold, Added, Feasible, WF, Width, Folded, WFConstraint, Sound, Correct, SameCover, Books, Implies;
      hide Negated, Evaluate;
      if timedOut {
        TerminateState(current);
        SameCoverAt(old(Paths()), Paths());
        return None, None;
      }
      var res := Evaluate(valid, current.constraints, condition);
      if res == Unknown {
        if Inhibited(current, memoryInhibit) {
          if coin {
            TakeOne(current, condition);
            return Some(current), None;
          } else {
            TakeOne(current, Negated(condition));
            return None, Some(current);
          }
        }
        t, f := ForkBoth(current, condition);
        SameCoverAt(old(Paths()), Paths());
      } else if res == True {
        ImpliedAdded(cs, condition);
        return Some(current), None;
      } else {
        ImpliedAdded(cs, Negated(condition));
        return None, Some(current);
      }
    }

    // ----- switch -----

    /** Groups the cases by block, leaving out those the path rules out, and the default likewise. */
    method SwitchConditions(cs: seq<Expr>, cond: Expr, cases: seq<Case>, dflt: nat)
      returns (bbOrder: seq<nat>, conditions: seq<Expr>)
      requires Correct(valid) && WFSet(cs) && Satisfiable(cs) && WFCases(cond, cases)
      ensures Routes(cs, cond, cases, dflt, bbOrder, conditions) && AllFeasible(cs, conditions)
    {
      hide AllHold, WF, Width, Folded, Eval, Correct, Satisfiable, Grouped, Stays, Matches, Feasible, Routes;
      hide EqCreate, OrCreate, AndCreate, Negated, MayBeTrue, Implies, Leads, Elems, Distinct, Hits, Leaves;
      bbOrder := [];
      var branchTargets: map<nat, Expr> := map[];
      var defaultValue := TRUE;
      GroupedStart(cs, cond, cases, dflt);
      for i := 0 to |cases|
        invariant Grouped(cs, cond, cases, i, dflt, bbOrder, branchTargets)
        invariant Stays(cond, cases, i, dflt, defaultValue)
      {
        var b, match_ := cases[i].block, EqCreate(cond, cases[i].value);
        MatchExact(cond, cases[i].value);
        MatchTyped(cond, cases[i].value, match_);
        StaysStep(cond, cases, i, dflt, match_, defaultValue);
        if b == dflt {
          GroupedSkip(cs, cond, cases, i, dflt, bbOrder, branchTargets, match_);
          continue;
        }
        defaultValue := AndCreate(defaultValue, Negated(match_));
        QueriesExact(valid, cs, match_);
        if MayBeTrue(valid, cs, match_) {
          GroupedTake(cs, cond, cases, i, dflt, bbOrder, branchTargets, match_);
          if b in branchTargets {
            branchTargets := branchTargets[b := OrCreate(match_, branchTargets[b])];
          } else {
            branchTargets := branchTargets[b := OrCreate(match_, FALSE)];
            bbOrder := bbOrder + [b];
          }
        } else {
          GroupedSkip(cs, cond, cases, i, dflt, bbOrder, branchTargets, match_);
        }
      }
      GroupedRoutes(cs, cond, cases, dflt, bbOrder, branchTargets, defaultValue);
      QueriesExact(valid, cs, defaultValue);
      if MayBeTrue(valid, cs, defaultValue) {
        branchTargets := branchTargets[dflt := defaultValue];
        bbOrder := bbOrder + [dflt];
      }
      conditions := Picked(branchTargets, bbOrder);
    }

    ghost function Present(branches: seq<Option<ExecutionState>>): set<ExecutionState> {
      set k | 0 <= k < |branches| && branches[k].Some? :: branches[k].value
    }

    /** Each state that came out of a branch goes to its block. */
    method Transfer(branches: seq<Option<ExecutionState>>, bbOrder: seq<nat>)
      requires |branches| == |bbOrder|
      requires forall i, j :: 0 <= i < j < |branches| && branches[i].Some? && branches[j].Some? ==>
               branches[i] != branches[j]
      modifies Present(branches)`pc
      ensures forall k :: 0 <= k < |branches| && branches[k].Some? ==> branches[k].value.pc == bbOrder[k]
    {
      for i := 0 to |branches|
        invariant forall k :: 0 <= k < i && branches[k].Some? ==> branches[k].value.pc == bbOrder[k]
      {
        if branches[i].Some? {
          branches[i].value.pc := bbOrder[i];
        }
      }
    }

    /** The inputs of the state, and of each that came out of it, had met `cs`, and go where the state is. */
    ghost predicate Routed(state: ExecutionState, before: set<ExecutionState>, cs: seq<Expr>, cond: Expr,
                           cases: seq<Case>, dflt: nat)
      reads this, live
    {
      forall s :: s in live && (s == state || s !in before) ==> RoutedTo(s.constraints, s.pc, cs, cond, cases, dflt)
    }

    /** Branches on the conditions of a switch and sends each state to its block. */
    method BranchTo(state: ExecutionState, cond: Expr, cases: seq<Case>, dflt: nat, bbOrder: seq<nat>,
                    conditions: seq<Expr>, rng: nat -> nat)
      requires Valid() && state in live && WFCases(cond, cases) && conditions != []
      requires Routes(state.constraints, cond, cases, dflt, bbOrder, conditions) && |bbOrder| == |conditions|
      requires WFSet(conditions) && AllFeasible(state.constraints, conditions)
      requires Exclusive(state.constraints, conditions) && Exhaustive(state.constraints, conditions)
      modifies this, state
      ensures Valid() && old(live) <= live
      ensures Routed(state, old(live), old(state.constraints), cond, cases, dflt)
      ensures forall a :: Covers(Paths(), a) ==> old(Covers(Paths(), a))
      ensures !old(LimitReached()) ==> SameCover(old(Paths()), Paths())
    {
      ghost var cs := state.constraints;
      hide AllHold, Added, Feasible, WF, Width, Folded, Sound, Correct, Covers, SameCover, Books, Satisfiable, Eval,
           Target;
      hide Exclusive, Exhaustive, AllFeasible, Routes, WFCases, WFConstraint, RoutedTo, Routed;
      var branches := Branch(state, conditions, rng);
      ghost var q := Paths();
      Transfer(branches, bbOrder);
      assert Paths() == q;
      BranchesRouted(state, old(live), branches, cs, cond, cases, dflt, bbOrder, conditions);
    }

    lemma BranchesRouted(state: ExecutionState, before: set<ExecutionState>, branches: seq<Option<ExecutionState>>,
                         cs: seq<Expr>, cond: Expr, cases: seq<Case>, dflt: nat, bbOrder: seq<nat>,
                           conditions: seq<Expr>)
      requires Valid() && WFSet(cs) && WF(cond) && Routes(cs, cond, cases, dflt, bbOrder, conditions)
      requires |branches| == |bbOrder| == |conditions|
      requires forall s :: s in live ==> (s in before && s != state) || Some(s) in branches
      requires forall k :: 0 <= k < |branches| && branches[k].Some? ==>
                 WFSet(branches[k].value.constraints) && Added(cs, conditions[k], branches[k].value.constraints)
      requires forall k :: 0 <= k < |branches| && branches[k].Some? ==> branches[k].value.pc == bbOrder[k]
      ensures Routed(state, before, cs, cond, cases, dflt)
    {
      hide Added, WF, Routes, RoutedTo, Valid;
      forall s | s in live && (s == state || s !in before)
        ensures RoutedTo(s.constraints, s.pc, cs, cond, cases, dflt)
      {
        assert Some(s) in branches;
        var k :| 0 <= k < |branches| && branches[k] == Some(s);
        AddedRoute(cs, cond, cases, dflt, bbOrder, conditions, k, s.constraints);
      }
    }

    /** Every state that comes out of a switch is at the block to which its inputs go, and unless the fork
        limit is reached no input is lost. */
    method Switch(state: ExecutionState, cond: Expr, cases: seq<Case>, dflt: nat, rng: nat -> nat)
      requires Valid() && state in live && WFCases(cond, cases)
      modifies this, state
      ensures Valid() && old(live) <= live
      ensures Routed(state, old(live), old(state.constraints), cond, cases, dflt)
      ensures forall a :: Covers(Paths(), a) ==> old(Covers(Paths(), a))
      ensures !old(LimitReached()) ==> SameCover(old(Paths()), Paths())
    {
      ghost var p, cs := Paths(), state.constraints;
      assert p.live[state] == cs && Satisfiable(cs);
      SameCoverSelf(p);
      hide AllHold, Feasible, WF, Width, Folded, Sound, Correct, Covers, SameCover, Books, Satisfiable, Eval, Target;
      hide Exclusive, Exhaustive, AllFeasible, Routes, WFCases, RoutedTo;
      if cond.Constant? {
        state.pc := Target(cases, dflt, cond.value);
        ConstantRouted(cs, cond, cases, dflt);
        assert Paths() == p;
      } else {
        var bbOrder, conditions := SwitchConditions(state.constraints, cond, cases, dflt);
        RoutesSplit(cs, cond, cases, dflt, bbOrder, conditions);
        RoutesLength(cs, cond, cases, dflt, bbOrder, conditions);
        BranchTo(state, cond, cases, dflt, bbOrder, conditions, rng);
      }
    }
  }

  lemma AddedRoute(cs: seq<Expr>, cond: Expr, cases: seq<Case>, dflt: nat, bbOrder: seq<nat>, conditions: seq<Expr>,
                   k: nat, ds: seq<Expr>)
    requires WFSet(cs) && WF(cond) && Routes(cs, cond, cases, dflt, bbOrder, conditions) && k < |conditions|
    requires WFSet(ds) && Added(cs, conditions[k], ds)
    ensures RoutedTo(ds, bbOrder[k], cs, cond, cases, dflt)
  {
    hide AllHold, WF, Width, Folded, Eval, Target;
  }

  lemma RoutesLength(cs: seq<Expr>, cond: Expr, cases: seq<Case>, dflt: nat, bbOrder: seq<nat>, conditions: seq<Expr>)
    requires WFSet(cs) && WF(cond) && Routes(cs, cond, cases, dflt, bbOrder, conditions)
    ensures |bbOrder| == |conditions|
  {
  }

  lemma MatchTyped(cond: Expr, value: Expr, e: Expr)
    requires WF(cond) && value.Constant? && Matches(cond, value, e)
    ensures WFConstraint(e)
  {
  }

  lemma StaysTyped(cond: Expr, cases: seq<Case>, dflt: nat, e: Expr)
    requires WF(cond) && Stays(cond, cases, |cases|, dflt, e)
    ensures WFConstraint(e)
  {
  }

  lemma ImpliedAdded(cs: seq<Expr>, e: Expr)
    requires WFSet(cs) && WFConstraint(e) && Implies(cs, e)
    ensures Added(cs, e, cs)
  {
    hide AllHold, Eval, WF, Width, Folded;
  }

  lemma TwoElems(both: seq<ExecutionState>)
    requires |both| == 2
    ensures Elems(both) == {both[0], both[1]}
  {
  }

  lemma SameCoverSelf(p: Pool<ExecutionState>)
    requires WFPool(p)
    ensures SameCover(p, p)
  {
  }

  lemma SameCoverAt(p: Pool<ExecutionState>, q: Pool<ExecutionState>)
    requires WFPool(p) && WFPool(q) && SameCover(p, q)
    ensures forall a :: Covers(q, a) ==> Covers(p, a)
  {
    hide Covers, WFPool;
  }

  lemma SameCoverTwice(p: Pool<ExecutionState>, q: Pool<ExecutionState>, r: Pool<ExecutionState>)
    requires WFPool(p) && WFPool(q) && WFPool(r) && SameCover(p, q) && SameCover(q, r)
    ensures SameCover(p, r)
  {
    hide Covers, WFPool;
  }

  lemma BooksGrow(live: set<ExecutionState>, states: set<ExecutionState>, added: seq<ExecutionState>,
                  removed: seq<ExecutionState>, result: seq<ExecutionState>)
    requires Books(live, states, added, removed) && result != [] && result[0] in live && Distinct(result)
    requires forall i :: 0 < i < |result| ==> result[i] !in live && result[i] !in states && result[i] !in added
    ensures Books(live + Elems(result), states, added + result[1..], removed)
  {
    assert Elems(added + result[1..]) == Elems(added) + Elems(result[1..]);
    assert Elems(result) == {result[0]} + Elems(result[1..]);
    assert Distinct(added + result[1..]);
  }

  lemma OneState(live: set<ExecutionState>, state: ExecutionState)
    requires state in live
    ensures Distinct([state]) && live + Elems([state]) == live
  {
  }

  lemma OneCondition(cs: seq<Expr>, condition: Expr)
    requires WFSet(cs) && WFConstraint(condition) && Feasible(cs, condition)
    ensures WFSet([condition]) && Exclusive(cs, [condition]) && AllFeasible(cs, [condition])
    ensures Implies(cs, condition) ==> Exhaustive(cs, [condition])
  {
    hide AllHold, Eval, WF, Width, Folded;
    if Implies(cs, condition) {
      forall a | AllHold(cs, a)
        ensures exists i :: 0 <= i < |[condition]| && Holds([condition][i], a)
      {
        assert Holds([condition][0], a);
      }
    }
  }
}
