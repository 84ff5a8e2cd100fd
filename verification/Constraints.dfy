/** The constraint set of a path: conjuncts are split, simplified with the equalities already known,
    and rewritten when a new equality arrives. */
module Constraints {
  import opened Collections
  import opened Bits
  import opened Exprs
  import opened Create
  import opened CreateSound
  import opened CreateShape
  import opened Visitor

  /** One-bit expressions built by the constructors. */
  predicate WFConstraint(e: Expr) { WF(e) && Width(e) == BOOL && Folded(e) }

  predicate WFSet(cs: seq<Expr>) { forall i :: 0 <= i < |cs| ==> WFConstraint(cs[i]) }

  predicate AllHold(cs: seq<Expr>, a: Assignment)
    requires WFSet(cs)
  {
    forall i :: 0 <= i < |cs| ==> Holds(cs[i], a)
  }

  // ----- simplifying an expression -----

  /** The equality a constraint contributes to the table: `c == x` maps `x` to `c`, any other
      constraint maps to true. */
  function Equality(c: Expr): (kv: (Expr, Expr))
    requires WFConstraint(c)
    ensures WF(kv.0) && WF(kv.1) && kv.1.Constant? && Width(kv.0) == Width(kv.1)
  {
    if c.Binary? && c.kind == Eq && c.left.Constant? then (c.right, c.left) else (c, TRUE)
  }

  /** Insertion keeps the entry that is already there. */
  function Insert(eqs: map<Expr, Expr>, kv: (Expr, Expr)): map<Expr, Expr> {
    if kv.0 in eqs then eqs else eqs[kv.0 := kv.1]
  }

  function Equalities(cs: seq<Expr>): (eqs: map<Expr, Expr>)
    requires WFSet(cs)
    ensures WFTable(eqs)
  {
    if cs == [] then map[]
    else Insert(Equalities(cs[..|cs| - 1]), Equality(cs[|cs| - 1]))
  }

  function SimplifyWith(cs: seq<Expr>, e: Expr): (r: Expr)
    requires WFSet(cs) && WF(e) && Folded(e)
    ensures WF(r) && Width(r) == Width(e) && Folded(r)
  {
    if e.Constant? then e else Simplify(e, Equalities(cs))
  }

  lemma EqualityHolds(c: Expr, a: Assignment)
    requires WFConstraint(c) && Holds(c, a)
    ensures Eval(Equality(c).0, a) == Eval(Equality(c).1, a)
  {
    hide EvalBinary, Eval;
    ConstValue(TRUE, a);
    if c.Binary? && c.kind == Eq && c.left.Constant? {
      EqValue(c.left, c.right, a);
    }
  }

  lemma {:induction false} EqualitiesHold(cs: seq<Expr>, a: Assignment)
    requires WFSet(cs) && AllHold(cs, a)
    ensures TableHolds(Equalities(cs), a)
  {
    hide Eval, WF, Width, Folded, Equality;
    if cs != [] {
      var n := |cs| - 1;
      EqualitiesHold(cs[..n], a);
      EqualityHolds(cs[n], a);
    }
  }

  /** On the assignments that satisfy the set, simplification keeps the value. */
  lemma SimplifyWithSound(cs: seq<Expr>, e: Expr, a: Assignment)
    requires WFSet(cs) && WF(e) && Folded(e) && AllHold(cs, a)
    ensures Eval(SimplifyWith(cs, e), a) == Eval(e, a)
  {
    hide Eval, WF, Width, Folded, Equalities;
    EqualitiesHold(cs, a);
    if !e.Constant? {
      SimplifySound(e, Equalities(cs), a);
    }
  }

  // ----- adding a constraint -----

  lemma {:induction false} SumAppend(xs: seq<Expr>, ys: seq<Expr>)
    ensures SumReads(xs + ys) == SumReads(xs) + SumReads(ys)
  {
    if xs == [] {
      assert xs + ys == ys;
    } else {
      assert (xs + ys)[1..] == xs[1..] + ys;
      SumAppend(xs[1..], ys);
    }
  }

  lemma SumNone()
    ensures SumReads([]) == 0
  {
  }

  lemma SumSnoc(xs: seq<Expr>, y: Expr)
    ensures SumReads(xs + [y]) == SumReads(xs) + Reads(y)
  {
    SumAppend(xs, [y]);
    SumOne(y);
  }

  lemma ConstraintKids(e: Expr)
    requires WFConstraint(e) && e.Binary?
    ensures WF(e.left) && WF(e.right) && Width(e.left) == Width(e.right) && Folded(e.left) && Folded(e.right)
    ensures e.kind == And ==> WFConstraint(e.left) && WFConstraint(e.right)
    ensures Reads(e) == Reads(e.left) + Reads(e.right) && Reads(e) > 0
    ensures Size(e.left) < Size(e) && Size(e.right) < Size(e)
  {
  }

  /** The set after `e` has been added to it. `None` is the source's assertion failure on a
      constraint that has become constant false. */
  function AddInternal(cs: seq<Expr>, e: Expr): (r: Option<seq<Expr>>)
    requires WFSet(cs) && WFConstraint(e)
    ensures r.Some? ==> WFSet(r.value) && SumReads(r.value) <= SumReads(cs) + Reads(e)
    decreases SumReads(cs) + Reads(e), Size(e), 1
  {
    if e.Constant? then (if e.value == 1 then Some(cs) else None)
    else if e.Binary? && e.kind == And then
      ConstraintKids(e);
      var l := AddInternal(cs, e.left);
      if l.None? then None else AddInternal(l.value, e.right)
    else if e.Binary? && e.kind == Eq && e.left.Constant? then
      ConstraintKids(e);
      var r := Rewrite(cs, [], e.right, e.left);
      if r.None? then None
      else
        SumSnoc(r.value, e);
        Some(r.value + [e])
    else
      SumSnoc(cs, e);
      Some(cs + [e])
  }

  /** The constraints of `olds` rewritten one by one into `acc`; one that changes is added anew, and
      may rewrite what is already in `acc`. */
  function Rewrite(olds: seq<Expr>, acc: seq<Expr>, src: Expr, dst: Expr): (r: Option<seq<Expr>>)
    requires WFSet(olds) && WFSet(acc) && WF(src) && WF(dst) && dst.Constant? && Width(src) == Width(dst)
    ensures r.Some? ==> WFSet(r.value) && SumReads(r.value) <= SumReads(olds) + SumReads(acc)
    decreases SumReads(olds) + SumReads(acc), 0, |olds|
  {
    if olds == [] then Some(acc)
    else
      SumSplit(olds);
      var e := Replace(olds[0], src, dst);
      ReplaceShape(olds[0], src, dst);
      if e != olds[0] then
        var acc' := AddInternal(acc, e);
        if acc'.None? then None else Rewrite(olds[1..], acc'.value, src, dst)
      else
        SumSnoc(acc, olds[0]);
        Rewrite(olds[1..], acc + [olds[0]], src, dst)
  }

  lemma AllHoldSnoc(cs: seq<Expr>, e: Expr, a: Assignment)
    requires WFSet(cs) && WFConstraint(e)
    ensures WFSet(cs + [e]) && (AllHold(cs + [e], a) <==> AllHold(cs, a) && Holds(e, a))
  {
    hide WFConstraint, Eval;
    assert forall i :: 0 <= i < |cs| ==> (cs + [e])[i] == cs[i];
    assert (cs + [e])[|cs|] == e;
  }

  lemma AllHoldSplit(cs: seq<Expr>, a: Assignment)
    requires WFSet(cs) && cs != []
    ensures WFSet(cs[1..]) && WFConstraint(cs[0])
    ensures AllHold(cs, a) <==> Holds(cs[0], a) && AllHold(cs[1..], a)
  {
    hide WFConstraint, Eval;
    assert forall i :: 1 <= i < |cs| ==> cs[i] == cs[1..][i - 1];
  }

  lemma AndSplit(e: Expr, a: Assignment)
    requires WFConstraint(e) && e.Binary? && e.kind == And
    ensures WF(e.left) && WF(e.right) && (Holds(e, a) <==> Holds(e.left, a) && Holds(e.right, a))
  {
    EvalBool(e.left, a);
    EvalBool(e.right, a);
    BitBool(Eval(e.left, a), Eval(e.right, a));
  }

  /** The new set means exactly the old set and the new constraint; the assertion can fail only when
      the two together have no solution. */
  lemma {:induction false} AddInternalExact(cs: seq<Expr>, e: Expr, a: Assignment)
    requires WFSet(cs) && WFConstraint(e)
    ensures match AddInternal(cs, e)
            case Some(cs') => AllHold(cs', a) <==> AllHold(cs, a) && Holds(e, a)
            case None => !(AllHold(cs, a) && Holds(e, a))
    decreases SumReads(cs) + Reads(e), Size(e), 1
  {
    hide Eval, WF, Width, Folded, Reads, SumReads, Size, Rewrite;
    if e.Constant? {
      EvalBool(e, a);
      ConstValue(e, a);
    } else if e.Binary? && e.kind == And {
      ConstraintKids(e);
      AndSplit(e, a);
      AddInternalExact(cs, e.left, a);
      var l := AddInternal(cs, e.left);
      if l.Some? {
        AddInternalExact(l.value, e.right, a);
      }
    } else if e.Binary? && e.kind == Eq && e.left.Constant? {
      ConstraintKids(e);
      SumNone();
      if Holds(e, a) {
        EqualityHolds(e, a);
        RewriteExact(cs, [], e.right, e.left, a);
      }
      var r := Rewrite(cs, [], e.right, e.left);
      if r.Some? {
        AllHoldSnoc(r.value, e, a);
      }
    } else {
      AllHoldSnoc(cs, e, a);
    }
  }

  /** Where the two sides of the equality agree, rewriting keeps the meaning of the whole list. */
  lemma {:induction false} RewriteExact(olds: seq<Expr>, acc: seq<Expr>, src: Expr, dst: Expr, a: Assignment)
    requires WFSet(olds) && WFSet(acc) && WF(src) && WF(dst) && dst.Constant? && Width(src) == Width(dst)
    requires Eval(src, a) == Eval(dst, a)
    ensures match Rewrite(olds, acc, src, dst)
            case Some(cs') => AllHold(cs', a) <==> AllHold(olds, a) && AllHold(acc, a)
            case None => !(AllHold(olds, a) && AllHold(acc, a))
    decreases SumReads(olds) + SumReads(acc), 0, |olds|
  {
    hide Eval, WF, Width, Folded, Reads, SumReads, AddInternal, Replace;
    if olds != [] {
      SumSplit(olds);
      AllHoldSplit(olds, a);
      var e := Replace(olds[0], src, dst);
      ReplaceShape(olds[0], src, dst);
      ReplaceSound(olds[0], src, dst, a);
      if e != olds[0] {
        AddInternalExact(acc, e, a);
        var acc' := AddInternal(acc, e);
        if acc'.Some? {
          RewriteExact(olds[1..], acc'.value, src, dst, a);
        }
      } else {
        SumSnoc(acc, olds[0]);
        AllHoldSnoc(acc, olds[0], a);
        RewriteExact(olds[1..], acc + [olds[0]], src, dst, a);
      }
    }
  }

  function AddConstraint(cs: seq<Expr>, e: Expr): (r: Option<seq<Expr>>)
    requires WFSet(cs) && WFConstraint(e)
    ensures r.Some? ==> WFSet(r.value)
  {
    AddInternal(cs, SimplifyWith(cs, e))
  }

  /** Adding a constraint is conjunction, for every assignment. */
  lemma AddConstraintExact(cs: seq<Expr>, e: Expr, a: Assignment)
    requires WFSet(cs) && WFConstraint(e)
    ensures match AddConstraint(cs, e)
            case Some(cs') => AllHold(cs', a) <==> AllHold(cs, a) && Holds(e, a)
            case None => !(AllHold(cs, a) && Holds(e, a))
  {
    hide Eval, WF, Width, Folded, AddInternal, SimplifyWith;
    AddInternalExact(cs, SimplifyWith(cs, e), a);
    if AllHold(cs, a) {
      SimplifyWithSound(cs, e, a);
    }
  }

  ghost predicate Satisfiable(cs: seq<Expr>)
    requires WFSet(cs)
  {
    exists a :: AllHold(cs, a)
  }

  /** With a solution left, adding never fails, and the result has a solution. */
  lemma AddConstraintSucceeds(cs: seq<Expr>, e: Expr, a: Assignment)
    requires WFSet(cs) && WFConstraint(e) && AllHold(cs, a) && Holds(e, a)
    ensures AddConstraint(cs, e).Some? && AllHold(AddConstraint(cs, e).value, a)
    ensures Satisfiable(AddConstraint(cs, e).value)
  {
    hide AddConstraint, Eval;
    AddConstraintExact(cs, e, a);
  }

  // ----- the manager -----

  class ConstraintManager {
    var constraints: seq<Expr>

    ghost predicate Valid()
      reads this
    {
      WFSet(constraints)
    }

    constructor ()
      ensures Valid() && constraints == []
    {
      constraints := [];
    }

    method SimplifyExpr(e: Expr) returns (r: Expr)
      requires Valid() && WF(e) && Folded(e)
      ensures r == SimplifyWith(constraints, e)
    {
      hide WF, Width, Folded, Simplify, Equality;
      if e.Constant? {
        return e;
      }
      var equalities: map<Expr, Expr> := map[];
      for i := 0 to |constraints|
        invariant equalities == Equalities(constraints[..i])
      {
        assert constraints[..i + 1][..i] == constraints[..i];
        equalities := Insert(equalities, Equality(constraints[i]));
      }
      assert constraints[..|constraints|] == constraints;
      var visitor := new MemoVisitor(equalities);
      r := visitor.Visit(e);
    }

    /** Returns false for an assertion failure in a nested addition. */
    method RewriteConstraints(src: Expr, dst: Expr) returns (ok: bool, changed: bool)
      requires Valid() && WF(src) && WF(dst) && dst.Constant? && Width(src) == Width(dst)
      modifies this
      ensures ok <==> Rewrite(old(constraints), [], src, dst).Some?
      ensures ok ==> Valid() && constraints == Rewrite(old(constraints), [], src, dst).value
      ensures ok ==> (changed <==> exists i :: 0 <= i < |old(constraints)| &&
                                                Replace(old(constraints)[i], src, dst) != old(constraints)[i])
      decreases SumReads(constraints), 0, 0
    {
      hide WF, Width, Folded, Reads, SumReads, AddInternal, Replace;
      var olds := constraints;
      constraints, ok, changed := [], true, false;
      assert olds[0..] == olds;
      SumNone();
      for i := 0 to |olds|
        invariant Valid() && WFSet(olds[i..])
        invariant Rewrite(olds, [], src, dst) == Rewrite(olds[i..], constraints, src, dst)
        invariant SumReads(olds[i..]) + SumReads(constraints) <= SumReads(olds)
        invariant changed <==> exists j :: 0 <= j < i && Replace(olds[j], src, dst) != olds[j]
      {
        var ce := olds[i];
        assert olds[i..][0] == ce && olds[i..][1..] == olds[i + 1..];
        SumSplit(olds[i..]);
        ReplaceShape(ce, src, dst);
        var e := Replace(ce, src, dst);
        if e != ce {
          ok := AddConstraintInternal(e);
          if !ok {
            return;
          }
          changed := true;
        } else {
          SumSnoc(constraints, ce);
          AllHoldSnoc(constraints, ce, map[]);
          constraints := constraints + [ce];
        }
      }
      assert olds[|olds|..] == [];
    }

    method AddConstraintInternal(e: Expr) returns (ok: bool)
      requires Valid() && WFConstraint(e)
      modifies this
      ensures ok <==> AddInternal(old(constraints), e).Some?
      ensures ok ==> Valid() && constraints == AddInternal(old(constraints), e).value
      decreases SumReads(constraints) + Reads(e), Size(e), 1
    {
      hide WF, Width, Folded, Reads, SumReads, Rewrite, Size;
      if e.Constant? {
        ok := e.value == 1;
      } else if e.Binary? && e.kind == And {
        ConstraintKids(e);
        ok := AddConstraintInternal(e.left);
        if ok {
          ok := AddConstraintInternal(e.right);
        }
      } else {
        if e.Binary? && e.kind == Eq && e.left.Constant? {
          ConstraintKids(e);
          var changed;
          ok, changed := RewriteConstraints(e.right, e.left);
          if !ok {
            return;
          }
        }
        AllHoldSnoc(constraints, e, map[]);
        constraints := constraints + [e];
        ok := true;
      }
    }

    method Add(e: Expr) returns (ok: bool)
      requires Valid() && WFConstraint(e)
      modifies this
      ensures ok <==> AddConstraint(old(constraints), e).Some?
      ensures ok ==> Valid() && constraints == AddConstraint(old(constraints), e).value
    {
      hide WF, Folded, AddInternal, SimplifyWith;
      var s := SimplifyExpr(e);
      ok := AddConstraintInternal(s);
    }
  }
}
