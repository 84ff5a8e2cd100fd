/** Evaluation of an expression under a concrete assignment, as the evaluating visitor does it. */
module Evaluator {
  import opened Bits
  import opened Exprs
  import opened Create
  import opened CreateSound
  import opened CreateTheorems
  import opened ArrayReads
  import opened Visitor

  predicate IsDivision(e: Expr) { e.Binary? && (e.kind == UDiv || e.kind == SDiv || e.kind == URem || e.kind == SRem) }

  predicate AllConstant(ks: seq<Expr>) { forall i :: 0 <= i < |ks| ==> ks[i].Constant? }

  function Evaluate(e: Expr, a: Assignment): (r: Expr)
    requires WF(e)
    ensures WF(r) && Width(r) == Width(e)
    decreases e, 1
  {
    if e.Constant? then e
    else
      KidsTyped(e);
      if !e.Read? && AllConstant(Kids(e)) then Rebuild(e, Kids(e))
      else if IsDivision(e) then
        var l, r := Evaluate(e.left, a), Evaluate(e.right, a);
        var r' := if IsZeroConst(r) then e.right else r;
        if l != e.left || r' != e.right then Rebuild(e, [l, r']) else e
      else
        var ks := EvaluateAll(e, Kids(e), a);
        if e.Read? && ks[0].Constant? then EvalRead(e.updates.root, e.updates.head, ks[0].value, a)
        else if ks != Kids(e) then Rebuild(e, ks)
        else e
  }

  function EvaluateAll(e: Expr, ks: seq<Expr>, a: Assignment): (ks': seq<Expr>)
    requires AllWF(ks) && Below(ks, e)
    ensures SameTypes(ks, ks')
    decreases e, 0, |ks|
  {
    if ks == [] then [] else [Evaluate(ks[0], a)] + EvaluateAll(e, ks[1..], a)
  }

  /** The newest write whose evaluated index is the given one; a write at an index that stays
      symbolic ends the walk with a read from there. */
  function EvalRead(root: Array, n: UpdateNode, index: nat, a: Assignment): (r: Expr)
    requires WFArray(root) && WFNodes(root, n) && index < Pow2(root.domain)
    ensures WF(r) && Width(r) == root.range
    decreases n, 1
  {
    match n
    case Null => Constant(Initial(root, index, a), root.range)
    case Node(ui, uv, next) =>
      var i := Evaluate(ui, a);
      if !i.Constant? then ReadCreate(UpdateList(root, n), Constant(index, root.domain))
      else if i.value == index then Evaluate(uv, a)
      else EvalRead(root, next, index, a)
  }

  /** The walk as its loop runs. */
  method EvalReadLoop(root: Array, head: UpdateNode, index: nat, a: Assignment) returns (r: Expr)
    requires WFArray(root) && WFNodes(root, head) && index < Pow2(root.domain)
    ensures r == EvalRead(root, head, index, a)
  {
    hide Evaluate, ReadCreate;
    var un := head;
    while un != Null
      invariant WFNodes(root, un)
      invariant EvalRead(root, un, index, a) == EvalRead(root, head, index, a)
      decreases un
    {
      var ui := Evaluate(un.index, a);
      if ui.Constant? {
        if ui.value == index {
          return Evaluate(un.value, a);
        }
      } else {
        return ReadCreate(UpdateList(root, un), Constant(index, root.domain));
      }
      un := un.next;
    }
    r := Constant(Initial(root, index, a), root.range);
  }

  // ----- evaluation keeps the value -----

  lemma ReadValueAt(root: Array, n: UpdateNode, index: nat, a: Assignment)
    requires WFArray(root) && WFNodes(root, n) && index < Pow2(root.domain)
    ensures Eval(ReadCreate(UpdateList(root, n), Constant(index, root.domain)), a) == Lookup(root, n, index, a)
  {
    hide ReadCreate;
    ReadSound(UpdateList(root, n), Constant(index, root.domain), a);
    ConstValue(Constant(index, root.domain), a);
  }

  /** Whatever stays symbolic, the result has the value of the expression. */
  lemma {:induction false} EvaluateSound(e: Expr, a: Assignment)
    requires WF(e)
    ensures Eval(Evaluate(e, a), a) == Eval(e, a)
    decreases e, 1
  {
    hide Eval, Rebuild, Width;
    if !e.Constant? {
      KidsTyped(e);
      if !e.Read? && AllConstant(Kids(e)) {
        RebuildSound(e, Kids(e), a);
      } else if IsDivision(e) {
        EvaluateSound(e.left, a);
        EvaluateSound(e.right, a);
        var l, r := Evaluate(e.left, a), Evaluate(e.right, a);
        DivisionSound(e, l, if IsZeroConst(r) then e.right else r, a);
      } else {
        var ks := EvaluateAll(e, Kids(e), a);
        EvaluateAllSound(e, Kids(e), a);
        if e.Read? {
          ReadNode(e, a);
          if ks[0].Constant? {
            ConstValue(ks[0], a);
            EvalReadSound(e.updates.root, e.updates.head, ks[0].value, a);
          } else {
            RebuildSound(e, ks, a);
          }
        } else {
          RebuildSound(e, ks, a);
        }
      }
    }
  }

  lemma ReadNode(e: Expr, a: Assignment)
    requires WF(e) && e.Read?
    ensures Kids(e) == [e.index] && WFArray(e.updates.root) && WFNodes(e.updates.root, e.updates.head)
    ensures Width(e.index) == e.updates.root.domain && Width(e) == e.updates.root.range
    ensures Eval(e, a) == Lookup(e.updates.root, e.updates.head, Eval(e.index, a), a)
  {
  }

  lemma DivisionSound(e: Expr, l: Expr, r: Expr, a: Assignment)
    requires WF(e) && e.Binary? && WF(l) && WF(r) && Width(l) == Width(e.left) && Width(r) == Width(e.right)
    requires Eval(l, a) == Eval(e.left, a) && Eval(r, a) == Eval(e.right, a)
    ensures SameTypes(Kids(e), [l, r]) && Eval(Rebuild(e, [l, r]), a) == Eval(e, a)
  {
    hide Eval, Rebuild;
    KidsTyped(e);
    RebuildSound(e, [l, r], a);
  }

  lemma {:induction false} EvaluateAllSound(e: Expr, ks: seq<Expr>, a: Assignment)
    requires AllWF(ks) && Below(ks, e)
    ensures SameValues(ks, EvaluateAll(e, ks, a), a)
    decreases e, 0, |ks|
  {
    hide Eval, Rebuild, WF, Width, Evaluate;
    if ks != [] {
      EvaluateSound(ks[0], a);
      EvaluateAllSound(e, ks[1..], a);
    }
  }

  lemma {:induction false} EvalReadSound(root: Array, n: UpdateNode, index: nat, a: Assignment)
    requires WFArray(root) && WFNodes(root, n) && index < Pow2(root.domain)
    ensures Eval(EvalRead(root, n, index, a), a) == Lookup(root, n, index, a)
    decreases n, 1
  {
    hide Eval, Evaluate;
    match n
    case Null => ConstValue(EvalRead(root, n, index, a), a);
    case Node(ui, uv, next) =>
      EvaluateSound(ui, a);
      var i := Evaluate(ui, a);
      if !i.Constant? {
        ReadValueAt(root, n, index, a);
      } else {
        ConstValue(i, a);
        EvaluateSound(uv, a);
        EvalReadSound(root, next, index, a);
      }
  }

  // ----- evaluation reaches a constant -----

  /** No division in the expression, or in its update lists, is by zero. */
  predicate NoZeroDivisor(e: Expr, a: Assignment)
    requires WF(e)
    decreases e
  {
    match e
    case Constant(_, _) => true
    case Read(ul, i) => NoZeroDivisor(i, a) && NoZeroDivisorNodes(ul.root, ul.head, a)
    case Select(c, t, f) => NoZeroDivisor(c, a) && NoZeroDivisor(t, a) && NoZeroDivisor(f, a)
    case Concat(l, r) => NoZeroDivisor(l, a) && NoZeroDivisor(r, a)
    case Extract(x, _, _) => NoZeroDivisor(x, a)
    case ZExt(x, _) => NoZeroDivisor(x, a)
    case SExt(x, _) => NoZeroDivisor(x, a)
    case Not(x) => NoZeroDivisor(x, a)
    case Binary(_, l, r) => NoZeroDivisor(l, a) && NoZeroDivisor(r, a) && (IsDivision(e) ==> Eval(r, a) != 0)
  }

  predicate NoZeroDivisorNodes(root: Array, n: UpdateNode, a: Assignment)
    requires WFNodes(root, n)
    decreases n
  {
    match n
    case Null => true
    case Node(i, v, next) => NoZeroDivisor(i, a) && NoZeroDivisor(v, a) && NoZeroDivisorNodes(root, next, a)
  }

  lemma NoZeroDivisorKids(e: Expr, a: Assignment)
    requires WF(e) && NoZeroDivisor(e, a)
    ensures AllWF(Kids(e))
    ensures forall i :: 0 <= i < |Kids(e)| ==> NoZeroDivisor(Kids(e)[i], a)
    ensures IsDivision(e) ==> Eval(e.right, a) != 0
    ensures e.Read? ==> NoZeroDivisorNodes(e.updates.root, e.updates.head, a)
  {
  }

  lemma RebuildConstant(e: Expr, ks: seq<Expr>)
    requires WF(e) && !e.Constant? && !e.Read? && SameTypes(Kids(e), ks) && AllConstant(ks)
    ensures Rebuild(e, ks).Constant?
  {
    WidthPositive(e);
    if e.Binary? {
      BinaryConstant(e.kind, ks[0], ks[1]);
    }
  }

  lemma BinaryConstant(k: Kind, l: Expr, r: Expr)
    requires Typed(l, r) && l.Constant? && r.Constant?
    ensures BinaryCreate(k, l, r).Constant?
  {
  }

  lemma {:induction false} EvaluateToConstant(e: Expr, a: Assignment)
    requires WF(e) && NoZeroDivisor(e, a)
    ensures Evaluate(e, a).Constant?
    decreases e, 1
  {
    hide Eval, Rebuild, Width, NoZeroDivisor, WF;
    if !e.Constant? {
      KidsTyped(e);
      NoZeroDivisorKids(e, a);
      if !e.Read? && AllConstant(Kids(e)) {
        RebuildConstant(e, Kids(e));
      } else if IsDivision(e) {
        DivisionKids(e);
        assert Kids(e)[0] == e.left && Kids(e)[1] == e.right;
        EvaluateToConstant(e.left, a);
        EvaluateToConstant(e.right, a);
        EvaluateSound(e.right, a);
        var l, r := Evaluate(e.left, a), Evaluate(e.right, a);
        ConstValue(r, a);
        RebuildConstant(e, [l, r]);
      } else {
        var ks := EvaluateAll(e, Kids(e), a);
        EvaluateAllToConstant(e, Kids(e), a);
        if e.Read? {
          ReadNode(e, a);
          ConstValue(ks[0], a);
          EvalReadToConstant(e.updates.root, e.updates.head, ks[0].value, a);
        } else {
          RebuildConstant(e, ks);
        }
      }
    }
  }

  lemma DivisionKids(e: Expr)
    requires WF(e) && IsDivision(e)
    ensures Kids(e) == [e.left, e.right] && WF(e.left) && WF(e.right)
  {
  }

  lemma {:induction false} EvaluateAllToConstant(e: Expr, ks: seq<Expr>, a: Assignment)
    requires AllWF(ks) && Below(ks, e) && forall i :: 0 <= i < |ks| ==> NoZeroDivisor(ks[i], a)
    ensures AllConstant(EvaluateAll(e, ks, a))
    decreases e, 0, |ks|
  {
    hide Eval, Rebuild, WF, Width, Evaluate, NoZeroDivisor;
    if ks != [] {
      EvaluateToConstant(ks[0], a);
      EvaluateAllToConstant(e, ks[1..], a);
    }
  }

  lemma {:induction false} EvalReadToConstant(root: Array, n: UpdateNode, index: nat, a: Assignment)
    requires WFArray(root) && WFNodes(root, n) && index < Pow2(root.domain) && NoZeroDivisorNodes(root, n, a)
    ensures EvalRead(root, n, index, a).Constant?
    decreases n, 1
  {
    hide Eval, Evaluate, NoZeroDivisor;
    match n
    case Null =>
    case Node(ui, uv, next) =>
      EvaluateToConstant(ui, a);
      EvaluateToConstant(uv, a);
      EvalReadToConstant(root, next, index, a);
  }

  /** The evaluator computes the value of the expression as a constant of its width. */
  lemma EvaluateExact(e: Expr, a: Assignment)
    requires WF(e) && NoZeroDivisor(e, a)
    ensures Evaluate(e, a) == Constant(Eval(e, a), Width(e))
  {
    hide Eval, Evaluate, NoZeroDivisor;
    EvaluateSound(e, a);
    EvaluateToConstant(e, a);
    ConstValue(Evaluate(e, a), a);
  }
}
