/** Merging two execution states that have come to the same instruction. */
module StateMerge {
  import opened Collections
  import opened Bits
  import opened Exprs
  import opened Create
  import opened CreateSound
  import opened CreateShape
  import opened CreateTheorems
  import opened Constraints
  import opened ObjectView
  import opened ObjectOps
  import opened ObjectStates
  import opened AddressSpaces

  /** A null register is `None`. */
  datatype StackFrame = StackFrame(caller: nat, kf: nat, locals: seq<Option<Expr>>)

  predicate WFLocal(l: Option<Expr>) { l.Some? ==> WF(l.value) && Folded(l.value) }

  predicate WFFrame(f: StackFrame) { forall r :: 0 <= r < |f.locals| ==> WFLocal(f.locals[r]) }

  predicate WFStack(stack: seq<StackFrame>) { forall i :: 0 <= i < |stack| ==> WFFrame(stack[i]) }

  /** Frames of one function have the same registers, and a register has one width. */
  predicate Matching(f: StackFrame, g: StackFrame) {
    f.kf == g.kf ==>
      && |f.locals| == |g.locals|
      && forall r :: 0 <= r < |f.locals| && f.locals[r].Some? && g.locals[r].Some? ==>
           Width(f.locals[r].value) == Width(g.locals[r].value)
  }

  predicate MatchingStacks(s: seq<StackFrame>, t: seq<StackFrame>) {
    forall i :: 0 <= i < |s| && i < |t| ==> Matching(s[i], t[i])
  }

  predicate SameCall(f: StackFrame, g: StackFrame) { f.caller == g.caller && f.kf == g.kf }

  predicate SameCalls(s: seq<StackFrame>, t: seq<StackFrame>) {
    |s| == |t| && forall i :: 0 <= i < |s| ==> SameCall(s[i], t[i])
  }

  // ----- the two conditions -----

  ghost predicate EachHolds(es: set<Expr>, a: Assignment)
    requires forall e :: e in es ==> WFConstraint(e)
  {
    forall e :: e in es ==> WFConstraint(e) && Holds(e, a)
  }

  /** `c` is the conjunction of the expressions in the set. */
  ghost predicate IsConjunction(c: Expr, es: set<Expr>)
    requires forall e :: e in es ==> WFConstraint(e)
  {
    WFConstraint(c) && forall a :: Holds(c, a) <==> EachHolds(es, a)
  }

  lemma TrueHolds()
    ensures IsConjunction(TRUE, {})
  {
  }

  lemma ConjunctionStep(c: Expr, es: set<Expr>, e: Expr)
    requires forall x :: x in es + {e} ==> WFConstraint(x)
    requires IsConjunction(c, es)
    ensures Typed(c, e) && IsConjunction(AndCreate(c, e), es + {e})
  {
    hide WF, Width, Folded, AndCreate, Eval;
    assert e in es + {e};
    AndShape(c, e);
    forall a ensures Holds(AndCreate(c, e), a) <==> EachHolds(es + {e}, a) {
      AndHolds(c, e, a);
    }
  }

  /** Folds a set with And, in any order. */
  method Conjunction(es: set<Expr>) returns (c: Expr)
    requires forall e :: e in es ==> WFConstraint(e)
    ensures IsConjunction(c, es)
  {
    hide WF, Width, Folded, AndCreate, Eval;
    TrueHolds();
    c := TRUE;
    var todo := es;
    while todo != {}
      invariant todo <= es && IsConjunction(c, es - todo)
    {
      var e :| e in todo;
      ConjunctionStep(c, es - todo, e);
      assert es - (todo - {e}) == (es - todo) + {e};
      c := AndCreate(c, e);
      todo := todo - {e};
    }
    assert es - todo == es;
  }

  lemma AllHoldElems(cs: seq<Expr>, a: Assignment)
    requires WFSet(cs)
    ensures forall e :: e in Elems(cs) ==> WFConstraint(e)
    ensures AllHold(cs, a) <==> EachHolds(Elems(cs), a)
  {
    hide WFConstraint, Eval;
    assert forall i :: 0 <= i < |cs| ==> cs[i] in Elems(cs);
  }

  /** Adds every constraint of a set, in any order, to an empty list. `None` is the assertion failure on
      a constraint that has become constant false. */
  method Gather(es: set<Expr>, last: Expr) returns (r: Option<seq<Expr>>)
    requires (forall e :: e in es ==> WFConstraint(e)) && WFConstraint(last)
    ensures r.Some? ==> WFSet(r.value) && forall a :: AllHold(r.value, a) <==> EachHolds(es, a) && Holds(last, a)
    ensures r.None? ==> forall a :: !(EachHolds(es, a) && Holds(last, a))
  {
    hide WF, Width, Folded, Eval, AddConstraint;
    var manager := new ConstraintManager();
    var todo := es;
    while todo != {}
      invariant todo <= es && fresh(manager) && manager.Valid()
      invariant forall a :: AllHold(manager.constraints, a) <==> EachHolds(es - todo, a)
    {
      var e :| e in todo;
      ghost var cs := manager.constraints;
      var ok := manager.Add(e);
      forall a
        ensures ok ==> (AllHold(manager.constraints, a) <==> EachHolds(es - todo, a) && Holds(e, a))
        ensures !ok ==> !(EachHolds(es - todo, a) && Holds(e, a))
      {
        AddConstraintExact(cs, e, a);
      }
      if !ok {
        return None;
      }
      assert es - (todo - {e}) == (es - todo) + {e};
      todo := todo - {e};
    }
    assert es - todo == es;
    ghost var cs := manager.constraints;
    var ok := manager.Add(last);
    forall a
      ensures ok ==> (AllHold(manager.constraints, a) <==> EachHolds(es, a) && Holds(last, a))
      ensures !ok ==> !(EachHolds(es, a) && Holds(last, a))
    {
      AddConstraintExact(cs, last, a);
    }
    r := if ok then Some(manager.constraints) else None;
  }

  // ----- locals -----

  /** The register has the value of `x` where the condition holds and that of `y` elsewhere; one that is
      null in either state is left alone. */
  ghost predicate Chosen(c: Expr, x: Option<Expr>, y: Option<Expr>, l: Option<Expr>)
    requires WF(c) && WFLocal(x) && WFLocal(y)
  {
    if x.None? || y.None? then l == x
    else
      && l.Some? && WFLocal(l) && Width(l.value) == Width(x.value)
      && forall a :: Eval(l.value, a) == if Holds(c, a) then Eval(x.value, a) else Eval(y.value, a)
  }

  ghost predicate ChosenFrame(c: Expr, f: StackFrame, g: StackFrame, m: StackFrame)
    requires WF(c) && WFFrame(f) && WFFrame(g)
  {
    && SameCall(f, m) && |m.locals| == |f.locals| == |g.locals|
    && forall r :: 0 <= r < |f.locals| ==> Chosen(c, f.locals[r], g.locals[r], m.locals[r])
  }

  lemma SelectChosen(c: Expr, x: Expr, y: Expr)
    requires WFConstraint(c) && WFLocal(Some(x)) && WFLocal(Some(y)) && Width(x) == Width(y)
    ensures Chosen(c, Some(x), Some(y), Some(SelectCreate(c, x, y)))
  {
    hide Eval, WF, Folded, Width, SelectCreate;
    SelectShape(c, x, y);
    forall a
      ensures Eval(SelectCreate(c, x, y), a) == if Holds(c, a) then Eval(x, a) else Eval(y, a)
    {
      SelectSound(c, x, y, a);
    }
  }

  method MergeFrame(c: Expr, f: StackFrame, g: StackFrame) returns (m: StackFrame)
    requires WFConstraint(c) && WFFrame(f) && WFFrame(g) && SameCall(f, g) && Matching(f, g)
    ensures ChosenFrame(c, f, g, m)
  {
    hide Eval, WF, Folded, Width, SelectCreate, Chosen;
    m := f;
    for i := 0 to |f.locals|
      invariant SameCall(f, m) && |m.locals| == |f.locals| && m.locals[i..] == f.locals[i..]
      invariant forall r :: 0 <= r < i ==> Chosen(c, f.locals[r], g.locals[r], m.locals[r])
    {
      var x, y := f.locals[i], g.locals[i];
      ghost var before := m;
      assert m.locals[i..][0] == x;
      if x.None? || y.None? {
        LeftAlone(c, x, y);
      } else {
        SelectChosen(c, x.value, y.value);
        m := m.(locals := m.locals[i := Some(SelectCreate(c, x.value, y.value))]);
      }
      assert m.locals[i + 1..] == before.locals[i..][1..];
    }
  }

  lemma LeftAlone(c: Expr, x: Option<Expr>, y: Option<Expr>)
    requires WF(c) && WFLocal(x) && WFLocal(y) && (x.None? || y.None?)
    ensures Chosen(c, x, y, x)
  {
  }

  method MergeStack(c: Expr, s: seq<StackFrame>, t: seq<StackFrame>) returns (u: seq<StackFrame>)
    requires WFConstraint(c) && WFStack(s) && WFStack(t) && SameCalls(s, t) && MatchingStacks(s, t)
    ensures |u| == |s| == |t| && forall i :: 0 <= i < |s| ==> ChosenFrame(c, s[i], t[i], u[i])
  {
    hide WF, Width, Folded, WFFrame, Matching, ChosenFrame, SameCall;
    u := s;
    for i := 0 to |s|
      invariant |u| == |s| && u[i..] == s[i..]
      invariant forall k :: 0 <= k < i ==> ChosenFrame(c, s[k], t[k], u[k])
    {
      assert u[i..][0] == s[i];
      ghost var before := u;
      var m := MergeFrame(c, u[i], t[i]);
      u := u[i := m];
      assert u[i + 1..] == before[i..][1..];
    }
  }

  // ----- memory -----

  /** The first `n` bytes have the value of the first view where the condition holds and that of the
      second elsewhere; the others are the first view's. */
  ghost predicate Blend(c: Expr, va: View, vb: View, v: View, n: nat)
    requires WF(c) && Inv(va) && Inv(vb)
  {
    && Inv(v) && v.size == va.size == vb.size
    && forall j, a :: 0 <= j < va.size ==>
         Byte(v, j, a) == if j < n && !Holds(c, a) then Byte(vb, j, a) else Byte(va, j, a)
  }

  lemma BlendNone(c: Expr, va: View, vb: View)
    requires WF(c) && Inv(va) && Inv(vb) && va.size == vb.size
    ensures Blend(c, va, vb, va, 0)
  {
  }

  lemma ByteTyped(x: Expr)
    requires WFByteExpr(x)
    ensures WFLocal(Some(x)) && Width(x) == INT8
  {
  }

  lemma CompactByte(z: Expr, n: nat)
    requires Compact(z, n) && WF(z) && Width(z) == INT8
    ensures WFByteExpr(z)
  {
  }

  lemma BlendStep(c: Expr, va: View, vb: View, v: View, n: nat, x: Expr, y: Expr)
    requires WFConstraint(c) && Inv(va) && Inv(vb) && Blend(c, va, vb, v, n) && n < va.size
    requires WFByteExpr(x) && WFByteExpr(y)
    requires forall a :: Eval(x, a) == Byte(v, n, a) && Eval(y, a) == Byte(vb, n, a)
    ensures WFByteExpr(SelectCreate(c, x, y))
    ensures Blend(c, va, vb, PutByte(v, n, SelectCreate(c, x, y)), n + 1)
  {
    hide Eval, WF, Folded, Width, SelectCreate, WFView, Coherent, PutByte, Byte, WFByteExpr;
    ByteTyped(x);
    ByteTyped(y);
    SelectShape(c, x, y);
    var z := SelectCreate(c, x, y);
    CompactByte(z, Reads(c) + Reads(x) + Reads(y));
    PutByteExact(v, n, z);
    forall j, a | 0 <= j < va.size
      ensures Byte(PutByte(v, n, z), j, a) == if j < n + 1 && !Holds(c, a) then Byte(vb, j, a) else Byte(va, j, a)
    {
      SelectSound(c, x, y, a);
    }
  }

  /** The state is bound to `mo` in the space, and to nothing else. */
  ghost predicate Sole(sp: AddressSpace, mo: MemoryObject, os: ObjectState, spaces: set<object>)
    reads *
  {
    && mo in sp.objects && sp.objects[mo] == os
    && forall s: AddressSpace, m :: s in spaces && m in s.objects && s.objects[m] == os ==> s == sp && m == mo
  }

  lemma BlendSize(c: Expr, va: View, vb: View, v: View, n: nat)
    requires WF(c) && Inv(va) && Inv(vb) && Blend(c, va, vb, v, n)
    ensures Inv(v) && WFView(v) && v.size == vb.size == va.size
  {
  }

  /** The body of the byte loop. */
  method MergeByte(sp: AddressSpace, other: AddressSpace, mo: MemoryObject, wos: ObjectState, otherOS: ObjectState,
                   i: nat, c: Expr, ghost va: View, ghost model: Model) returns (ghost w: View)
    requires sp in model && other in model && sp != other && Refines(model) && WFConstraint(c)
    requires mo in model[sp] && mo in model[other] && Sole(sp, mo, wos, model.Keys)
    requires mo in other.objects && other.objects[mo] == otherOS
    requires Inv(va) && Inv(model[sp][mo]) && Inv(model[other][mo]) && i < va.size
    requires Blend(c, va, model[other][mo], model[sp][mo], i)
    modifies wos.Repr, otherOS.Repr
    ensures fresh(wos.Repr - old(wos.Repr)) && fresh(otherOS.Repr - old(otherOS.Repr))
    ensures forall s: AddressSpace :: s in model ==> s.objects == old(s.objects)
    ensures Refines(model[sp := model[sp][mo := w]])
    ensures Blend(c, va, model[other][mo], w, i + 1)
  {
    hide ObjectState.Shape, ObjectState.V, ObjectState.Valid, Inv, SameBytes, WF, Width, Folded, SelectCreate,
         PutByte, Answers, WFByteExpr, Byte;
    hide Eval;
    ghost var v := model[sp][mo];
    assert Apart(sp, mo, other, mo) && Fits(sp, mo, model.Keys) && Fits(other, mo, model.Keys);
    assert wos.Repr !! otherOS.Repr;
    var av := sp.ReadByte(mo, wos, i, model);
    assert Apart(sp, mo, other, mo) && Fits(sp, mo, model.Keys) && Fits(other, mo, model.Keys);
    assert otherOS.Repr == old(otherOS.Repr);
    var bv := other.ReadByte(mo, otherOS, i, model);
    assert Apart(sp, mo, other, mo) && Fits(sp, mo, model.Keys);
    hide Refines;
    assert WFView(v) by { BlendSize(c, va, model[other][mo], v, i); }
    ByteTyped(av);
    ByteTyped(bv);
    w := PutByte(v, i, SelectCreate(c, av, bv));
    BlendStep(c, va, model[other][mo], v, i, av, bv);
    hide Blend;
    var z := sp.AccessState(mo, wos, Put(i, SelectCreate(c, av, bv)), model);
  }

  function Rebound(model: Model, sp: AddressSpace, mo: MemoryObject, v: View): Model
    requires sp in model
  {
    model[sp := model[sp][mo := v]]
  }

  lemma WithTwice(model: Model, sp: AddressSpace, mo: MemoryObject, v: View, w: View)
    requires sp in model
    ensures Rebound(Rebound(model, sp, mo, v), sp, mo, w) == Rebound(model, sp, mo, w)
    ensures mo in model[sp] ==> Rebound(model, sp, mo, model[sp][mo]) == model
  {
    assert model[sp][mo := v][mo := w] == model[sp][mo := w];
    if mo in model[sp] {
      assert model[sp][mo := model[sp][mo]] == model[sp];
    }
  }

  /** All bytes of one object, once its state may be written. */
  method MergeBytes(sp: AddressSpace, other: AddressSpace, mo: MemoryObject, wos: ObjectState, otherOS: ObjectState,
                    c: Expr, ghost model: Model)
    returns (ghost w: View)
    requires sp in model && other in model && sp != other && Refines(model) && WFConstraint(c)
    requires Sole(sp, mo, wos, model.Keys) && mo in other.objects && other.objects[mo] == otherOS
    requires mo in model[sp] && mo in model[other] && Inv(model[sp][mo]) && Inv(model[other][mo])
    requires model[sp][mo].size == model[other][mo].size == mo.size
    modifies wos.Repr, otherOS.Repr
    ensures Refines(Rebound(model, sp, mo, w)) && Blend(c, model[sp][mo], model[other][mo], w, mo.size)
    ensures sp.objects == old(sp.objects) && other.objects == old(other.objects)
    ensures fresh(wos.Repr - old(wos.Repr)) && fresh(otherOS.Repr - old(otherOS.Repr))
  {
    hide ObjectState.Shape, ObjectState.V, ObjectState.Valid, Inv, SameBytes, WF, Width, Folded, Blend, Byte, Eval,
         Refines;
    w := model[sp][mo];
    ghost var vb := model[other][mo];
    WithTwice(model, sp, mo, w, w);
    BlendNone(c, w, vb);
    for i := 0 to mo.size
      invariant Refines(Rebound(model, sp, mo, w)) && Blend(c, model[sp][mo], vb, w, i)
      invariant Sole(sp, mo, wos, model.Keys) && sp.objects == old(sp.objects) && other.objects == old(other.objects)
      invariant fresh(wos.Repr - old(wos.Repr)) && fresh(otherOS.Repr - old(otherOS.Repr))
    {
      ghost var cur := Rebound(model, sp, mo, w);
      assert cur.Keys == model.Keys;
      BlendSize(c, model[sp][mo], vb, w, i);
      ghost var x := MergeByte(sp, other, mo, wos, otherOS, i, c, model[sp][mo], cur);
      WithTwice(model, sp, mo, w, x);
      w := x;
    }
  }

  /** All bytes of one object that the two states do not share. */
  method MergeObject(sp: AddressSpace, other: AddressSpace, mo: MemoryObject, c: Expr, ghost model: Model)
    returns (ghost w: View)
    requires sp in model && other in model && sp != other && Refines(model) && WFConstraint(c)
    requires mo in sp.objects && mo in other.objects && !sp.objects[mo].readOnly
    requires mo in model[sp] && mo in model[other] && Inv(model[sp][mo]) && Inv(model[other][mo])
    requires model[sp][mo].size == model[other][mo].size == mo.size
    modifies sp`objects, sp.objects[mo].Repr, other.objects[mo].Repr
    ensures Refines(Rebound(model, sp, mo, w)) && Blend(c, model[sp][mo], model[other][mo], w, mo.size)
    ensures mo in sp.objects && sp.objects == old(sp.objects)[mo := sp.objects[mo]]
    ensures fresh(sp.objects[mo].Repr - old(sp.objects[mo].Repr))
    ensures other.objects == old(other.objects) && fresh(other.objects[mo].Repr - old(other.objects[mo].Repr))
  {
    hide ObjectState.Shape, ObjectState.V, ObjectState.Valid, Inv, SameBytes, WF, Width, Folded, Blend, Byte, Eval;
    var os, otherOS := sp.objects[mo], other.objects[mo];
    assert Fits(sp, mo, model.Keys) && Fits(other, mo, model.Keys);
    var wos := sp.GetWriteable(mo, os, model);
    hide Refines;
    w := MergeBytes(sp, other, mo, wos, otherOS, c, model);
  }

  lemma BlendShared(c: Expr, va: View, vb: View, u: View)
    requires WF(c) && Inv(va) && Inv(vb) && Inv(u) && SameBytes(va, u) && SameBytes(vb, u)
    ensures Blend(c, va, vb, va, va.size)
  {
    hide WFView, Coherent, Byte, Eval, WF;
  }

  /** The memory of the state lies in the frame. */
  ghost predicate Covered(s: AddressSpace, m: MemoryObject, frame: set<object>)
    reads *
  {
    m in s.objects ==> s.objects[m].Repr <= frame
  }

  ghost predicate Sized(m: map<MemoryObject, View>) { forall mo :: mo in m ==> Inv(m[mo]) && m[mo].size == mo.size }

  ghost predicate Contained(sp: AddressSpace, other: AddressSpace, frame: set<object>)
    reads *
  {
    forall m :: Covered(sp, m, frame) && Covered(other, m, frame)
  }

  /** The first space may write the states the two do not share. */
  ghost predicate Mergeable(sp: AddressSpace, other: AddressSpace, mo: MemoryObject)
    reads *
  {
    mo in sp.objects && mo in other.objects && sp.objects[mo] != other.objects[mo] ==> !sp.objects[mo].readOnly
  }

  ghost predicate Differ(sp: AddressSpace, other: AddressSpace, mo: MemoryObject, mutated: set<MemoryObject>)
    reads *
  {
    mo in mutated <==> mo in sp.objects && mo in other.objects && sp.objects[mo] != other.objects[mo]
  }

  /** One object of the merged memory, where `m` is the memory of one space and `o` of the other. */
  ghost predicate Merged(c: Expr, m: map<MemoryObject, View>, o: map<MemoryObject, View>, w: map<MemoryObject, View>,
                         mo: MemoryObject)
    requires WF(c) && Sized(m) && Sized(o) && mo in m && mo in o && mo in w
  {
    Blend(c, m[mo], o[mo], w[mo], mo.size)
  }

  /** The objects in `todo` still have their old bytes, the others are merged. */
  ghost predicate Partial(c: Expr, va: map<MemoryObject, View>, vb: map<MemoryObject, View>, m: map<MemoryObject, View>,
                          todo: set<MemoryObject>)
    requires WF(c)
  {
    && Sized(va) && Sized(vb) && va.Keys == vb.Keys == m.Keys
    && (forall mo :: mo in todo ==> mo in m && m[mo] == va[mo])
    && forall mo :: mo in m && mo !in todo ==> Merged(c, va, vb, m, mo)
  }

  lemma PartialAt(c: Expr, va: map<MemoryObject, View>, vb: map<MemoryObject, View>, m: map<MemoryObject, View>,
                  todo: set<MemoryObject>, mo: MemoryObject)
    requires WF(c) && Partial(c, va, vb, m, todo) && mo in todo
    ensures mo in va && mo in vb && mo in m && m[mo] == va[mo] && Inv(va[mo]) && Inv(vb[mo])
    ensures va[mo].size == vb[mo].size == mo.size
  {
    hide Inv;
  }

  lemma PartialStep(c: Expr, va: map<MemoryObject, View>, vb: map<MemoryObject, View>, m: map<MemoryObject, View>,
                    todo: set<MemoryObject>, mo: MemoryObject, w: View)
    requires WF(c) && Partial(c, va, vb, m, todo) && mo in todo && mo in va && mo in vb && Inv(va[mo]) && Inv(vb[mo])
    requires Blend(c, va[mo], vb[mo], w, mo.size)
    ensures Partial(c, va, vb, m[mo := w], todo - {mo})
  {
    hide Blend, WF, Inv;
    forall x | x in m && x !in todo
      ensures Merged(c, va, vb, m[mo := w], x)
    {
      assert Merged(c, va, vb, m, x);
    }
  }

  /** The objects the two spaces share have the same bytes in both. */
  lemma SharedMerged(c: Expr, sp: AddressSpace, other: AddressSpace, model: Model, mo: MemoryObject)
    requires WF(c) && sp in model && other in model && Refines(model) && mo in sp.objects && mo in other.objects
    requires sp.objects[mo] == other.objects[mo] && Sized(model[sp]) && Sized(model[other])
    ensures mo in model[sp] && mo in model[other] && Merged(c, model[sp], model[other], model[sp], mo)
  {
    hide ObjectState.V, ObjectState.Shape, Inv, SameBytes, WF, Blend;
    assert Agrees(sp, mo, model[sp]) && Agrees(other, mo, model[other]);
    BlendShared(c, model[sp][mo], model[other][mo], sp.objects[mo].V());
  }

  /** Merging one object leaves the bindings of all the others as they are. */
  method MergeOne(sp: AddressSpace, other: AddressSpace, mo: MemoryObject, c: Expr, ghost model: Model,
                  ghost frame: set<object>)
    returns (ghost w: View, ghost frame': set<object>)
    requires sp in model && other in model && sp != other && Refines(model) && WFConstraint(c)
    requires mo in sp.objects && mo in other.objects && !sp.objects[mo].readOnly
    requires mo in model[sp] && mo in model[other] && Inv(model[sp][mo]) && Inv(model[other][mo])
    requires model[sp][mo].size == model[other][mo].size == mo.size
    requires Contained(sp, other, frame)
    modifies sp`objects, frame
    ensures Refines(Rebound(model, sp, mo, w)) && Blend(c, model[sp][mo], model[other][mo], w, mo.size)
    ensures fresh(frame' - frame) && frame <= frame'
    ensures Contained(sp, other, frame')
    ensures sp.objects.Keys == old(sp.objects.Keys) && other.objects == old(other.objects)
    ensures forall m :: m in sp.objects && m != mo ==>
              sp.objects[m] == old(sp.objects[m]) && sp.objects[m].readOnly == old(sp.objects[m].readOnly)
  {
    hide ObjectState.Shape, ObjectState.V, Inv, SameBytes, WF, Width, Folded, Blend, Byte, Eval;
    ghost var os, os' := sp.objects[mo], other.objects[mo];
    assert Covered(sp, mo, frame) && Covered(other, mo, frame);
    forall m | m in sp.objects && m != mo
      ensures sp.objects[m] !in os.Repr + os'.Repr && sp.objects[m].Repr !! os.Repr + os'.Repr
    {
      assert Apart(sp, m, sp, mo) && Apart(sp, m, other, mo) && Fits(sp, m, model.Keys);
    }
    forall m | m in other.objects && m != mo
      ensures other.objects[m] !in os.Repr + os'.Repr
    {
      assert Apart(other, m, sp, mo) && Apart(other, m, other, mo) && Fits(other, m, model.Keys);
    }
    w := MergeObject(sp, other, mo, c, model);
    hide Refines;
    frame' := frame + sp.objects[mo].Repr + other.objects[mo].Repr;
    forall m
      ensures Covered(sp, m, frame') && Covered(other, m, frame')
    {
      assert old(Covered(sp, m, frame)) && old(Covered(other, m, frame));
    }
  }

  lemma BoundKeys(sp: AddressSpace, model: Model)
    requires sp in model && Refines(model)
    ensures sp.objects.Keys == model[sp].Keys
  {
    hide ObjectState.Shape, ObjectState.V, ObjectState.Valid, Inv, SameBytes;
    forall mo
      ensures mo in sp.objects <==> mo in model[sp]
    {
      assert Agrees(sp, mo, model[sp]);
    }
  }

  lemma UnsharedMerged(sp: AddressSpace, other: AddressSpace, mutated: set<MemoryObject>, c: Expr, model: Model)
    requires WF(c) && sp in model && other in model && Refines(model) && sp.objects.Keys == other.objects.Keys
    requires Sized(model[sp]) && Sized(model[other])
    requires forall mo :: Differ(sp, other, mo, mutated)
    ensures model[sp].Keys == sp.objects.Keys
    ensures Partial(c, model[sp], model[other], model[sp], mutated) && mutated <= sp.objects.Keys
  {
    hide ObjectState.Shape, ObjectState.V, ObjectState.Valid, Inv, SameBytes, WF, Merged;
    BoundKeys(sp, model);
    BoundKeys(other, model);
    forall mo | mo in mutated
      ensures mo in model[sp]
    {
      assert Differ(sp, other, mo, mutated);
    }
    forall mo | mo in model[sp] && mo !in mutated
      ensures Merged(c, model[sp], model[other], model[sp], mo)
    {
      assert Differ(sp, other, mo, mutated);
      SharedMerged(c, sp, other, model, mo);
    }
  }

  lemma MutatedWriteable(sp: AddressSpace, other: AddressSpace, mutated: set<MemoryObject>)
    requires forall mo :: Differ(sp, other, mo, mutated) && Mergeable(sp, other, mo)
    ensures forall mo :: mo in mutated ==> mo in sp.objects && !sp.objects[mo].readOnly
  {
    forall mo | mo in mutated
      ensures mo in sp.objects && !sp.objects[mo].readOnly
    {
      assert Mergeable(sp, other, mo) && Differ(sp, other, mo, mutated);
    }
  }

  /** The body of the loop over the objects. */
  method MergeNext(sp: AddressSpace, other: AddressSpace, ghost todo: set<MemoryObject>, mo: MemoryObject, c: Expr,
                   ghost model: Model, ghost m: map<MemoryObject, View>, ghost frame: set<object>)
    returns (ghost m': map<MemoryObject, View>, ghost frame': set<object>)
    requires sp in model && other in model && sp != other && WFConstraint(c) && mo in todo && todo <= sp.objects.Keys
    requires Refines(model[sp := m]) && Partial(c, model[sp], model[other], m, todo)
    requires sp.objects.Keys == other.objects.Keys && forall x :: x in todo ==> !sp.objects[x].readOnly
    requires Contained(sp, other, frame)
    modifies sp`objects, frame
    ensures Refines(model[sp := m']) && Partial(c, model[sp], model[other], m', todo - {mo})
    ensures sp.objects.Keys == other.objects.Keys == old(sp.objects.Keys)
    ensures forall x :: x in todo - {mo} ==> !sp.objects[x].readOnly
    ensures frame <= frame' && fresh(frame' - frame) && Contained(sp, other, frame')
  {
    hide Refines, Merged, Contained, Partial, Sized, Blend, Inv;
    PartialAt(c, model[sp], model[other], m, todo, mo);
    ghost var w;
    w, frame' := MergeOne(sp, other, mo, c, model[sp := m], frame);
    assert Rebound(model[sp := m], sp, mo, w) == model[sp := m[mo := w]];
    PartialStep(c, model[sp], model[other], m, todo, mo, w);
    m' := m[mo := w];
  }

  /** A byte-by-byte selection in every object the states do not share. */
  method MergeMemory(sp: AddressSpace, other: AddressSpace, mutated: set<MemoryObject>, c: Expr, ghost model: Model,
                     ghost frame: set<object>)
    returns (ghost m: map<MemoryObject, View>)
    requires sp in model && other in model && sp != other && Refines(model) && WFConstraint(c)
    requires Sized(model[sp]) && Sized(model[other]) && sp.objects.Keys == other.objects.Keys
    requires forall mo :: Differ(sp, other, mo, mutated)
    requires Contained(sp, other, frame) && forall mo :: Mergeable(sp, other, mo)
    modifies sp`objects, frame
    ensures Refines(model[sp := m]) && Partial(c, model[sp], model[other], m, {})
  {
    hide ObjectState.Shape, ObjectState.V, ObjectState.Valid, Inv, SameBytes, WF, Width, Folded, Blend, Byte, Eval;
    m := model[sp];
    hide Refines, Agrees, Merged, Mergeable, Contained, Partial, Sized, Differ;
    UnsharedMerged(sp, other, mutated, c, model);
    MutatedWriteable(sp, other, mutated);
    ghost var space := frame;
    var todo := mutated;
    assert model[sp := m] == model;
    while todo != {}
      invariant todo <= mutated && Refines(model[sp := m]) && Partial(c, model[sp], model[other], m, todo)
      invariant sp.objects.Keys == other.objects.Keys == old(sp.objects.Keys)
      invariant forall mo :: mo in todo ==> !sp.objects[mo].readOnly
      invariant fresh(space - frame) && Contained(sp, other, space)
    {
      var mo :| mo in todo;
      m, space := MergeNext(sp, other, todo, mo, c, model, m, space);
      todo := todo - {mo};
    }
  }

  // ----- the two conditions tell the states apart -----

  /** Where the first list holds the condition holds, and where only the second holds it does not. */
  ghost predicate Separates(c: Expr, csA: seq<Expr>, csB: seq<Expr>)
    requires WFSet(csA) && WFSet(csB)
  {
    && WFConstraint(c)
    && forall a :: (AllHold(csA, a) ==> Holds(c, a)) && (AllHold(csB, a) && !AllHold(csA, a) ==> !Holds(c, a))
  }

  lemma SuffixSeparates(c: Expr, csA: seq<Expr>, csB: seq<Expr>)
    requires WFSet(csA) && WFSet(csB)
    requires (forall e :: e in Elems(csA) ==> WFConstraint(e)) && IsConjunction(c, Elems(csA) - Elems(csB))
    ensures Separates(c, csA, csB) && WFConstraint(c)
  {
    hide WF, Width, Folded, Eval, AllHold, Elems;
    forall a
      ensures (AllHold(csA, a) ==> Holds(c, a)) && (AllHold(csB, a) && !AllHold(csA, a) ==> !Holds(c, a))
    {
      AllHoldElems(csA, a);
      AllHoldElems(csB, a);
    }
  }

  /** The common constraints and either suffix: exactly the assignments of the two states. */
  lemma JoinExact(inA: Expr, inB: Expr, csA: seq<Expr>, csB: seq<Expr>)
    requires WFSet(csA) && WFSet(csB)
    requires forall e :: e in Elems(csA) || e in Elems(csB) ==> WFConstraint(e)
    requires IsConjunction(inA, Elems(csA) - Elems(csB)) && IsConjunction(inB, Elems(csB) - Elems(csA))
    ensures Typed(inA, inB) && WFConstraint(OrCreate(inA, inB))
    ensures forall a :: EachHolds(Elems(csA) * Elems(csB), a) && Holds(OrCreate(inA, inB), a) <==>
                        AllHold(csA, a) || AllHold(csB, a)
  {
    hide WF, Width, Folded, Eval, AllHold, Elems, OrCreate;
    OrShape(inA, inB);
    var common := Elems(csA) * Elems(csB);
    forall a
      ensures EachHolds(common, a) && Holds(OrCreate(inA, inB), a) <==> AllHold(csA, a) || AllHold(csB, a)
    {
      AllHoldElems(csA, a);
      AllHoldElems(csB, a);
      OrHolds(inA, inB, a);
    }
  }

  // ----- what the merged state holds -----

  /** Under the constraints of the first state the register is the first's, under those of the second
      alone it is the second's. */
  ghost predicate FollowsLocal(csA: seq<Expr>, csB: seq<Expr>, x: Option<Expr>, y: Option<Expr>, l: Option<Expr>)
    requires WFSet(csA) && WFSet(csB)
  {
    if x.None? || y.None? then l == x
    else
      && l.Some? && WFLocal(l) && WFLocal(x) && WFLocal(y)
      && forall a ::
           && (AllHold(csA, a) ==> Eval(l.value, a) == Eval(x.value, a))
           && (AllHold(csB, a) && !AllHold(csA, a) ==> Eval(l.value, a) == Eval(y.value, a))
  }

  ghost predicate FollowsFrame(csA: seq<Expr>, csB: seq<Expr>, f: StackFrame, g: StackFrame, m: StackFrame)
    requires WFSet(csA) && WFSet(csB)
  {
    && SameCall(f, m) && |m.locals| == |f.locals| == |g.locals|
    && forall r :: 0 <= r < |f.locals| ==> FollowsLocal(csA, csB, f.locals[r], g.locals[r], m.locals[r])
  }

  ghost predicate FollowsStack(csA: seq<Expr>, csB: seq<Expr>, s: seq<StackFrame>, t: seq<StackFrame>,
                               u: seq<StackFrame>)
    requires WFSet(csA) && WFSet(csB)
  {
    |u| == |s| == |t| && forall i :: 0 <= i < |s| ==> FollowsFrame(csA, csB, s[i], t[i], u[i])
  }

  /** The same for the bytes of an object. */
  ghost predicate FollowsBytes(csA: seq<Expr>, csB: seq<Expr>, va: View, vb: View, v: View)
    requires WFSet(csA) && WFSet(csB)
  {
    && Inv(va) && Inv(vb) && Inv(v) && v.size == va.size == vb.size
    && forall j, a :: 0 <= j < va.size ==>
         && (AllHold(csA, a) ==> Byte(v, j, a) == Byte(va, j, a))
         && (AllHold(csB, a) && !AllHold(csA, a) ==> Byte(v, j, a) == Byte(vb, j, a))
  }

  ghost predicate FollowsMemory(csA: seq<Expr>, csB: seq<Expr>, va: map<MemoryObject, View>,
                                vb: map<MemoryObject, View>,
                                m: map<MemoryObject, View>)
    requires WFSet(csA) && WFSet(csB)
  {
    va.Keys == vb.Keys == m.Keys && forall mo :: mo in m ==> FollowsBytes(csA, csB, va[mo], vb[mo], m[mo])
  }

  lemma ChosenFollows(c: Expr, csA: seq<Expr>, csB: seq<Expr>, x: Option<Expr>, y: Option<Expr>, l: Option<Expr>)
    requires WFSet(csA) && WFSet(csB) && Separates(c, csA, csB)
    requires WFLocal(x) && WFLocal(y) && Chosen(c, x, y, l)
    ensures FollowsLocal(csA, csB, x, y, l)
  {
    hide WF, Width, Folded, Eval, AllHold, WFSet;
  }

  lemma StackFollows(c: Expr, csA: seq<Expr>, csB: seq<Expr>, s: seq<StackFrame>, t: seq<StackFrame>,
                     u: seq<StackFrame>)
    requires WFSet(csA) && WFSet(csB) && Separates(c, csA, csB)
    requires WFStack(s) && WFStack(t) && |u| == |s| == |t| && forall i :: 0 <= i < |s| ==>
             ChosenFrame(c, s[i], t[i], u[i])
    ensures FollowsStack(csA, csB, s, t, u) && WFStack(u)
  {
    assert WFConstraint(c);
    hide WF, Width, Folded, Eval, AllHold, WFSet, Separates, FollowsLocal;
    forall i, r | 0 <= i < |s| && 0 <= r < |s[i].locals|
      ensures FollowsLocal(csA, csB, s[i].locals[r], t[i].locals[r], u[i].locals[r])
      ensures WFLocal(u[i].locals[r])
    {
      assert ChosenFrame(c, s[i], t[i], u[i]) && WFFrame(s[i]) && WFFrame(t[i]);
      ChosenFollows(c, csA, csB, s[i].locals[r], t[i].locals[r], u[i].locals[r]);
    }
    forall i | 0 <= i < |s|
      ensures FollowsFrame(csA, csB, s[i], t[i], u[i]) && WFFrame(u[i])
    {
      assert ChosenFrame(c, s[i], t[i], u[i]);
    }
  }

  lemma MemoryFollows(c: Expr, csA: seq<Expr>, csB: seq<Expr>, va: map<MemoryObject, View>, vb: map<MemoryObject, View>,
                      m: map<MemoryObject, View>)
    requires WFSet(csA) && WFSet(csB) && Separates(c, csA, csB) && Partial(c, va, vb, m, {})
    ensures FollowsMemory(csA, csB, va, vb, m)
  {
    hide WF, Width, Folded, Eval, AllHold, WFSet, Inv, WFView, Byte;
    forall mo | mo in m
      ensures FollowsBytes(csA, csB, va[mo], vb[mo], m[mo])
    {
      assert Merged(c, va, vb, m, mo);
    }
  }

  // ----- the merge -----

  lemma ElemsTyped(cs: seq<Expr>)
    requires WFSet(cs)
    ensures forall e :: e in Elems(cs) ==> WFConstraint(e)
  {
    hide WFConstraint;
  }

  lemma NeitherHolds(csA: seq<Expr>, csB: seq<Expr>)
    requires WFSet(csA) && WFSet(csB) && forall a :: !(AllHold(csA, a) || AllHold(csB, a))
    ensures !Satisfiable(csA) && !Satisfiable(csB)
  {
    hide AllHold, WFSet;
  }

  class ExecutionState {
    var pc: nat
    var symbolics: seq<(MemoryObject, Array)>
    var stack: seq<StackFrame>
    var constraints: seq<Expr>
    const addressSpace: AddressSpace

    ghost predicate Valid()
      reads this
    {
      WFStack(stack) && WFSet(constraints)
    }

    constructor (pc: nat)
      ensures Valid() && this.pc == pc && stack == [] && constraints == [] && symbolics == []
      ensures fresh(addressSpace) && addressSpace.objects == map[]
    {
      this.pc, stack, constraints, symbolics := pc, [], [], [];
      addressSpace := new AddressSpace();
    }

    /** What the two states must have in common. */
    predicate Joinable(b: ExecutionState)
      reads this, addressSpace, b, b.addressSpace
    {
      && pc == b.pc && symbolics == b.symbolics && SameCalls(stack, b.stack)
      && addressSpace.objects.Keys == b.addressSpace.objects.Keys
    }

    /** The fields of a state are no part of any memory. */
    method Become(stack: seq<StackFrame>, constraints: seq<Expr>, ghost model: Model)
      requires this in model && Refines(model)
      modifies `stack, `constraints
      ensures this.stack == stack && this.constraints == constraints && Refines(model)
    {
      hide ObjectState.Shape, ObjectState.Valid, ObjectState.V, Inv, SameBytes;
      this.stack, this.constraints := stack, constraints;
      ghost var spaces := model.Keys;
      forall s: AddressSpace, m | s in spaces
        ensures Fits(s, m, spaces)
        ensures Agrees(s, m, model[s])
      {
        assert old(Fits(s, m, spaces));
        assert old(Agrees(s, m, model[s]));
      }
      forall s: AddressSpace, m, t: AddressSpace, m' | s in spaces && t in spaces
        ensures Apart(s, m, t, m')
      {
        assert old(Apart(s, m, t, m'));
      }
    }

    /** Folds `b` into this state. `None` is the assertion failure of a constraint set that has become
        constant false, which takes two states without a solution. */
    method Merge(b: ExecutionState, ghost model: Model, ghost frame: set<object>)
      returns (r: Option<bool>, ghost m: map<MemoryObject, View>)
      requires Valid() && b.Valid() && MatchingStacks(stack, b.stack)
      requires addressSpace in model && b.addressSpace in model && addressSpace != b.addressSpace && Refines(model)
      requires Sized(model[addressSpace]) && Sized(model[b.addressSpace])
      requires forall mo :: Mergeable(addressSpace, b.addressSpace, mo)
      requires Contained(addressSpace, b.addressSpace, frame)
      requires this != b && this in model && b in model && this !in frame && b !in frame
      modifies this, addressSpace`objects, frame
      ensures Valid() && Refines(model[addressSpace := m])
      ensures r == Some(false) <==> !old(Joinable(b))
      ensures r == Some(false) ==>
                unchanged(this) && addressSpace.objects == old(addressSpace.objects) && m == model[addressSpace]
      ensures r == Some(true) ==> forall a ::
                AllHold(constraints, a) <==> AllHold(old(constraints), a) || AllHold(b.constraints, a)
      ensures r == Some(true) ==> FollowsStack(old(constraints), b.constraints, old(stack), b.stack, stack)
      ensures r == Some(true) ==>
              FollowsMemory(old(constraints), b.constraints, model[addressSpace], model[b.addressSpace], m)
      ensures r.None? ==> !Satisfiable(old(constraints)) && !Satisfiable(b.constraints)
    {
      hide WF, Width, Folded, Eval, AllHold, WFConstraint, Elems, OrCreate, Refines, Contained, Mergeable, Sized,
           Partial, MatchingStacks;
      hide WFStack, FollowsStack, FollowsMemory, Separates, IsConjunction, EachHolds, Satisfiable;
      m := model[addressSpace];
      assert model[addressSpace := m] == model;
      if pc != b.pc || symbolics != b.symbolics || !SameCalls(stack, b.stack) {
        return Some(false), m;
      }
      var aConstraints, bConstraints := Elems(constraints), Elems(b.constraints);
      ElemsTyped(constraints);
      ElemsTyped(b.constraints);
      if addressSpace.objects.Keys != b.addressSpace.objects.Keys {
        return Some(false), m;
      }
      var mutated := set mo | mo in addressSpace.objects && addressSpace.objects[mo] != b.addressSpace.objects[mo];
      var inA := Conjunction(aConstraints - bConstraints);
      var inB := Conjunction(bConstraints - aConstraints);
      ghost var csA, csB := constraints, b.constraints;
      SuffixSeparates(inA, csA, csB);
      JoinExact(inA, inB, csA, csB);
      var merged := MergeStack(inA, stack, b.stack);
      StackFollows(inA, csA, csB, stack, b.stack, merged);
      assert forall mo :: Differ(addressSpace, b.addressSpace, mo, mutated);
      hide Differ, SameCalls;
      m := MergeMemory(addressSpace, b.addressSpace, mutated, inA, model, frame);
      MemoryFollows(inA, csA, csB, model[addressSpace], model[b.addressSpace], m);
      var joined := Gather(aConstraints * bConstraints, OrCreate(inA, inB));
      if joined.None? {
        NeitherHolds(csA, csB);
        return None, m;
      }
      Become(merged, joined.value, model[addressSpace := m]);
      r := Some(true);
    }
  }
}
