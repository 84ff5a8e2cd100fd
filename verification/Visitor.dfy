/** The rewriting visitor: an expression is rebuilt, through the constructors, from its rewritten
    kids. */
module Visitor {
  import opened Bits
  import opened Exprs
  import opened Create
  import opened CreateSound
  import opened CreateTheorems
  import opened CreateShape
  import opened ArrayReads

  // ----- kids -----

  /** The kids of an expression; update lists are not kids. */
  function Kids(e: Expr): seq<Expr> {
    match e
    case Constant(_, _) => []
    case Read(_, i) => [i]
    case Select(c, t, f) => [c, t, f]
    case Concat(l, r) => [l, r]
    case Extract(x, _, _) => [x]
    case ZExt(x, _) => [x]
    case SExt(x, _) => [x]
    case Not(x) => [x]
    case Binary(_, l, r) => [l, r]
  }

  predicate SameTypes(ks: seq<Expr>, ks': seq<Expr>) {
    |ks| == |ks'| && forall i :: 0 <= i < |ks| ==> WF(ks'[i]) && Width(ks'[i]) == Width(ks[i])
  }

  /** The same kind of node built from other kids of the same types. */
  function Rebuild(e: Expr, ks: seq<Expr>): (r: Expr)
    requires WF(e) && !e.Constant? && SameTypes(Kids(e), ks)
    ensures WF(r) && Width(r) == Width(e)
  {
    WidthPositive(e);
    match e
    case Read(ul, _) => ReadCreate(ul, ks[0])
    case Select(_, _, _) => SelectCreate(ks[0], ks[1], ks[2])
    case Concat(_, _) => ConcatCreate(ks[0], ks[1])
    case Extract(_, off, w) => ExtractCreate(ks[0], off, w)
    case ZExt(_, w) => ZExtCreate(ks[0], w)
    case SExt(_, w) => SExtCreate(ks[0], w)
    case Not(_) => NotCreate(ks[0])
    case Binary(k, _, _) => BinaryCreate(k, ks[0], ks[1])
  }

  predicate AllWF(ks: seq<Expr>) { forall i :: 0 <= i < |ks| ==> WF(ks[i]) }

  ghost predicate Below(ks: seq<Expr>, e: Expr) { forall i :: 0 <= i < |ks| ==> ks[i] < e && Size(ks[i]) < Size(e) }

  predicate SameValues(ks: seq<Expr>, ks': seq<Expr>, a: Assignment) {
    AllWF(ks) && SameTypes(ks, ks') && forall i :: 0 <= i < |ks| ==> Eval(ks[i], a) == Eval(ks'[i], a)
  }

  lemma KidsTyped(e: Expr)
    requires WF(e)
    ensures AllWF(Kids(e)) && Below(Kids(e), e)
  {
  }

  /** Rebuilding from kids of the same values gives an expression of the same value. */
  lemma RebuildSound(e: Expr, ks: seq<Expr>, a: Assignment)
    requires WF(e) && !e.Constant? && SameTypes(Kids(e), ks)
    requires SameValues(Kids(e), ks, a)
    ensures Eval(Rebuild(e, ks), a) == Eval(e, a)
  {
    hide EvalBinary, ReadCreate, SelectCreate, ConcatCreate, ExtractCreate, ZExtCreate, SExtCreate, BinaryCreate,
         NotCreate;
    WidthPositive(e);
    assert forall i :: 0 <= i < |ks| ==> Eval(Kids(e)[i], a) == Eval(ks[i], a);
    match e
    case Read(ul, _) => ReadSound(ul, ks[0], a);
    case Select(_, _, _) => SelectSound(ks[0], ks[1], ks[2], a);
    case Concat(_, _) => ConcatSound(ks[0], ks[1], a);
    case Extract(_, off, w) => ExtractSound(ks[0], off, w, a);
    case ZExt(x, w) => ZExtRebuild(x, ks[0], w, a);
    case SExt(_, w) => SExtSound(ks[0], w, a);
    case Not(x) => NotSound(ks[0], a); NotSound(x, a); NotRebuild(x, a);
    case Binary(k, l, r) => BinaryRebuild(k, l, r, ks[0], ks[1], a);
  }

  lemma ZExtRebuild(x: Expr, x': Expr, w: nat, a: Assignment)
    requires WF(x) && WF(x') && Width(x) == Width(x') <= w && w > 0 && Eval(x, a) == Eval(x', a)
    ensures Eval(ZExtCreate(x', w), a) == Eval(x, a)
  {
    hide Eval, ZExtCreate;
    ZExtSound(x', w, a);
    EvalBound(x, a);
    Pow2Mono(Width(x), w);
    WrapSmall(Eval(x, a), w);
  }

  lemma NotRebuild(x: Expr, a: Assignment)
    requires WF(x)
    ensures Eval(Not(x), a) == Pow2(Width(x)) - 1 - Eval(x, a)
  {
    EvalBound(x, a);
    WrapSmall(Pow2(Width(x)) - 1 - Eval(x, a), Width(x));
  }

  lemma BinaryRebuild(k: Kind, l: Expr, r: Expr, l': Expr, r': Expr, a: Assignment)
    requires Typed(l, r) && Typed(l', r') && Width(l') == Width(l)
    requires Eval(l, a) == Eval(l', a) && Eval(r, a) == Eval(r', a)
    ensures WF(Binary(k, l, r)) && Eval(BinaryCreate(k, l', r'), a) == Eval(Binary(k, l, r), a)
  {
    hide Eval, EvalBinary, BinaryCreate;
    BinarySound(k, l', r', a);
    BinaryValue(k, l', r', a);
    BinaryValue(k, l, r, a);
  }

  // ----- shapes -----

  function SumReads(ks: seq<Expr>): nat {
    if ks == [] then 0 else Reads(ks[0]) + SumReads(ks[1..])
  }

  /** The reads of a node that are not in its kids. */
  function OwnReads(e: Expr): nat { if e.Read? then 1 + NodeReads(e.updates.head) else 0 }

  predicate AllFolded(ks: seq<Expr>) { forall i :: 0 <= i < |ks| ==> Folded(ks[i]) }

  lemma SumOne(x: Expr)
    ensures SumReads([x]) == Reads(x)
  {
    assert [x][1..] == [];
  }

  lemma SumTwo(x: Expr, y: Expr)
    ensures SumReads([x, y]) == Reads(x) + Reads(y)
  {
    assert [x, y][1..] == [y];
    SumOne(y);
  }

  lemma SumThree(x: Expr, y: Expr, z: Expr)
    ensures SumReads([x, y, z]) == Reads(x) + Reads(y) + Reads(z)
  {
    assert [x, y, z][1..] == [y, z];
    SumTwo(y, z);
  }

  lemma SumFew(ks: seq<Expr>)
    ensures |ks| == 1 ==> SumReads(ks) == Reads(ks[0])
    ensures |ks| == 2 ==> SumReads(ks) == Reads(ks[0]) + Reads(ks[1])
    ensures |ks| == 3 ==> SumReads(ks) == Reads(ks[0]) + Reads(ks[1]) + Reads(ks[2])
  {
    if |ks| == 1 {
      assert ks == [ks[0]];
      SumOne(ks[0]);
    } else if |ks| == 2 {
      assert ks == [ks[0], ks[1]];
      SumTwo(ks[0], ks[1]);
    } else if |ks| == 3 {
      assert ks == [ks[0], ks[1], ks[2]];
      SumThree(ks[0], ks[1], ks[2]);
    }
  }

  lemma KidsFolded(e: Expr)
    requires Folded(e)
    ensures AllFolded(Kids(e)) && Reads(e) == OwnReads(e) + SumReads(Kids(e))
    ensures !e.Constant? ==> Reads(e) > 0
    ensures e.Read? ==> FoldedNodes(e.updates.head)
  {
    SumFew(Kids(e));
  }

  /** Rebuilding keeps foldedness and adds no read. */
  lemma RebuildShape(e: Expr, ks: seq<Expr>)
    requires WF(e) && !e.Constant? && SameTypes(Kids(e), ks) && AllFolded(ks)
    requires e.Read? ==> FoldedNodes(e.updates.head)
    ensures Compact(Rebuild(e, ks), OwnReads(e) + SumReads(ks))
  {
    hide Folded, Reads, SumReads, ReadCreate, SelectCreate, ConcatCreate, ExtractCreate, ZExtCreate, SExtCreate,
         BinaryCreate, NotCreate;
    WidthPositive(e);
    SumFew(ks);
    match e
    case Read(ul, _) => ReadShape(ul, ks[0]);
    case Select(_, _, _) => SelectShape(ks[0], ks[1], ks[2]);
    case Concat(_, _) => ConcatShape(ks[0], ks[1]);
    case Extract(_, off, w) => ExtractShape(ks[0], off, w);
    case ZExt(_, w) => CastShape(ks[0], w);
    case SExt(_, w) => CastShape(ks[0], w);
    case Not(x) => CastShape(ks[0], 1);
    case Binary(k, _, _) => BinaryShape(k, ks[0], ks[1]);
  }

  lemma SumSplit(ks: seq<Expr>)
    requires ks != []
    ensures SumReads(ks) == Reads(ks[0]) + SumReads(ks[1..])
  {
  }

  // ----- replacing one expression -----

  /** Every occurrence of `src` is changed to the constant `dst`, before or after its kids are. */
  function Replace(e: Expr, src: Expr, dst: Expr): (r: Expr)
    requires WF(e) && WF(src) && WF(dst) && Width(src) == Width(dst)
    ensures WF(r) && Width(r) == Width(e)
    decreases e, 1
  {
    if e.Constant? then e
    else if e == src then dst
    else
      KidsTyped(e);
      var ks := ReplaceAll(e, Kids(e), src, dst);
      var r := if ks != Kids(e) then Rebuild(e, ks) else e;
      if !r.Constant? && r == src then dst else r
  }

  function ReplaceAll(e: Expr, ks: seq<Expr>, src: Expr, dst: Expr): (ks': seq<Expr>)
    requires WF(src) && WF(dst) && Width(src) == Width(dst)
    requires AllWF(ks) && Below(ks, e)
    ensures SameTypes(ks, ks')
    decreases e, 0, |ks|
  {
    if ks == [] then []
    else [Replace(ks[0], src, dst)] + ReplaceAll(e, ks[1..], src, dst)
  }

  /** Under an assignment that makes the two equal, replacing keeps the value. */
  lemma {:induction false} ReplaceSound(e: Expr, src: Expr, dst: Expr, a: Assignment)
    requires WF(e) && WF(src) && WF(dst) && Width(src) == Width(dst) && Eval(src, a) == Eval(dst, a)
    ensures Eval(Replace(e, src, dst), a) == Eval(e, a)
    decreases e, 1
  {
    hide Eval, Rebuild, WF, Width;
    if !e.Constant? && e != src {
      KidsTyped(e);
      var ks := ReplaceAll(e, Kids(e), src, dst);
      ReplaceAllSound(e, Kids(e), src, dst, a);
      RebuildSound(e, ks, a);
    }
  }

  lemma {:induction false} ReplaceAllSound(e: Expr, ks: seq<Expr>, src: Expr, dst: Expr, a: Assignment)
    requires WF(src) && WF(dst) && Width(src) == Width(dst) && Eval(src, a) == Eval(dst, a)
    requires AllWF(ks) && Below(ks, e)
    ensures SameValues(ks, ReplaceAll(e, ks, src, dst), a)
    decreases e, 0, |ks|
  {
    hide Eval, Rebuild, WF, Width, Replace;
    if ks != [] {
      ReplaceSound(ks[0], src, dst, a);
      ReplaceAllSound(e, ks[1..], src, dst, a);
      var ks', rest := ReplaceAll(e, ks, src, dst), ReplaceAll(e, ks[1..], src, dst);
      forall i | 0 <= i < |ks|
        ensures Eval(ks[i], a) == Eval(ks'[i], a)
      {
        if i > 0 {
          assert ks[i] == ks[1..][i - 1] && ks'[i] == rest[i - 1];
        }
      }
    }
  }

  /** A folded expression that a replacement changes has lost a read. */
  lemma {:induction false} ReplaceShape(e: Expr, src: Expr, dst: Expr)
    requires WF(e) && WF(src) && WF(dst) && Width(src) == Width(dst) && Folded(e) && dst.Constant?
    ensures Folded(Replace(e, src, dst))
    ensures Replace(e, src, dst) == e || Reads(Replace(e, src, dst)) < Reads(e)
    decreases e, 1
  {
    hide Folded, Reads, Rebuild, WF, Width, SumReads;
    FoldedConst(dst);
    KidsFolded(e);
    if !e.Constant? && e != src {
      KidsTyped(e);
      var ks := ReplaceAll(e, Kids(e), src, dst);
      ReplaceAllShape(e, Kids(e), src, dst);
      RebuildShape(e, ks);
    }
  }

  lemma {:induction false} ReplaceAllShape(e: Expr, ks: seq<Expr>, src: Expr, dst: Expr)
    requires WF(src) && WF(dst) && Width(src) == Width(dst) && dst.Constant?
    requires AllWF(ks) && Below(ks, e)
    requires AllFolded(ks)
    ensures var ks' := ReplaceAll(e, ks, src, dst);
            AllFolded(ks') && (ks' == ks || SumReads(ks') < SumReads(ks))
    decreases e, 0, |ks|
  {
    hide Folded, Reads, Rebuild, WF, Width, Replace, SumReads;
    if ks != [] {
      ReplaceShape(ks[0], src, dst);
      ReplaceAllShape(e, ks[1..], src, dst);
      SumSplit(ks);
      SumSplit(ReplaceAll(e, ks, src, dst));
    }
  }

  // ----- simplifying with a table of equalities -----

  /** Each key of the table stands for a constant of its own width. */
  predicate WFTable(eqs: map<Expr, Expr>) {
    forall k :: k in eqs ==> WF(k) && WF(eqs[k]) && eqs[k].Constant? && Width(k) == Width(eqs[k])
  }

  /** Rewrites to a fixpoint: a rebuilt expression is visited again. The measure is the number of
      reads, then the size. */
  function Simplify(e: Expr, eqs: map<Expr, Expr>): (r: Expr)
    requires WF(e) && Folded(e) && WFTable(eqs)
    ensures WF(r) && Width(r) == Width(e) && Folded(r)
    ensures r == e || Reads(r) < Reads(e)
    decreases Reads(e), Size(e), 1
  {
    if e.Constant? then e
    else
      KidsTyped(e);
      KidsFolded(e);
      var ks := SimplifyAll(e, Kids(e), eqs);
      RebuildShape(e, ks);
      var r := if ks != Kids(e) then Simplify(Rebuild(e, ks), eqs) else e;
      if !r.Constant? && r in eqs then eqs[r] else r
  }

  function SimplifyAll(e: Expr, ks: seq<Expr>, eqs: map<Expr, Expr>): (ks': seq<Expr>)
    requires WFTable(eqs) && AllFolded(ks) && SumReads(ks) <= Reads(e)
    requires AllWF(ks) && Below(ks, e)
    ensures SameTypes(ks, ks') && AllFolded(ks')
    ensures ks' == ks || SumReads(ks') < SumReads(ks)
    decreases Reads(e), Size(e), 0, |ks|
  {
    if ks == [] then []
    else
      SumSplit(ks);
      var ks' := [Simplify(ks[0], eqs)] + SimplifyAll(e, ks[1..], eqs);
      SumSplit(ks');
      ks'
  }

  /** The assignment agrees with every equality of the table. */
  predicate TableHolds(eqs: map<Expr, Expr>, a: Assignment)
    requires WFTable(eqs)
  {
    forall k :: k in eqs ==> Eval(k, a) == Eval(eqs[k], a)
  }

  lemma {:induction false} SimplifySound(e: Expr, eqs: map<Expr, Expr>, a: Assignment)
    requires WF(e) && Folded(e) && WFTable(eqs) && TableHolds(eqs, a)
    ensures Eval(Simplify(e, eqs), a) == Eval(e, a)
    decreases Reads(e), Size(e), 1
  {
    hide Eval, Rebuild, WF, Width, Folded, Reads, SumReads, Size;
    if !e.Constant? {
      KidsTyped(e);
      KidsFolded(e);
      var ks := SimplifyAll(e, Kids(e), eqs);
      SimplifyAllSound(e, Kids(e), eqs, a);
      RebuildShape(e, ks);
      if ks != Kids(e) {
        RebuildSound(e, ks, a);
        SimplifySound(Rebuild(e, ks), eqs, a);
      }
    }
  }

  lemma {:induction false} SimplifyAllSound(e: Expr, ks: seq<Expr>, eqs: map<Expr, Expr>, a: Assignment)
    requires WFTable(eqs) && TableHolds(eqs, a) && AllFolded(ks) && SumReads(ks) <= Reads(e)
    requires AllWF(ks) && Below(ks, e)
    ensures SameValues(ks, SimplifyAll(e, ks, eqs), a)
    decreases Reads(e), Size(e), 0, |ks|
  {
    hide Eval, Rebuild, WF, Width, Folded, Reads, Size, Simplify;
    if ks != [] {
      SumSplit(ks);
      SimplifySound(ks[0], eqs, a);
      SimplifyAllSound(e, ks[1..], eqs, a);
    }
  }

  lemma {:induction false} SimplifyAllAt(e: Expr, ks: seq<Expr>, eqs: map<Expr, Expr>, i: nat)
    requires WFTable(eqs) && AllFolded(ks) && SumReads(ks) <= Reads(e) && i < |ks|
    requires AllWF(ks) && Below(ks, e)
    ensures SimplifyAll(e, ks, eqs)[i] == Simplify(ks[i], eqs)
    ensures Reads(ks[i]) <= Reads(e)
    decreases |ks|
  {
    hide Eval, Rebuild, WF, Width, Folded, Reads, Size, Simplify;
    SumSplit(ks);
    if i > 0 {
      SimplifyAllAt(e, ks[1..], eqs, i - 1);
    }
  }

  lemma SimplifyUnfold(e: Expr, eqs: map<Expr, Expr>)
    requires WF(e) && Folded(e) && WFTable(eqs) && !e.Constant?
    ensures AllWF(Kids(e)) && Below(Kids(e), e) && AllFolded(Kids(e)) && SumReads(Kids(e)) <= Reads(e)
    ensures var ks := SimplifyAll(e, Kids(e), eqs);
            && WF(Rebuild(e, ks)) && Folded(Rebuild(e, ks))
            && (ks != Kids(e) ==> Reads(Rebuild(e, ks)) < Reads(e))
            && var r := if ks != Kids(e) then Simplify(Rebuild(e, ks), eqs) else e;
            Simplify(e, eqs) == if !r.Constant? && r in eqs then eqs[r] else r
  {
    hide WF, Width, Rebuild, Folded, Reads, Size, SumReads;
    KidsTyped(e);
    KidsFolded(e);
    RebuildShape(e, SimplifyAll(e, Kids(e), eqs));
  }

  /** The visitor as it runs: results are remembered, and the kids are visited in a loop. */
  class MemoVisitor {
    const replacements: map<Expr, Expr>
    var visited: map<Expr, Expr>

    ghost predicate Valid()
      reads this
    {
      && WFTable(replacements)
      && forall e :: e in visited ==> WF(e) && Folded(e) && visited[e] == Simplify(e, replacements)
    }

    constructor (replacements: map<Expr, Expr>)
      requires WFTable(replacements)
      ensures Valid() && this.replacements == replacements && visited == map[]
    {
      this.replacements := replacements;
      visited := map[];
    }

    /** Remembering results changes none of them. */
    method Visit(e: Expr) returns (r: Expr)
      requires Valid() && WF(e) && Folded(e)
      modifies this
      ensures Valid() && r == Simplify(e, replacements)
      decreases Reads(e), Size(e), 2
    {
      if e.Constant? {
        r := VisitActual(e);
      } else if e in visited {
        r := visited[e];
      } else {
        r := VisitActual(e);
        visited := visited[e := r];
      }
    }

    method VisitActual(e: Expr) returns (r: Expr)
      requires Valid() && WF(e) && Folded(e)
      modifies this
      ensures Valid() && r == Simplify(e, replacements)
      decreases Reads(e), Size(e), 1
    {
      hide WF, Width, Rebuild, Folded, Reads, Size, SumReads, SimplifyAll;
      if e.Constant? {
        return e;
      }
      hide Simplify;
      SimplifyUnfold(e, replacements);
      var kids, rebuild := VisitKids(e);
      r := e;
      if rebuild {
        r := Rebuild(e, kids);
        r := Visit(r);
      }
      if !r.Constant? && r in replacements {
        r := replacements[r];
      }
    }

    /** The loop over the kids; `rebuild` says whether one of them changed. */
    method VisitKids(e: Expr) returns (kids: seq<Expr>, rebuild: bool)
      requires Valid() && WF(e) && Folded(e) && !e.Constant?
      requires AllWF(Kids(e)) && Below(Kids(e), e) && AllFolded(Kids(e)) && SumReads(Kids(e)) <= Reads(e)
      modifies this
      ensures Valid() && kids == SimplifyAll(e, Kids(e), replacements)
      ensures rebuild <==> kids != Kids(e)
      decreases Reads(e), Size(e), 0
    {
      hide WF, Width, Rebuild, Folded, Reads, Size, SumReads, SimplifyAll, Simplify;
      kids, rebuild := [], false;
      ghost var all := SimplifyAll(e, Kids(e), replacements);
      for i := 0 to |Kids(e)|
        invariant Valid() && |kids| == i
        invariant forall j :: 0 <= j < i ==> kids[j] == all[j]
        invariant rebuild <==> kids != Kids(e)[..i]
      {
        var kid := Kids(e)[i];
        SimplifyAllAt(e, Kids(e), replacements, i);
        var k := Visit(kid);
        assert Kids(e)[..i + 1] == Kids(e)[..i] + [kid];
        kids := kids + [k];
        if k != kid {
          rebuild := true;
        }
      }
      assert kids == all && Kids(e)[..|Kids(e)|] == Kids(e);
    }
  }
}
