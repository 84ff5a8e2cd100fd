/** Finding the objects a pointer may point to: the lookup of a constant address, and the search in both
    directions from an example, with its early exits. */
module Resolution {
  import opened Collections
  import opened Bits
  import opened Exprs
  import opened Create
  import opened CreateSound
  import opened CreateShape
  import opened CreateTheorems
  import opened Constraints
  import opened AddressSpaces
  import opened Executors

  // ----- layout -----

  /** The addresses of an object; an empty object has its own. */
  predicate Contains(mo: MemoryObject, x: nat) {
    if mo.size == 0 then x == mo.address else mo.address <= x < mo.address + mo.size
  }

  /** Objects in the order of their addresses, which do not overlap and do not wrap around. */
  predicate Layout(objects: seq<MemoryObject>, w: nat) {
    && (forall i :: 0 <= i < |objects| ==> objects[i].address + objects[i].size <= Pow2(w) && objects[i].size < Pow2(w))
    && (forall i :: 0 <= i < |objects| ==> objects[i].address < Pow2(w))
    && forall i, j :: 0 <= i < j < |objects| ==>
         objects[i].address < objects[j].address && objects[i].address + objects[i].size <= objects[j].address
  }

  lemma ContainedOnce(objects: seq<MemoryObject>, w: nat, i: nat, j: nat, x: nat)
    requires Layout(objects, w) && i < |objects| && j < |objects| && Contains(objects[i], x) && Contains(objects[j], x)
    ensures i == j
  {
  }

  /** The position after the last object that starts at or below the address. */
  function UpperBound(objects: seq<MemoryObject>, x: nat): (k: nat)
    ensures k <= |objects| && (k > 0 ==> objects[k - 1].address <= x)
    ensures forall w :: Layout(objects, w) ==>
              (forall i :: 0 <= i < k ==> objects[i].address <= x) && forall i :: k <= i < |objects| ==>
                objects[i].address > x
  {
    if objects == [] then 0
    else if objects[|objects| - 1].address <= x then |objects|
    else
      var rest := objects[..|objects| - 1];
      assert forall w :: Layout(objects, w) ==> Layout(rest, w);
      UpperBound(rest, x)
  }

  /** A constant address: only the last object at or below it is looked at, which is as good as looking
      at all of them. */
  method ResolveOneConstant(objects: seq<MemoryObject>, address: nat, ghost w: nat) returns (r: Option<MemoryObject>)
    requires Layout(objects, w)
    ensures r.Some? ==> r.value in objects && Contains(r.value, address)
    ensures r.None? ==> forall mo :: mo in objects ==> !Contains(mo, address)
  {
    var k := UpperBound(objects, address);
    r := None;
    if k > 0 {
      var mo := objects[k - 1];
      if (mo.size == 0 && address == mo.address) || address - mo.address < mo.size {
        return Some(mo);
      }
    }
    forall mo | mo in objects
      ensures !Contains(mo, address)
    {
      var i :| 0 <= i < |objects| && objects[i] == mo;
      if i + 1 < k {
        assert objects[i].address + objects[i].size <= objects[k - 1].address;
      }
    }
  }

  // ----- the bounds check -----

  /** The address of a constant pointer, and of every object, in the width of a pointer. */
  function BaseExpr(mo: MemoryObject, w: nat): Expr { Constant(mo.address, w) }

  predicate WFPointer(p: Expr) { WF(p) && Folded(p) }

  function OffsetExpr(mo: MemoryObject, p: Expr): (e: Expr)
    requires WFPointer(p) && mo.address < Pow2(Width(p))
    ensures WF(e) && Width(e) == Width(p) && Folded(e)
  {
    BaseTyped(mo.address, p);
    SubShape(p, BaseExpr(mo, Width(p)));
    hide WF, Width, Folded, SubCreate;
    SubCreate(p, BaseExpr(mo, Width(p)))
  }

  lemma BaseTyped(x: nat, p: Expr)
    requires WF(p) && x < Pow2(Width(p))
    ensures Typed(p, Constant(x, Width(p))) && Folded(Constant(x, Width(p)))
  {
    WidthPositive(p);
  }

  function BoundsCheck(mo: MemoryObject, p: Expr): (e: Expr)
    requires WFPointer(p) && mo.address < Pow2(Width(p)) && mo.size < Pow2(Width(p))
    ensures WFConstraint(e)
  {
    var offset, size := OffsetExpr(mo, p), Constant(mo.size, Width(p));
    BaseTyped(mo.size, offset);
    BinaryShape(Eq, offset, size);
    BinaryShape(Ult, offset, size);
    hide WF, Width, Folded, BinaryCreate, OffsetExpr;
    if mo.size == 0 then BinaryCreate(Eq, offset, size) else BinaryCreate(Ult, offset, size)
  }

  lemma SubtractBase(x: nat, base: nat, w: nat)
    requires x < Pow2(w) && base < Pow2(w)
    ensures Wrap(x - base, w) == if base <= x then x - base else x - base + Pow2(w)
  {
    if base <= x {
      WrapSmall(x - base, w);
    } else {
      WrapOnce(x - base, w);
    }
  }

  lemma WrapOnce(x: int, w: nat)
    requires 0 - Pow2(w) <= x < 0
    ensures Wrap(x, w) == x + Pow2(w)
  {
    ModOnce(x, Pow2(w));
  }

  lemma ModOnce(x: int, m: nat)
    requires m > 0 && 0 - m <= x < 0
    ensures x % m == x + m
  {
    var q := x / m;
    assert x == q * m + x % m && 0 <= x % m < m;
    assert q == -1;
  }

  /** Equality and the order of the values, for the comparisons as the constructors build them. */
  lemma ComparisonHolds(l: Expr, r: Expr, a: Assignment)
    requires Typed(l, r)
    ensures WF(BinaryCreate(Eq, l, r)) && (Holds(BinaryCreate(Eq, l, r), a) <==> Eval(l, a) == Eval(r, a))
    ensures WF(BinaryCreate(Ult, l, r)) && (Holds(BinaryCreate(Ult, l, r), a) <==> Eval(l, a) < Eval(r, a))
    ensures WF(BinaryCreate(Uge, l, r)) && (Holds(BinaryCreate(Uge, l, r), a) <==> Eval(l, a) >= Eval(r, a))
  {
    hide WF, Width, Folded, BinaryCreate, Eval, Wrap, Signed, Pow2, BitAnd, BitOr, BitXor, TruncDiv;
    BinarySound(Eq, l, r, a);
    BinarySound(Ult, l, r, a);
    BinarySound(Uge, l, r, a);
    BinaryValue(Eq, l, r, a);
    BinaryValue(Ult, l, r, a);
    BinaryValue(Uge, l, r, a);
  }

  lemma {:induction false} OffsetValue(mo: MemoryObject, p: Expr, a: Assignment)
    requires WFPointer(p) && mo.address < Pow2(Width(p))
    ensures Eval(OffsetExpr(mo, p), a) == Wrap(Eval(p, a) - mo.address, Width(p))
  {
    hide WF, Width, Folded, SubCreate, Eval, Wrap, Pow2, OffsetExpr, Typed;
    OffsetIs(mo, p);
    SubConstant(p, BaseExpr(mo, Width(p)), a);
  }

  lemma SubConstant(l: Expr, r: Expr, a: Assignment)
    requires Typed(l, r) && r.Constant?
    ensures Eval(SubCreate(l, r), a) == Wrap(Eval(l, a) - r.value, Width(l))
  {
    hide WF, Width, SubCreate, Eval, Wrap, Pow2;
    SubSound(l, r, a);
    ConstValue(r, a);
  }

  lemma OffsetIs(mo: MemoryObject, p: Expr)
    requires WFPointer(p) && mo.address < Pow2(Width(p))
    ensures Typed(p, BaseExpr(mo, Width(p))) && OffsetExpr(mo, p) == SubCreate(p, BaseExpr(mo, Width(p)))
  {
    BaseTyped(mo.address, p);
    hide WF, Width, Folded, SubCreate, Pow2;
  }

  lemma CheckIs(mo: MemoryObject, p: Expr)
    requires WFPointer(p) && mo.address < Pow2(Width(p)) && mo.size < Pow2(Width(p))
    ensures Typed(OffsetExpr(mo, p), Constant(mo.size, Width(p)))
    ensures BoundsCheck(mo, p) ==
            BinaryCreate(if mo.size == 0 then Eq else Ult, OffsetExpr(mo, p), Constant(mo.size, Width(p)))
  {
    BaseTyped(mo.size, p);
    hide WF, Width, Folded, BinaryCreate, OffsetExpr, Pow2;
  }

  /** The check that is made with wrap-around arithmetic holds exactly when the pointer's value is one of
      the addresses of the object. */
  lemma {:induction false} BoundsExact(mo: MemoryObject, p: Expr, a: Assignment)
    requires WFPointer(p) && mo.address < Pow2(Width(p)) && mo.size < Pow2(Width(p))
    requires mo.address + mo.size <= Pow2(Width(p))
    ensures Holds(BoundsCheck(mo, p), a) <==> Contains(mo, Eval(p, a))
  {
    hide WF, Width, Folded, Eval, Wrap, Pow2, BoundsCheck, OffsetExpr, Contains;
    CheckHolds(mo, p, a);
    EvalBound(p, a);
    OffsetValue(mo, p, a);
    SubtractBase(Eval(p, a), mo.address, Width(p));
    Inside(mo, Eval(p, a), Pow2(Width(p)));
  }

  /** The comparison of the offset, as values. */
  lemma CheckHolds(mo: MemoryObject, p: Expr, a: Assignment)
    requires WFPointer(p) && mo.address < Pow2(Width(p)) && mo.size < Pow2(Width(p))
    ensures Holds(BoundsCheck(mo, p), a) <==>
      if mo.size == 0 then Eval(OffsetExpr(mo, p), a) == 0 else Eval(OffsetExpr(mo, p), a) < mo.size
  {
    var offset, size := OffsetExpr(mo, p), Constant(mo.size, Width(p));
    CheckIs(mo, p);
    hide WF, Width, Folded, BinaryCreate, OffsetExpr, Eval, Pow2, BoundsCheck;
    ConstValue(size, a);
    ComparisonHolds(offset, size, a);
  }

  lemma Inside(mo: MemoryObject, x: nat, space: nat)
    requires mo.address < space && mo.size < space && mo.address + mo.size <= space && x < space
    ensures var offset := if mo.address <= x then x - mo.address else x - mo.address + space;
      Contains(mo, x) <==> if mo.size == 0 then offset == 0 else offset < mo.size
  {
  }

  /** The check for an access of several bytes, the first at the pointer. */
  function BytesCheck(mo: MemoryObject, p: Expr, bytes: nat): (e: Expr)
    requires WFPointer(p) && mo.address < Pow2(Width(p)) && mo.size < Pow2(Width(p)) && bytes > 0
    ensures WFConstraint(e)
  {
    if bytes <= mo.size then
      var offset, first := OffsetExpr(mo, p), Constant(mo.size - bytes + 1, Width(p));
      BaseTyped(mo.size - bytes + 1, offset);
      BinaryShape(Ult, offset, first);
      hide WF, Width, Folded, BinaryCreate, OffsetExpr;
      BinaryCreate(Ult, offset, first)
    else FALSE
  }

  /** It holds exactly when all the bytes are in the object, which is not empty. */
  lemma BytesExact(mo: MemoryObject, p: Expr, bytes: nat, a: Assignment)
    requires WFPointer(p) && mo.address < Pow2(Width(p)) && mo.size < Pow2(Width(p)) && bytes > 0
    requires mo.address + mo.size <= Pow2(Width(p))
    ensures Holds(BytesCheck(mo, p, bytes), a) <==> mo.size > 0 && ContainsAll(mo, Eval(p, a), bytes)
  {
    hide WF, Width, Folded, Eval, Wrap, Pow2, BytesCheck, OffsetExpr, ContainsAll;
    BytesHolds(mo, p, bytes, a);
    EvalBound(p, a);
    OffsetValue(mo, p, a);
    SubtractBase(Eval(p, a), mo.address, Width(p));
    BytesInside(mo, Eval(p, a), bytes, Pow2(Width(p)));
  }

  lemma BytesAre(mo: MemoryObject, p: Expr, bytes: nat)
    requires WFPointer(p) && mo.address < Pow2(Width(p)) && mo.size < Pow2(Width(p)) && 0 < bytes <= mo.size
    ensures Typed(OffsetExpr(mo, p), Constant(mo.size - bytes + 1, Width(p)))
    ensures BytesCheck(mo, p, bytes) ==
            BinaryCreate(Ult, OffsetExpr(mo, p), Constant(mo.size - bytes + 1, Width(p)))
  {
    hide WF, Width, Folded, BinaryCreate, OffsetExpr, Pow2;
    BaseTyped(mo.size - bytes + 1, p);
  }

  /** The comparison of the offset, as values. */
  lemma BytesHolds(mo: MemoryObject, p: Expr, bytes: nat, a: Assignment)
    requires WFPointer(p) && mo.address < Pow2(Width(p)) && mo.size < Pow2(Width(p)) && bytes > 0
    ensures Holds(BytesCheck(mo, p, bytes), a) <==>
            bytes <= mo.size && Eval(OffsetExpr(mo, p), a) < mo.size - bytes + 1
  {
    if bytes <= mo.size {
      var offset, first := OffsetExpr(mo, p), Constant(mo.size - bytes + 1, Width(p));
      BytesAre(mo, p, bytes);
      hide WF, Width, Folded, BinaryCreate, OffsetExpr, Eval, Pow2, BytesCheck;
      ConstValue(first, a);
      ComparisonHolds(offset, first, a);
    } else {
      ConstValue(FALSE, a);
    }
  }

  /** All of some bytes are addresses of the object. */
  predicate ContainsAll(mo: MemoryObject, first: nat, bytes: nat) {
    forall x :: first <= x < first + bytes ==> Contains(mo, x)
  }

  lemma BytesInside(mo: MemoryObject, x: nat, bytes: nat, space: nat)
    requires mo.address < space && bytes > 0 && mo.size < space && mo.address + mo.size <= space && x < space
    ensures var offset := if mo.address <= x then x - mo.address else x - mo.address + space;
            bytes <= mo.size && offset < mo.size - bytes + 1 <==> mo.size > 0 && ContainsAll(mo, x, bytes)
  {
    assert ContainsAll(mo, x, bytes) ==> Contains(mo, x) && Contains(mo, x + bytes - 1);
  }

  function AtOrAbove(p: Expr, mo: MemoryObject): (e: Expr)
    requires WFPointer(p) && mo.address < Pow2(Width(p))
    ensures WFConstraint(e)
  {
    BaseTyped(mo.address, p);
    BinaryShape(Uge, p, BaseExpr(mo, Width(p)));
    hide WF, Width, Folded, BinaryCreate;
    BinaryCreate(Uge, p, BaseExpr(mo, Width(p)))
  }

  function Under(p: Expr, mo: MemoryObject): (e: Expr)
    requires WFPointer(p) && mo.address < Pow2(Width(p))
    ensures WFConstraint(e)
  {
    BaseTyped(mo.address, p);
    BinaryShape(Ult, p, BaseExpr(mo, Width(p)));
    hide WF, Width, Folded, BinaryCreate;
    BinaryCreate(Ult, p, BaseExpr(mo, Width(p)))
  }

  lemma CompareExact(p: Expr, mo: MemoryObject, a: Assignment)
    requires WFPointer(p) && mo.address < Pow2(Width(p))
    ensures Holds(AtOrAbove(p, mo), a) <==> Eval(p, a) >= mo.address
    ensures Holds(Under(p, mo), a) <==> Eval(p, a) < mo.address
  {
    BaseTyped(mo.address, p);
    hide WF, Width, Folded, BinaryCreate, Eval;
    ConstValue(BaseExpr(mo, Width(p)), a);
    ComparisonHolds(p, BaseExpr(mo, Width(p)), a);
  }

  // ----- what the pointer may point to -----

  /** Under some assignment of the path the pointer is in the object. */
  ghost predicate MayPoint(cs: seq<Expr>, p: Expr, mo: MemoryObject)
    requires WFSet(cs) && WF(p)
  {
    exists a :: AllHold(cs, a) && Contains(mo, Eval(p, a))
  }

  ghost predicate MustPoint(cs: seq<Expr>, p: Expr, mo: MemoryObject)
    requires WFSet(cs) && WF(p)
  {
    forall a :: AllHold(cs, a) ==> Contains(mo, Eval(p, a))
  }

  /** The objects found among those at the positions from `lo` to `hi` are those pointed to. */
  ghost predicate Found(cs: seq<Expr>, p: Expr, objects: seq<MemoryObject>, lo: nat, hi: nat, rl: seq<MemoryObject>)
    requires WFSet(cs) && WF(p) && lo <= hi <= |objects|
  {
    && Distinct(rl)
    && (forall mo :: mo in rl ==> MayPoint(cs, p, mo) && exists j :: lo <= j < hi && objects[j] == mo)
    && forall j :: lo <= j < hi && MayPoint(cs, p, objects[j]) ==> objects[j] in rl
  }

  ghost predicate AllFound(cs: seq<Expr>, p: Expr, objects: seq<MemoryObject>, rl: seq<MemoryObject>)
    requires WFSet(cs) && WF(p)
  {
    Distinct(rl) && forall mo :: mo in rl <==> mo in objects && MayPoint(cs, p, mo)
  }

  /** No object at these positions is pointed to. */
  ghost predicate NoneFrom(cs: seq<Expr>, p: Expr, objects: seq<MemoryObject>, lo: nat, hi: nat)
    requires WFSet(cs) && WF(p) && hi <= |objects|
  {
    forall j :: lo <= j < hi ==> !MayPoint(cs, p, objects[j])
  }

  lemma FoundExtend(cs: seq<Expr>, p: Expr, objects: seq<MemoryObject>, lo: nat, hi: nat, rl: seq<MemoryObject>, i: nat)
    requires WFSet(cs) && WF(p) && lo <= hi <= |objects| && Layout(objects, Width(p))
             && Found(cs, p, objects, lo, hi, rl)
    requires (i + 1 == lo || i == hi) && i < |objects|
    ensures Found(cs, p, objects, if i + 1 == lo then i else lo, if i + 1 == lo then hi else hi + 1,
                  if MayPoint(cs, p, objects[i]) then rl + [objects[i]] else rl)
  {
    hide WF, WFSet, MayPoint;
    forall j | lo <= j < hi
      ensures objects[j] != objects[i]
    {
      assert objects[j].address != objects[i].address;
    }
  }

  lemma FoundAll(cs: seq<Expr>, p: Expr, objects: seq<MemoryObject>, lo: nat, hi: nat, rl: seq<MemoryObject>)
    requires WFSet(cs) && WF(p) && lo <= hi <= |objects| && Found(cs, p, objects, lo, hi, rl)
    requires NoneFrom(cs, p, objects, 0, lo) && NoneFrom(cs, p, objects, hi, |objects|)
    ensures AllFound(cs, p, objects, rl)
  {
    hide WF, WFSet, MayPoint;
    forall mo | mo in objects && MayPoint(cs, p, mo)
      ensures mo in rl
    {
      var j :| 0 <= j < |objects| && objects[j] == mo;
      assert lo <= j < hi;
    }
  }

  /** A pointer that is always in one object is in no other. */
  lemma MustAlone(cs: seq<Expr>, p: Expr, objects: seq<MemoryObject>, i: nat)
    requires WFSet(cs) && WF(p) && Layout(objects, Width(p)) && i < |objects|
    requires MustPoint(cs, p, objects[i]) && MayPoint(cs, p, objects[i])
    ensures AllFound(cs, p, objects, [objects[i]])
  {
    hide WF, WFSet, AllHold, Eval;
    forall mo | mo in objects && MayPoint(cs, p, mo)
      ensures mo == objects[i]
    {
      var a :| AllHold(cs, a) && Contains(mo, Eval(p, a));
      var j :| 0 <= j < |objects| && objects[j] == mo;
      ContainedOnce(objects, Width(p), i, j, Eval(p, a));
    }
  }

  /** Below an object that the pointer never falls short of, none is pointed to. */
  lemma NoneBelow(cs: seq<Expr>, p: Expr, objects: seq<MemoryObject>, i: nat)
    requires WFSet(cs) && WF(p) && Layout(objects, Width(p)) && i < |objects|
    requires forall a :: AllHold(cs, a) ==> Eval(p, a) >= objects[i].address
    ensures NoneFrom(cs, p, objects, 0, i)
  {
    hide WF, WFSet, AllHold, Eval;
    forall j | 0 <= j < i
      ensures !MayPoint(cs, p, objects[j])
    {
      assert objects[j].address + objects[j].size <= objects[i].address && objects[j].address < objects[i].address;
    }
  }

  /** From an object on that the pointer never reaches, none is pointed to. */
  lemma NoneAbove(cs: seq<Expr>, p: Expr, objects: seq<MemoryObject>, i: nat)
    requires WFSet(cs) && WF(p) && Layout(objects, Width(p)) && i < |objects|
    requires forall a :: AllHold(cs, a) ==> Eval(p, a) < objects[i].address
    ensures NoneFrom(cs, p, objects, i, |objects|)
  {
    hide WF, WFSet, AllHold, Eval;
    forall j | i <= j < |objects|
      ensures !MayPoint(cs, p, objects[j])
    {
      assert objects[i].address <= objects[j].address;
    }
  }

  /** What the four kinds of query say. */
  lemma PointerQueries(valid: Oracle, cs: seq<Expr>, p: Expr, mo: MemoryObject)
    requires Correct(valid) && WFSet(cs) && Satisfiable(cs) && WFPointer(p)
    requires mo.address < Pow2(Width(p)) && mo.size < Pow2(Width(p)) && mo.address + mo.size <= Pow2(Width(p))
    ensures MayBeTrue(valid, cs, BoundsCheck(mo, p)) <==> MayPoint(cs, p, mo)
    ensures MustBeTrue(valid, cs, BoundsCheck(mo, p)) <==> MustPoint(cs, p, mo)
    ensures MustBeTrue(valid, cs, AtOrAbove(p, mo)) ==> forall a :: AllHold(cs, a) ==> Eval(p, a) >= mo.address
    ensures MustBeTrue(valid, cs, Under(p, mo)) ==> forall a :: AllHold(cs, a) ==> Eval(p, a) < mo.address
  {
    hide WF, Width, Folded, AllHold, Eval, BoundsCheck, AtOrAbove, Under, MustBeTrue, MayBeTrue, Correct, Satisfiable,
         Contains;
    QueriesExact(valid, cs, BoundsCheck(mo, p));
    QueriesExact(valid, cs, AtOrAbove(p, mo));
    QueriesExact(valid, cs, Under(p, mo));
    forall a
      ensures Holds(BoundsCheck(mo, p), a) <==> Contains(mo, Eval(p, a))
      ensures Holds(AtOrAbove(p, mo), a) <==> Eval(p, a) >= mo.address
      ensures Holds(Under(p, mo), a) <==> Eval(p, a) < mo.address
    {
      BoundsExact(mo, p, a);
      CompareExact(p, mo, a);
    }
  }

  // ----- the search -----

  /** 1 if the cap is reached, 0 if the first object found is the only one there can be, else 2. */
  method CheckPointerInObject(valid: Oracle, cs: seq<Expr>, p: Expr, mo: MemoryObject, rl: seq<MemoryObject>,
                              maxResolutions: nat)
    returns (code: nat, rl': seq<MemoryObject>)
    requires Correct(valid) && WFSet(cs) && Satisfiable(cs) && WFPointer(p)
    requires mo.address < Pow2(Width(p)) && mo.size < Pow2(Width(p)) && mo.address + mo.size <= Pow2(Width(p))
    ensures rl' == if MayPoint(cs, p, mo) then rl + [mo] else rl
    ensures code == 0 <==> MayPoint(cs, p, mo) && rl == [] && MustPoint(cs, p, mo)
    ensures code == 1 <==> MayPoint(cs, p, mo) && rl != [] && |rl'| == maxResolutions
    ensures code <= 2 && (code == 0 ==> rl' == [mo])
  {
    hide WF, Width, Folded, BoundsCheck, MayBeTrue, MustBeTrue, MayPoint, MustPoint, Correct, Satisfiable, AtOrAbove,
         Under;
    PointerQueries(valid, cs, p, mo);
    rl' := rl;
    var inBounds := BoundsCheck(mo, p);
    if MayBeTrue(valid, cs, inBounds) {
      rl' := rl' + [mo];
      if |rl'| == 1 {
        if MustBeTrue(valid, cs, inBounds) {
          return 0, rl';
        }
      } else if |rl'| == maxResolutions {
        return 1, rl';
      }
    }
    code := 2;
  }

  /** The search from the object the example is in, or should be in, down to lower addresses; `done` if
      it has ended the whole search. */
  method SearchBackward(valid: Oracle, cs: seq<Expr>, p: Expr, objects: seq<MemoryObject>, maxResolutions: nat,
                        start: nat)
    returns (done: bool, incomplete: bool, rl: seq<MemoryObject>, low: nat)
    requires Correct(valid) && WFSet(cs) && Satisfiable(cs) && WFPointer(p) && Layout(objects, Width(p))
             && start <= |objects|
    ensures low <= start && Found(cs, p, objects, low, start, rl)
    ensures !done ==> NoneFrom(cs, p, objects, 0, low) && (maxResolutions >= 2 ==> |rl| < maxResolutions)
    ensures done && !incomplete ==> AllFound(cs, p, objects, rl)
    ensures done && incomplete ==> |rl| == maxResolutions >= 2
    ensures done && maxResolutions >= 2 ==> |rl| <= maxResolutions
  {
    hide WF, Width, Folded, MayBeTrue, MustBeTrue, MayPoint, MustPoint, Correct, Satisfiable, AtOrAbove, Under;
    hide Found, NoneFrom, AllFound, WFSet, AllHold, Eval;
    rl, low, incomplete := [], start, false;
    FoundNone(cs, p, objects, start);
    NoneEmpty(cs, p, objects);
    while low != 0
      invariant low <= start && Found(cs, p, objects, low, start, rl)
      invariant maxResolutions >= 2 ==> |rl| < maxResolutions
    {
      low := low - 1;
      var mo := objects[low];
      FoundExtend(cs, p, objects, low + 1, start, rl, low);
      var code;
      code, rl := CheckPointerInObject(valid, cs, p, mo, rl, maxResolutions);
      if code != 2 {
        if code == 0 {
          MustAlone(cs, p, objects, low);
        }
        return true, code == 1, rl, low;
      }
      PointerQueries(valid, cs, p, mo);
      if MustBeTrue(valid, cs, AtOrAbove(p, mo)) {
        NoneBelow(cs, p, objects, low);
        return false, false, rl, low;
      }
    }
    done := false;
  }

  /** The search up to higher addresses. */
  method SearchForward(valid: Oracle, cs: seq<Expr>, p: Expr, objects: seq<MemoryObject>, maxResolutions: nat,
                       start: nat,
                       ghost low: nat, found: seq<MemoryObject>)
    returns (incomplete: bool, rl: seq<MemoryObject>, ghost high: nat)
    requires Correct(valid) && WFSet(cs) && Satisfiable(cs) && WFPointer(p) && Layout(objects, Width(p))
    requires low <= start <= |objects| && Found(cs, p, objects, low, start, found) && NoneFrom(cs, p, objects, 0, low)
    requires maxResolutions >= 2 ==> |found| < maxResolutions
    ensures start <= high <= |objects| && Found(cs, p, objects, low, high, rl)
    ensures !incomplete ==> AllFound(cs, p, objects, rl)
    ensures incomplete ==> |rl| == maxResolutions >= 2
    ensures maxResolutions >= 2 ==> |rl| <= maxResolutions
  {
    hide WF, Width, Folded, MayBeTrue, MustBeTrue, MayPoint, MustPoint, Correct, Satisfiable, AtOrAbove, Under;
    hide Found, NoneFrom, AllFound, WFSet, AllHold, Eval;
    rl, incomplete := found, false;
    NoneEmpty(cs, p, objects);
    for oi := start to |objects|
      invariant Found(cs, p, objects, low, oi, rl)
      invariant maxResolutions >= 2 ==> |rl| < maxResolutions
    {
      var mo := objects[oi];
      PointerQueries(valid, cs, p, mo);
      if MustBeTrue(valid, cs, Under(p, mo)) {
        NoneAbove(cs, p, objects, oi);
        FoundAll(cs, p, objects, low, oi, rl);
        return false, rl, oi;
      }
      FoundExtend(cs, p, objects, low, oi, rl, oi);
      var code;
      code, rl := CheckPointerInObject(valid, cs, p, mo, rl, maxResolutions);
      if code != 2 {
        if code == 0 {
          MustAlone(cs, p, objects, oi);
        }
        return code == 1, rl, oi + 1;
      }
    }
    high := |objects|;
    FoundAll(cs, p, objects, low, high, rl);
  }

  /** Wherever the search starts, what it finds is pointed to; unless it stops at the cap, which takes a
      cap of at least two, it finds every object there is to find. */
  method Resolve(valid: Oracle, cs: seq<Expr>, p: Expr, objects: seq<MemoryObject>, maxResolutions: nat, example: nat)
    returns (incomplete: bool, rl: seq<MemoryObject>)
    requires Correct(valid) && WFSet(cs) && Satisfiable(cs) && WFPointer(p) && Layout(objects, Width(p))
    ensures Distinct(rl) && forall mo :: mo in rl ==> mo in objects && MayPoint(cs, p, mo)
    ensures !incomplete ==> AllFound(cs, p, objects, rl)
    ensures incomplete ==> |rl| == maxResolutions >= 2
    ensures maxResolutions > 0 ==> (|rl| <= maxResolutions <==> maxResolutions != 1 || AtMostOne(cs, p, objects))
  {
    hide MayPoint, MustPoint, Correct, Satisfiable, Found, NoneFrom, AllFound, WFSet, AllHold, Eval, WF, Width, Folded;
    if p.Constant? {
      var r := ResolveOneConstant(objects, p.value, Width(p));
      rl := if r.Some? then [r.value] else [];
      ConstantFound(cs, p, objects, r);
      CapOfOne(cs, p, objects, rl);
      return false, rl;
    }
    var start := UpperBound(objects, example);
    var done, low;
    done, incomplete, rl, low := SearchBackward(valid, cs, p, objects, maxResolutions, start);
    FoundIn(cs, p, objects, low, start, rl);
    if !done {
      ghost var high;
      incomplete, rl, high := SearchForward(valid, cs, p, objects, maxResolutions, start, low, rl);
      FoundIn(cs, p, objects, low, high, rl);
    }
    if !incomplete {
      CapOfOne(cs, p, objects, rl);
    }
  }

  lemma ConstantFound(cs: seq<Expr>, p: Expr, objects: seq<MemoryObject>, r: Option<MemoryObject>)
    requires WFSet(cs) && WFPointer(p) && p.Constant? && Satisfiable(cs) && Layout(objects, Width(p))
    requires r.Some? ==> r.value in objects && Contains(r.value, p.value)
    requires r.None? ==> forall mo :: mo in objects ==> !Contains(mo, p.value)
    ensures AllFound(cs, p, objects, if r.Some? then [r.value] else [])
    ensures r.Some? ==> MayPoint(cs, p, r.value)
  {
    hide AllHold, Eval;
    var b :| AllHold(cs, b);
    forall a ensures Eval(p, a) == p.value {
      ConstValue(p, a);
    }
    if r.Some? {
      assert AllHold(cs, b) && Contains(r.value, Eval(p, b));
      forall mo | mo in objects && MayPoint(cs, p, mo)
        ensures mo == r.value
      {
        var i :| 0 <= i < |objects| && objects[i] == mo;
        var j :| 0 <= j < |objects| && objects[j] == r.value;
        ContainedOnce(objects, Width(p), i, j, p.value);
      }
    }
  }

  // ----- one object -----

  /** One object the pointer may point to, if there is any. */
  method ResolveOne(valid: Oracle, cs: seq<Expr>, p: Expr, objects: seq<MemoryObject>, example: nat)
    returns (r: Option<MemoryObject>)
    requires Correct(valid) && WFSet(cs) && Satisfiable(cs) && WFPointer(p) && Layout(objects, Width(p))
    requires exists a :: AllHold(cs, a) && Eval(p, a) == example
    ensures r.Some? ==> r.value in objects && MayPoint(cs, p, r.value)
    ensures r.None? ==> forall mo :: mo in objects ==> !MayPoint(cs, p, mo)
  {
    hide MayPoint, MustPoint, Correct, Satisfiable, NoneFrom, WFSet, AllHold, Eval, WF, Width, Folded;
    hide MayBeTrue, MustBeTrue, AtOrAbove, Under, BoundsCheck;
    if p.Constant? {
      r := ResolveOneConstant(objects, p.value, Width(p));
      ConstantFound(cs, p, objects, r);
      return;
    }
    var start := UpperBound(objects, example);
    if start > 0 && example - objects[start - 1].address < objects[start - 1].size {
      ExampleFound(cs, p, objects[start - 1], example);
      return Some(objects[start - 1]);
    }
    var oi: nat := start;
    NoneEmpty(cs, p, objects);
    NoneHere(cs, p, objects, start);
    ghost var low := start;
    while oi != 0
      invariant oi <= start && low == oi && NoneFrom(cs, p, objects, oi, start)
    {
      oi := oi - 1;
      var mo := objects[oi];
      PointerQueries(valid, cs, p, mo);
      if MayBeTrue(valid, cs, BoundsCheck(mo, p)) {
        return Some(mo);
      }
      NoneJoin(cs, p, objects, oi, start);
      low := oi;
      if MustBeTrue(valid, cs, AtOrAbove(p, mo)) {
        NoneBelow(cs, p, objects, oi);
        break;
      }
    }
    oi := start;
    ghost var high := start;
    while oi != |objects|
      invariant start <= oi <= |objects| && high == oi
      invariant NoneFrom(cs, p, objects, start, oi)
      decreases |objects| - oi
    {
      var mo := objects[oi];
      PointerQueries(valid, cs, p, mo);
      if MustBeTrue(valid, cs, Under(p, mo)) {
        NoneAbove(cs, p, objects, oi);
        break;
      }
      if MayBeTrue(valid, cs, BoundsCheck(mo, p)) {
        return Some(mo);
      }
      NoneNext(cs, p, objects, start, oi);
      oi := oi + 1;
      high := oi;
    }
    NoneAtAll(cs, p, objects, low, start, high);
    r := None;
  }

  lemma ExampleFound(cs: seq<Expr>, p: Expr, mo: MemoryObject, example: nat)
    requires WFSet(cs) && WF(p) && (exists a :: AllHold(cs, a) && Eval(p, a) == example)
    requires mo.address <= example < mo.address + mo.size
    ensures MayPoint(cs, p, mo)
  {
    hide AllHold, Eval, WF, WFSet;
    var a :| AllHold(cs, a) && Eval(p, a) == example;
    assert AllHold(cs, a) && Contains(mo, Eval(p, a));
  }

  lemma NoneHere(cs: seq<Expr>, p: Expr, objects: seq<MemoryObject>, k: nat)
    requires WFSet(cs) && WF(p) && k <= |objects|
    ensures NoneFrom(cs, p, objects, k, k)
  {
  }

  lemma NoneJoin(cs: seq<Expr>, p: Expr, objects: seq<MemoryObject>, lo: nat, hi: nat)
    requires WFSet(cs) && WF(p) && lo < hi <= |objects| && NoneFrom(cs, p, objects, lo + 1, hi)
             && !MayPoint(cs, p, objects[lo])
    ensures NoneFrom(cs, p, objects, lo, hi)
  {
    hide MayPoint, WF, WFSet;
  }

  lemma NoneNext(cs: seq<Expr>, p: Expr, objects: seq<MemoryObject>, lo: nat, hi: nat)
    requires WFSet(cs) && WF(p) && lo <= hi < |objects| && NoneFrom(cs, p, objects, lo, hi)
             && !MayPoint(cs, p, objects[hi])
    ensures NoneFrom(cs, p, objects, lo, hi + 1)
  {
    hide MayPoint, WF, WFSet;
  }

  lemma NoneAtAll(cs: seq<Expr>, p: Expr, objects: seq<MemoryObject>, lo: nat, mid: nat, hi: nat)
    requires WFSet(cs) && WF(p) && lo <= mid <= hi <= |objects|
    requires NoneFrom(cs, p, objects, 0, lo) && NoneFrom(cs, p, objects, lo, mid)
    requires NoneFrom(cs, p, objects, mid, hi) && NoneFrom(cs, p, objects, hi, |objects|)
    ensures forall mo :: mo in objects ==> !MayPoint(cs, p, mo)
  {
    hide MayPoint, WF, WFSet;
    forall mo | mo in objects
      ensures !MayPoint(cs, p, mo)
    {
      var j :| 0 <= j < |objects| && objects[j] == mo;
    }
  }

  // ----- a cap of one -----

  /** The pointer is in one object at most. */
  ghost predicate AtMostOne(cs: seq<Expr>, p: Expr, objects: seq<MemoryObject>)
    requires WFSet(cs) && WF(p)
  {
    forall x, y :: x in objects && y in objects && MayPoint(cs, p, x) && MayPoint(cs, p, y) ==> x == y
  }

  lemma CapOfOne(cs: seq<Expr>, p: Expr, objects: seq<MemoryObject>, rl: seq<MemoryObject>)
    requires WFSet(cs) && WF(p) && AllFound(cs, p, objects, rl)
    ensures |rl| <= 1 <==> AtMostOne(cs, p, objects)
  {
    hide MayPoint, WF, WFSet;
    if |rl| > 1 {
      assert rl[0] in rl && rl[1] in rl && rl[0] != rl[1];
    } else {
      forall x, y | x in objects && y in objects && MayPoint(cs, p, x) && MayPoint(cs, p, y)
        ensures x == y
      {
        assert x in rl && y in rl;
      }
    }
  }

  const BYTES: Array := Array(0, 1, INT32, INT8, [])

  /** A pointer that can have any of the values below 256. */
  const ANYWHERE: Expr := ZExt(Read(UpdateList(BYTES, Null), Constant(0, INT32)), 64)

  lemma AnywhereTyped()
    ensures WFPointer(ANYWHERE) && Width(ANYWHERE) == 64
  {
    Pow2Mono(0, INT8);
  }

  lemma AnywherePoints(mo: MemoryObject)
    requires mo.address < 64 && mo.size > 0
    ensures WFSet([]) && WF(ANYWHERE) && MayPoint([], ANYWHERE, mo)
  {
    AnywhereTyped();
    var a: Assignment := map[BYTES := [mo.address]];
    assert Pow2(6) == 64 by { assert Pow2(3) == 8; }
    Pow2Mono(6, INT8);
    WrapSmall(mo.address, INT8);
    assert Eval(ANYWHERE, a) == mo.address;
    assert AllHold([], a) && Contains(mo, Eval(ANYWHERE, a));
  }

  lemma NothingAssumed()
    ensures WFSet([]) && Satisfiable([])
  {
    assert AllHold([], map[]);
  }

  lemma TwoLaidOut()
    ensures Layout([MemoryObject(0, 16, 4), MemoryObject(1, 32, 4)], 64)
  {
    assert Pow2(6) == 64 by { assert Pow2(3) == 8; }
    Pow2Mono(6, 64);
  }

  /** The documented promise that no more objects than the cap are returned fails for a cap of one: here
      the search must return two. */
  lemma CapOfOneFails()
    ensures exists p, objects ::
              WFPointer(p) && Layout(objects, Width(p)) && WFSet([]) && Satisfiable([]) && !AtMostOne([], p, objects)
  {
    var objects := [MemoryObject(0, 16, 4), MemoryObject(1, 32, 4)];
    AnywhereTyped();
    NothingAssumed();
    TwoLaidOut();
    AnywherePoints(objects[0]);
    AnywherePoints(objects[1]);
    hide WF, Width, Folded, Pow2, AllHold, MayPoint, Layout, Satisfiable;
    assert objects[0] in objects && objects[1] in objects && objects[0] != objects[1];
    assert !AtMostOne([], ANYWHERE, objects);
  }

  lemma FoundNone(cs: seq<Expr>, p: Expr, objects: seq<MemoryObject>, k: nat)
    requires WFSet(cs) && WF(p) && k <= |objects|
    ensures Found(cs, p, objects, k, k, [])
  {
  }

  lemma NoneEmpty(cs: seq<Expr>, p: Expr, objects: seq<MemoryObject>)
    requires WFSet(cs) && WF(p)
    ensures NoneFrom(cs, p, objects, 0, 0) && NoneFrom(cs, p, objects, |objects|, |objects|)
  {
  }

  lemma FoundIn(cs: seq<Expr>, p: Expr, objects: seq<MemoryObject>, lo: nat, hi: nat, rl: seq<MemoryObject>)
    requires WFSet(cs) && WF(p) && lo <= hi <= |objects| && Found(cs, p, objects, lo, hi, rl)
    ensures Distinct(rl) && forall mo :: mo in rl ==> mo in objects && MayPoint(cs, p, mo)
  {
    hide WF, WFSet, MayPoint;
  }
}
