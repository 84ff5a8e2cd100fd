/** Every canonicalising constructor keeps the value of the node it stands for, under every
    assignment and at every width. */
module CreateSound {
  import opened Bits
  import opened Exprs
  import opened Create

  // ----- arithmetic modulo a power of two -----

  lemma WrapIn(x: int, y: int, w: nat)
    ensures Wrap(Wrap(x, w) + y, w) == Wrap(x + y, w)
    ensures Wrap(Wrap(x, w) - y, w) == Wrap(x - y, w)
    ensures Wrap(x + Wrap(y, w), w) == Wrap(x + y, w)
    ensures Wrap(x - Wrap(y, w), w) == Wrap(x - y, w)
  {
    var m := Pow2(w);
    ModAdd(x, y, m);
    ModAdd(x, -y, m);
    ModAdd(y, x, m);
    ModSub(x, y, m);
  }

  lemma WrapSmall(x: int, w: nat)
    requires 0 <= x < Pow2(w)
    ensures Wrap(x, w) == x
  {
    ModSmall(x, Pow2(w));
  }

  lemma WrapZero(x: nat, w: nat)
    requires x < Pow2(w)
    ensures Wrap(0 + x, w) == x
  {
    WrapSmall(x, w);
  }

  lemma Pow2One()
    ensures Pow2(1) == 2 && Pow2(0) == 1
  {
    assert Pow2(1) == 2 * Pow2(0);
  }

  // ----- values of nodes -----

  lemma SumValue(e: Expr, a: Assignment)
    requires WF(e) && e.Binary?
    ensures e.kind == Add ==> Eval(e, a) == Wrap(Eval(e.left, a) + Eval(e.right, a), Width(e))
    ensures e.kind == Sub ==> Eval(e, a) == Wrap(Eval(e.left, a) - Eval(e.right, a), Width(e))
  {
  }

  lemma EqValue(l: Expr, r: Expr, a: Assignment)
    requires Typed(l, r)
    ensures WF(Binary(Eq, l, r)) && Eval(Binary(Eq, l, r), a) == BoolBit(Eval(l, a) == Eval(r, a))
  {
  }

  lemma OrValue(e: Expr, a: Assignment)
    requires WF(e) && e.Binary? && e.kind == Or && Width(e.left) == BOOL
    ensures Eval(e, a) == BoolBit(Holds(e.left, a) || Holds(e.right, a))
  {
    EvalBool(e.left, a);
    EvalBool(e.right, a);
    BitBool(Eval(e.left, a), Eval(e.right, a));
  }

  lemma XorValue(l: Expr, r: Expr, a: Assignment)
    requires Typed(l, r)
    ensures Eval(Binary(Xor, l, r), a) == BitXor(Eval(l, a), Eval(r, a))
  {
  }

  lemma ConstValue(c: Expr, a: Assignment)
    requires WF(c) && c.Constant?
    ensures Eval(c, a) == c.value && c.value < Pow2(c.width)
    ensures Width(c) == c.width > 0 && Size(c) == 1
  {
  }

  lemma FoldSum(l: Expr, r: Expr)
    requires Typed(l, r) && l.Constant? && r.Constant?
    ensures FoldBinary(Add, l, r) == Constant(Wrap(l.value + r.value, l.width), l.width)
    ensures FoldBinary(Sub, l, r) == Constant(Wrap(l.value - r.value, l.width), l.width)
    ensures Width(FoldBinary(Add, l, r)) == Width(l) == Width(FoldBinary(Sub, l, r))
  {
  }

  // ----- And, Or -----

  lemma AndPartialSound(l: Expr, cr: Expr, a: Assignment)
    requires Typed(l, cr) && cr.Constant?
    ensures Eval(AndPartial(l, cr), a) == BitAnd(Eval(l, a), Eval(cr, a))
  {
    EvalBound(l, a);
    BitAndOnes(Eval(l, a), Width(l));
    BitAndZero(Eval(l, a));
  }

  lemma AndSound(l: Expr, r: Expr, a: Assignment)
    requires Typed(l, r)
    ensures Eval(AndCreate(l, r), a) == Eval(Binary(And, l, r), a)
  {
    BitAndComm(Eval(l, a), Eval(r, a));
    if l.Constant? && !r.Constant? {
      AndPartialSound(r, l, a);
    } else if r.Constant? && !l.Constant? {
      AndPartialSound(l, r, a);
    }
  }

  lemma OrPartialSound(l: Expr, cr: Expr, a: Assignment)
    requires Typed(l, cr) && cr.Constant?
    ensures Eval(OrPartial(l, cr), a) == BitOr(Eval(l, a), Eval(cr, a))
  {
    EvalBound(l, a);
    BitOrOnes(Eval(l, a), Width(l));
    BitOrZero(Eval(l, a));
  }

  lemma OrSound(l: Expr, r: Expr, a: Assignment)
    requires Typed(l, r)
    ensures Eval(OrCreate(l, r), a) == Eval(Binary(Or, l, r), a)
  {
    BitOrComm(Eval(l, a), Eval(r, a));
    if l.Constant? && !r.Constant? {
      OrPartialSound(r, l, a);
    } else if r.Constant? && !l.Constant? {
      OrPartialSound(l, r, a);
    }
  }

  lemma EvalBool(e: Expr, a: Assignment)
    requires WF(e) && Width(e) == BOOL
    ensures Eval(e, a) <= 1
  {
    EvalBound(e, a);
    Pow2One();
  }

  lemma AndHolds(l: Expr, r: Expr, a: Assignment)
    requires Typed(l, r) && Width(l) == BOOL
    ensures Holds(AndCreate(l, r), a) <==> Holds(l, a) && Holds(r, a)
    ensures Eval(AndCreate(l, r), a) == BoolBit(Holds(l, a) && Holds(r, a))
  {
    hide AndCreate;
    AndSound(l, r, a);
    EvalBool(l, a);
    EvalBool(r, a);
    BitBool(Eval(l, a), Eval(r, a));
  }

  lemma OrHolds(l: Expr, r: Expr, a: Assignment)
    requires Typed(l, r) && Width(l) == BOOL
    ensures Holds(OrCreate(l, r), a) <==> Holds(l, a) || Holds(r, a)
    ensures Eval(OrCreate(l, r), a) == BoolBit(Holds(l, a) || Holds(r, a))
  {
    hide OrCreate;
    OrSound(l, r, a);
    EvalBool(l, a);
    EvalBool(r, a);
    BitBool(Eval(l, a), Eval(r, a));
  }

  // ----- Eq -----

  /** A sign extension equals a constant exactly when the constant is a sign extension of its
      truncation and the source equals that truncation. */
  lemma SExtEq(x: nat, c: nat, from: nat, to: nat)
    requires 0 < from <= to && x < Pow2(from) && c < Pow2(to)
    ensures var t := Wrap(c, from);
      && t < Pow2(from)
      && (c == Wrap(Signed(t, from), to) ==> (Wrap(Signed(x, from), to) == c <==> x == t))
      && (c != Wrap(Signed(t, from), to) ==> Wrap(Signed(x, from), to) != c)
  {
    WrapOfSigned(x, from, to);
  }

  lemma SignedMod(x: nat, w: nat)
    requires 0 < w && x < Pow2(w)
    ensures Wrap(Signed(x, w), w) == x
  {
    if x >= Pow2(w - 1) {
      ModShift(x, -1, Pow2(w));
    }
    WrapSmall(x, w);
  }

  /** Truncation in two steps is truncation in one. */
  lemma WrapWrap(x: int, from: nat, to: nat)
    requires from <= to
    ensures Wrap(Wrap(x, to), from) == Wrap(x, from)
  {
    var m, k, q := Pow2(from), Pow2(to - from), x / Pow2(to);
    Pow2Add(to - from, from);
    DivMod(x, Pow2(to));
    MulAssoc(q, k, m);
    ModShift(Wrap(x, to), q * k, m);
  }

  /** Truncating a sign extension gives the source back. */
  lemma WrapOfSigned(x: nat, from: nat, to: nat)
    requires 0 < from <= to && x < Pow2(from)
    ensures Wrap(Wrap(Signed(x, from), to), from) == x
  {
    WrapWrap(Signed(x, from), from, to);
    SignedMod(x, from);
  }

  lemma ZExtEq(x: nat, c: nat, from: nat, to: nat)
    requires 0 < from <= to && x < Pow2(from) && c < Pow2(to)
    ensures var t := Wrap(c, from);
      && t < Pow2(from)
      && (c == Wrap(t, to) ==> (x == c <==> x == t))
      && (c != Wrap(t, to) ==> x != c)
  {
    var t := Wrap(c, from);
    Pow2Mono(from, to);
    WrapSmall(x, from);
    WrapSmall(t, to);
  }

  /** `c0 == c1 + b` exactly when `c0 - c1 == b`, and `c0 == c1 - b` exactly when `c1 - c0 == b`. */
  lemma MoveConstant(c0: nat, c1: nat, b: nat, w: nat)
    requires c0 < Pow2(w) && c1 < Pow2(w) && b < Pow2(w)
    ensures c0 == Wrap(c1 + b, w) <==> Wrap(c0 - c1, w) == b
    ensures c0 == Wrap(c1 - b, w) <==> Wrap(c1 - c0, w) == b
  {
    hide Wrap;
    WrapSmall(c0, w);
    WrapSmall(b, w);
    WrapIn(c1 + b, c1, w);
    WrapIn(c1, c0 - c1, w);
    WrapIn(c1, c1 - b, w);
    WrapIn(c1, c1 - c0, w);
    assert c1 - (c1 - b) == b && c1 - (c1 - c0) == c0;
  }

  lemma EqBasicSound(l: Expr, r: Expr, a: Assignment)
    requires Typed(l, r)
    ensures Eval(EqBasic(l, r), a) == BoolBit(Eval(l, a) == Eval(r, a))
  {
    EqValue(l, r, a);
  }

  /** The one-bit rules: the truth of the right side, double negation, De Morgan. */
  lemma {:induction false} EqPartialBoolSound(cl: Expr, r: Expr, a: Assignment)
    requires Typed(cl, r) && cl.Constant? && cl.width == BOOL
    ensures Eval(EqPartialR(cl, r), a) == BoolBit(cl.value == Eval(r, a))
    decreases Size(r) + 1, 0, 0
  {
    hide Eval, EvalBinary, AndCreate, EqBasic;
    EvalBool(r, a);
    EvalBool(cl, a);
    ConstValue(cl, a);
    if cl.value == 1 {
    } else if r.Binary? && r.kind == Eq && r.left.Constant? && r.left == FALSE {
      EqValue(r.left, r.right, a);
      ConstValue(r.left, a);
      EvalBool(r.right, a);
    } else if r.Binary? && r.kind == Or {
      IsZeroSound(r.left, a);
      IsZeroSound(r.right, a);
      AndHolds(IsZero(r.left), IsZero(r.right), a);
      OrValue(r, a);
    } else {
      EqBasicSound(cl, r, a);
    }
  }

  lemma {:induction false} EqPartialCastSound(cl: Expr, r: Expr, a: Assignment)
    requires Typed(cl, r) && cl.Constant? && cl.width != BOOL && (r.SExt? || r.ZExt?)
    ensures Eval(EqPartialR(cl, r), a) == BoolBit(cl.value == Eval(r, a))
    decreases Size(r) + 1, 0, 0
  {
    WidthPositive(r.src);
    EvalBound(r.src, a);
    var from := Width(r.src);
    var trunc := FoldZExt(cl, from);
    EqSound(r.src, trunc, a);
    if r.SExt? {
      SExtEq(Eval(r.src, a), cl.value, from, cl.width);
    } else {
      ZExtEq(Eval(r.src, a), cl.value, from, cl.width);
    }
  }

  lemma {:induction false} EqPartialSound(cl: Expr, r: Expr, a: Assignment)
    requires Typed(cl, r) && cl.Constant?
    ensures Eval(EqPartialR(cl, r), a) == BoolBit(cl.value == Eval(r, a))
    decreases Size(r) + 1, 0, 1
  {
    hide Eval, EvalBinary, EqBasic, FoldBinary, Wrap;
    ConstValue(cl, a);
    if cl.width == BOOL {
      EqPartialBoolSound(cl, r, a);
    } else if r.SExt? || r.ZExt? {
      EqPartialCastSound(cl, r, a);
    } else if Headed(r, Add) {
      SumValue(r, a);
      ConstValue(r.left, a);
      FoldSum(cl, r.left);
      EvalBound(r.right, a);
      EqPartialSound(FoldBinary(Sub, cl, r.left), r.right, a);
      MoveConstant(cl.value, r.left.value, Eval(r.right, a), cl.width);
    } else if Headed(r, Sub) {
      SumValue(r, a);
      ConstValue(r.left, a);
      FoldSum(r.left, cl);
      EvalBound(r.right, a);
      EqPartialSound(FoldBinary(Sub, r.left, cl), r.right, a);
      MoveConstant(cl.value, r.left.value, Eval(r.right, a), cl.width);
    } else {
      EqBasicSound(cl, r, a);
    }
  }

  lemma {:induction false} EqSound(l: Expr, r: Expr, a: Assignment)
    requires Typed(l, r)
    ensures Eval(EqCreate(l, r), a) == BoolBit(Eval(l, a) == Eval(r, a))
    decreases Size(l) + Size(r), 1, 0
  {
    if l.Constant? {
      if !r.Constant? {
        EqPartialSound(l, r, a);
      }
    } else if r.Constant? {
      EqPartialSound(r, l, a);
    } else {
      EqBasicSound(l, r, a);
    }
  }

  lemma {:induction false} IsZeroSound(x: Expr, a: Assignment)
    requires WF(x)
    ensures Eval(IsZero(x), a) == BoolBit(Eval(x, a) == 0)
    ensures Width(x) == BOOL ==> (Holds(IsZero(x), a) <==> !Holds(x, a))
    decreases Size(x) + 1, 2, 0
  {
    WidthPositive(x);
    EqSound(x, Zero(Width(x)), a);
    if Width(x) == BOOL {
      EvalBool(x, a);
    }
  }

  lemma NeSound(l: Expr, r: Expr, a: Assignment)
    requires Typed(l, r)
    ensures Eval(NeCreate(l, r), a) == BoolBit(Eval(l, a) != Eval(r, a))
  {
    EqSound(l, r, a);
    EqSound(FALSE, EqCreate(l, r), a);
  }

  // ----- Xor -----

  lemma XorPartialSound(cl: Expr, r: Expr, a: Assignment)
    requires Typed(cl, r) && cl.Constant?
    ensures Eval(XorPartialR(cl, r), a) == BitXor(cl.value, Eval(r, a))
  {
    BitXorZero(Eval(r, a));
    if !IsZeroConst(cl) && cl.width == BOOL {
      EvalBool(r, a);
      EvalBool(cl, a);
      EqPartialSound(FALSE, r, a);
      BitBool(cl.value, Eval(r, a));
    }
  }

  lemma XorSound(l: Expr, r: Expr, a: Assignment)
    requires Typed(l, r)
    ensures Eval(XorCreate(l, r), a) == Eval(Binary(Xor, l, r), a)
  {
    BitXorComm(Eval(l, a), Eval(r, a));
    if l.Constant? && !r.Constant? {
      XorPartialSound(l, r, a);
    } else if r.Constant? && !l.Constant? {
      XorPartialSound(r, l, a);
    }
  }

  /** Modulo two, sum and difference are exclusive or. */
  lemma BoolSum(x: nat, y: nat)
    requires x <= 1 && y <= 1
    ensures Wrap(x + y, BOOL) == BitXor(x, y) == Wrap(x - y, BOOL)
  {
    BitBool(x, y);
    Pow2One();
  }

  // ----- Add, Sub -----

  lemma {:induction false} AddPartialSound(cl: Expr, r: Expr, a: Assignment)
    requires Typed(cl, r) && cl.Constant?
    ensures Eval(AddPartialR(cl, r), a) == Wrap(cl.value + Eval(r, a), Width(r))
    decreases 1 + Size(r), 0
  {
    hide Eval, EvalBinary, XorPartialR, FoldBinary, Wrap, AddCreate, SubCreate;
    EvalBound(r, a);
    ConstValue(cl, a);
    if cl.width == BOOL {
      BoolPartial(cl, r, a);
    } else if IsZeroConst(cl) {
      WrapZero(Eval(r, a), Width(r));
    } else if HasHead(r) {
      var b, x := r.left, r.right;
      SumValue(r, a);
      ConstValue(b, a);
      FoldSum(cl, b);
      WrapIn(cl.value + b.value, Eval(x, a), cl.width);
      if r.kind == Add {
        AddSound(FoldBinary(Add, cl, b), x, a);
        WrapIn(cl.value, b.value + Eval(x, a), cl.width);
      } else {
        SubSound(FoldBinary(Add, cl, b), x, a);
        WrapIn(cl.value, b.value - Eval(x, a), cl.width);
      }
      ConstValue(FoldBinary(Add, cl, b), a);
    } else {
      SumValue(Binary(Add, cl, r), a);
    }
  }

  lemma {:induction false} SubPartialSound(cl: Expr, r: Expr, a: Assignment)
    requires Typed(cl, r) && cl.Constant?
    ensures Eval(SubPartialR(cl, r), a) == Wrap(cl.value - Eval(r, a), Width(r))
    decreases 1 + Size(r), 0
  {
    hide Eval, EvalBinary, XorPartialR, FoldBinary, Wrap, AddCreate, SubCreate;
    ConstValue(cl, a);
    if cl.width == BOOL {
      BoolPartial(cl, r, a);
    } else if HasHead(r) {
      var b, x := r.left, r.right;
      SumValue(r, a);
      ConstValue(b, a);
      FoldSum(cl, b);
      WrapIn(cl.value - b.value, Eval(x, a), cl.width);
      if r.kind == Add {
        SubSound(FoldBinary(Sub, cl, b), x, a);
        WrapIn(cl.value, b.value + Eval(x, a), cl.width);
      } else {
        AddSound(FoldBinary(Sub, cl, b), x, a);
        WrapIn(cl.value, b.value - Eval(x, a), cl.width);
      }
      ConstValue(FoldBinary(Sub, cl, b), a);
    } else {
      SumValue(Binary(Sub, cl, r), a);
    }
  }

  /** At width one a constant plus, or minus, an operand is their exclusive or. */
  lemma BoolPartial(cl: Expr, r: Expr, a: Assignment)
    requires Typed(cl, r) && cl.Constant? && cl.width == BOOL
    ensures Eval(XorPartialR(cl, r), a) == Wrap(cl.value + Eval(r, a), BOOL) == Wrap(cl.value - Eval(r, a), BOOL)
  {
    hide Eval, XorPartialR;
    EvalBool(r, a);
    EvalBool(cl, a);
    ConstValue(cl, a);
    XorPartialSound(cl, r, a);
    BoolSum(cl.value, Eval(r, a));
  }

  lemma BoolBoth(l: Expr, r: Expr, a: Assignment)
    requires Typed(l, r) && Width(l) == BOOL
    ensures Eval(XorCreate(l, r), a) == Wrap(Eval(l, a) + Eval(r, a), BOOL) == Wrap(Eval(l, a) - Eval(r, a), BOOL)
  {
    hide XorCreate, Eval;
    XorValue(l, r, a);
    EvalBool(l, a);
    EvalBool(r, a);
    XorSound(l, r, a);
    BoolSum(Eval(l, a), Eval(r, a));
  }

  lemma {:induction false} AddSound(l: Expr, r: Expr, a: Assignment)
    requires Typed(l, r)
    ensures Eval(AddCreate(l, r), a) == Wrap(Eval(l, a) + Eval(r, a), Width(l))
    decreases Size(l) + Size(r), if l.Constant? || r.Constant? then 1 else 2, 0
  {
    hide Eval, EvalBinary, XorCreate, FoldBinary, Wrap, AddCreate, SubCreate, AddPartialR, SubPartialR, WF, Width, Size;
    AddBranches(l, r);
    if l.Constant? {
      ConstValue(l, a);
      if r.Constant? {
        ConstValue(r, a);
        FoldSum(l, r);
        ConstValue(FoldBinary(Add, l, r), a);
      } else {
        AddPartialSound(l, r, a);
      }
    } else if r.Constant? {
      ConstValue(r, a);
      AddPartialSound(r, l, a);
    } else if Width(l) == BOOL {
      BoolBoth(l, r, a);
    } else if HasHead(l) {
      AddLeftSound(l, r, a);
    } else if HasHead(r) {
      AddRightSound(l, r, a);
    } else {
      SumValue(Binary(Add, l, r), a);
    }
  }

  lemma {:induction false} AddLeftSound(l: Expr, r: Expr, a: Assignment)
    requires Typed(l, r) && !r.Constant? && Width(l) != BOOL && HasHead(l)
    ensures Eval(AddCreate(l, r), a) == Wrap(Eval(l, a) + Eval(r, a), Width(l))
    decreases Size(l) + Size(r), 1, 1
  {
    hide Eval, EvalBinary, Wrap, AddCreate, SubCreate, WF, Width, Size;
    WidthPositive(l);
    HeadTyped(l);
    AddUnfold(l, r);
    var w: nat, k: int, x: int, y: int := Width(l), l.left.value, Eval(l.right, a), Eval(r, a);
    SumValue(l, a);
    ConstValue(l.left, a);
    if l.kind == Add {
      AddSound(l.right, r, a);
      AddSound(l.left, AddCreate(l.right, r), a);
      WrapIn(k, x + y, w);
      WrapIn(k + x, y, w);
    } else {
      SubSound(r, l.right, a);
      AddSound(l.left, SubCreate(r, l.right), a);
      WrapIn(k, y - x, w);
      WrapIn(k - x, y, w);
    }
  }

  lemma {:induction false} AddRightSound(l: Expr, r: Expr, a: Assignment)
    requires Typed(l, r) && !l.Constant? && Width(l) != BOOL && !HasHead(l) && HasHead(r)
    ensures Eval(AddCreate(l, r), a) == Wrap(Eval(l, a) + Eval(r, a), Width(l))
    decreases Size(l) + Size(r), 1, 1
  {
    hide Eval, EvalBinary, Wrap, AddCreate, SubCreate, WF, Width, Size;
    WidthPositive(l);
    HeadTyped(r);
    AddUnfold(l, r);
    var w: nat, k: int, x: int, y: int := Width(l), r.left.value, Eval(r.right, a), Eval(l, a);
    SumValue(r, a);
    ConstValue(r.left, a);
    if r.kind == Add {
      AddSound(l, r.right, a);
      AddSound(r.left, AddCreate(l, r.right), a);
      WrapIn(k, y + x, w);
      WrapIn(y, k + x, w);
    } else {
      SubSound(l, r.right, a);
      AddSound(r.left, SubCreate(l, r.right), a);
      WrapIn(k, y - x, w);
      WrapIn(y, k - x, w);
    }
  }

  lemma {:induction false} SubSound(l: Expr, r: Expr, a: Assignment)
    requires Typed(l, r)
    ensures Eval(SubCreate(l, r), a) == Wrap(Eval(l, a) - Eval(r, a), Width(l))
    decreases Size(l) + Size(r), if l.Constant? || r.Constant? then 1 else 2, 0
  {
    hide Eval, EvalBinary, XorCreate, FoldBinary, Wrap, AddCreate, SubCreate, AddPartialR, SubPartialR, WF, Width, Size;
    SubBranches(l, r);
    if l.Constant? {
      ConstValue(l, a);
      if r.Constant? {
        ConstValue(r, a);
        FoldSum(l, r);
        ConstValue(FoldBinary(Sub, l, r), a);
      } else {
        SubPartialSound(l, r, a);
      }
    } else if r.Constant? {
      ConstValue(r, a);
      FoldSum(Zero(r.width), r);
      AddPartialSound(FoldBinary(Sub, Zero(r.width), r), l, a);
      WrapIn(0 - r.value, Eval(l, a), r.width);
    } else if Width(l) == BOOL {
      BoolBoth(l, r, a);
    } else if l == r {
      WidthPositive(l);
      WrapSmall(0, Width(l));
      ConstValue(Zero(Width(l)), a);
    } else if HasHead(l) {
      SubLeftSound(l, r, a);
    } else if HasHead(r) {
      SubRightSound(l, r, a);
    } else {
      SumValue(Binary(Sub, l, r), a);
    }
  }

  lemma {:induction false} SubLeftSound(l: Expr, r: Expr, a: Assignment)
    requires Typed(l, r) && !r.Constant? && Width(l) != BOOL && HasHead(l) && l != r
    ensures Eval(SubCreate(l, r), a) == Wrap(Eval(l, a) - Eval(r, a), Width(l))
    decreases Size(l) + Size(r), 1, 1
  {
    hide Eval, EvalBinary, Wrap, AddCreate, SubCreate, WF, Width, Size;
    WidthPositive(l);
    HeadTyped(l);
    SubUnfold(l, r);
    var w: nat, k: int, x: int, y: int := Width(l), l.left.value, Eval(l.right, a), Eval(r, a);
    SumValue(l, a);
    ConstValue(l.left, a);
    if l.kind == Add {
      SubSound(l.right, r, a);
      AddSound(l.left, SubCreate(l.right, r), a);
      WrapIn(k, x - y, w);
      WrapIn(k + x, y, w);
    } else {
      AddSound(l.right, r, a);
      SubSound(l.left, AddCreate(l.right, r), a);
      WrapIn(k, x + y, w);
      WrapIn(k - x, y, w);
    }
  }

  lemma {:induction false} SubRightSound(l: Expr, r: Expr, a: Assignment)
    requires Typed(l, r) && !l.Constant? && Width(l) != BOOL && !HasHead(l) && HasHead(r) && l != r
    ensures Eval(SubCreate(l, r), a) == Wrap(Eval(l, a) - Eval(r, a), Width(l))
    decreases Size(l) + Size(r), 1, 1
  {
    hide Eval, EvalBinary, Wrap, AddCreate, SubCreate, WF, Width, Size;
    WidthPositive(l);
    HeadTyped(r);
    SubUnfold(l, r);
    var w: nat, k: int, x: int, y: int := Width(l), r.left.value, Eval(r.right, a), Eval(l, a);
    SumValue(r, a);
    ConstValue(r.left, a);
    if r.kind == Add {
      SubSound(l, r.right, a);
      SubSound(SubCreate(l, r.right), r.left, a);
      WrapIn(y - x, k, w);
      WrapIn(y, k + x, w);
    } else {
      AddSound(l, r.right, a);
      SubSound(AddCreate(l, r.right), r.left, a);
      WrapIn(y + x, k, w);
      WrapIn(y, k - x, w);
    }
  }
}
