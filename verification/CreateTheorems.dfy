/** The value of every constructor, one theorem for each shape of node. */
module CreateTheorems {
  import opened Bits
  import opened Exprs
  import opened Create
  import opened CreateSound

  // ----- one-bit arithmetic -----

  /** What each operator does to single bits, where a set bit reads as minus one. */
  lemma BoolSigned(x: nat)
    requires x <= 1
    ensures Signed(x, 1) == 0 - x && Pow2(1) == 2 && Pow2(0) == 1
    ensures Wrap(x, 1) == x && Wrap(0 - x, 1) == x
  {
    Pow2One();
    assert Signed(x, 1) == if x >= 1 then x - 2 else x;
  }

  lemma BoolMul(x: nat, y: nat)
    requires x <= 1 && y <= 1
    ensures EvalBinary(Mul, x, y, 1) == BitAnd(x, y)
  {
    BitBool(x, y);
    Pow2One();
    assert x * y == if x == 0 then 0 else y;
  }

  lemma BoolDiv(x: nat, y: nat)
    requires x <= 1 && y <= 1
    ensures EvalBinary(UDiv, x, y, 1) == x && EvalBinary(SDiv, x, y, 1) == x
  {
    BoolSigned(x);
    BoolSigned(y);
    if y == 1 {
      assert TruncDiv(0 - x, -1) == x;
    }
  }

  lemma BoolRem(x: nat, y: nat)
    requires x <= 1 && y <= 1
    ensures EvalBinary(URem, x, y, 1) == 0 && EvalBinary(SRem, x, y, 1) == 0
  {
    BoolSigned(x);
    BoolSigned(y);
    if y == 1 {
      assert TruncDiv(0 - x, -1) == x;
      assert Wrap(0, 1) == 0;
    }
  }

  lemma BoolShift(x: nat, y: nat)
    requires x <= 1 && y <= 1
    ensures EvalBinary(Shl, x, y, 1) == BoolBit(x == 1 && y == 0)
    ensures EvalBinary(LShr, x, y, 1) == BoolBit(x == 1 && y == 0)
    ensures EvalBinary(AShr, x, y, 1) == x
  {
    BoolSigned(x);
  }

  lemma BoolCompare(x: nat, y: nat)
    requires x <= 1 && y <= 1
    ensures EvalBinary(Ult, x, y, 1) == BoolBit(x != 1 && y == 1)
    ensures EvalBinary(Ule, x, y, 1) == BoolBit(x != 1 || y == 1)
    ensures EvalBinary(Slt, x, y, 1) == BoolBit(x == 1 && y != 1)
    ensures EvalBinary(Sle, x, y, 1) == BoolBit(x == 1 || y != 1)
  {
    BoolSigned(x);
    BoolSigned(y);
  }

  // ----- binary nodes -----

  lemma BinaryValue(k: Kind, l: Expr, r: Expr, a: Assignment)
    requires Typed(l, r)
    ensures WF(Binary(k, l, r)) && Width(l) > 0
    ensures Eval(Binary(k, l, r), a) == EvalBinary(k, Eval(l, a), Eval(r, a), Width(l))
  {
    WidthPositive(l);
  }

  lemma FoldSound(k: Kind, l: Expr, r: Expr, a: Assignment)
    requires Typed(l, r) && l.Constant? && r.Constant?
    ensures Width(l) > 0 && Eval(FoldBinary(k, l, r), a) == EvalBinary(k, Eval(l, a), Eval(r, a), Width(l))
  {
  }

  lemma MulPartialSound(cl: Expr, r: Expr, a: Assignment)
    requires Typed(cl, r) && cl.Constant? && cl.width != BOOL
    ensures Eval(MulPartialR(cl, r), a) == Wrap(cl.value * Eval(r, a), cl.width)
  {
    EvalBound(r, a);
    WrapSmall(Eval(r, a), cl.width);
    if cl.value == 0 {
      WrapSmall(0, cl.width);
      assert 0 * Eval(r, a) == 0;
    } else if cl.value == 1 {
      assert 1 * Eval(r, a) == Eval(r, a);
    } else {
      BinaryValue(Mul, cl, r, a);
    }
  }

  lemma MulComm(x: nat, y: nat, w: nat)
    requires w > 0
    ensures EvalBinary(Mul, x, y, w) == EvalBinary(Mul, y, x, w) == Wrap(x * y, w)
  {
    MulAssoc(x, y, 1);
  }

  lemma MulBoolSound(l: Expr, r: Expr, a: Assignment)
    requires Typed(l, r) && Width(l) == BOOL && !(l.Constant? && r.Constant?)
    ensures Eval(MulCreate(l, r), a) == EvalBinary(Mul, Eval(l, a), Eval(r, a), Width(l))
  {
    hide EvalBinary, Eval;
    EvalBool(l, a);
    EvalBool(r, a);
    BoolMul(Eval(l, a), Eval(r, a));
    BitAndComm(Eval(l, a), Eval(r, a));
    if l.Constant? {
      AndPartialSound(r, l, a);
    } else if r.Constant? {
      AndPartialSound(l, r, a);
    } else {
      AndValue(l, r, a);
    }
  }

  lemma AndValue(l: Expr, r: Expr, a: Assignment)
    requires Typed(l, r)
    ensures Eval(Binary(And, l, r), a) == BitAnd(Eval(l, a), Eval(r, a))
  {
  }

  lemma MulSound(l: Expr, r: Expr, a: Assignment)
    requires Typed(l, r)
    ensures Width(l) > 0 && Eval(MulCreate(l, r), a) == EvalBinary(Mul, Eval(l, a), Eval(r, a), Width(l))
  {
    hide EvalBinary, Eval, FoldBinary, MulPartialR, Wrap;
    WidthPositive(l);
    MulComm(Eval(l, a), Eval(r, a), Width(l));
    if l.Constant? && r.Constant? {
      FoldSound(Mul, l, r, a);
    } else if Width(l) == BOOL {
      MulBoolSound(l, r, a);
    } else if l.Constant? {
      ConstValue(l, a);
      MulPartialSound(l, r, a);
    } else if r.Constant? {
      ConstValue(r, a);
      MulPartialSound(r, l, a);
      MulAssoc(Eval(l, a), r.value, 1);
    } else {
      BinaryValue(Mul, l, r, a);
    }
  }

  lemma DivSound(k: Kind, l: Expr, r: Expr, a: Assignment)
    requires Typed(l, r) && (k == UDiv || k == SDiv)
    ensures Width(l) > 0 && Eval(DivCreate(k, l, r), a) == EvalBinary(k, Eval(l, a), Eval(r, a), Width(l))
  {
    hide EvalBinary, Eval, FoldBinary;
    BinaryValue(k, l, r, a);
    if l.Constant? && r.Constant? {
      FoldSound(k, l, r, a);
    } else if Width(l) == BOOL {
      EvalBool(l, a);
      EvalBool(r, a);
      BoolDiv(Eval(l, a), Eval(r, a));
    }
  }

  lemma RemSound(k: Kind, l: Expr, r: Expr, a: Assignment)
    requires Typed(l, r) && (k == URem || k == SRem)
    ensures Width(l) > 0 && Eval(RemCreate(k, l, r), a) == EvalBinary(k, Eval(l, a), Eval(r, a), Width(l))
  {
    hide EvalBinary, Eval, FoldBinary;
    BinaryValue(k, l, r, a);
    ConstValue(FALSE, a);
    if l.Constant? && r.Constant? {
      FoldSound(k, l, r, a);
    } else if Width(l) == BOOL {
      EvalBool(l, a);
      EvalBool(r, a);
      BoolRem(Eval(l, a), Eval(r, a));
    }
  }

  lemma ShiftSound(k: Kind, l: Expr, r: Expr, a: Assignment)
    requires Typed(l, r) && (k == Shl || k == LShr)
    ensures Width(l) > 0 && Eval(ShiftCreate(k, l, r), a) == EvalBinary(k, Eval(l, a), Eval(r, a), Width(l))
  {
    hide EvalBinary, Eval, FoldBinary, AndCreate, IsZero;
    BinaryValue(k, l, r, a);
    if l.Constant? && r.Constant? {
      FoldSound(k, l, r, a);
    } else if Width(l) == BOOL {
      EvalBool(l, a);
      EvalBool(r, a);
      BoolShift(Eval(l, a), Eval(r, a));
      IsZeroSound(r, a);
      AndHolds(l, IsZero(r), a);
    }
  }

  lemma AShrSound(l: Expr, r: Expr, a: Assignment)
    requires Typed(l, r)
    ensures Width(l) > 0 && Eval(AShrCreate(l, r), a) == EvalBinary(AShr, Eval(l, a), Eval(r, a), Width(l))
  {
    hide EvalBinary, Eval, FoldBinary;
    BinaryValue(AShr, l, r, a);
    if l.Constant? && r.Constant? {
      FoldSound(AShr, l, r, a);
    } else if Width(l) == BOOL {
      EvalBool(l, a);
      EvalBool(r, a);
      BoolShift(Eval(l, a), Eval(r, a));
    }
  }

  /** Ult, Ule, Slt and Sle. */
  lemma CompareSound(l: Expr, r: Expr, a: Assignment)
    requires Typed(l, r)
    ensures Width(l) > 0
    ensures Eval(UltCreate(l, r), a) == EvalBinary(Ult, Eval(l, a), Eval(r, a), Width(l))
    ensures Eval(UleCreate(l, r), a) == EvalBinary(Ule, Eval(l, a), Eval(r, a), Width(l))
    ensures Eval(SltCreate(l, r), a) == EvalBinary(Slt, Eval(l, a), Eval(r, a), Width(l))
    ensures Eval(SleCreate(l, r), a) == EvalBinary(Sle, Eval(l, a), Eval(r, a), Width(l))
  {
    hide EvalBinary, Eval, FoldBinary, AndCreate, OrCreate, IsZero, WF;
    BinaryValue(Ult, l, r, a);
    BinaryValue(Ule, l, r, a);
    BinaryValue(Slt, l, r, a);
    BinaryValue(Sle, l, r, a);
    if l.Constant? && r.Constant? {
      FoldSound(Ult, l, r, a);
      FoldSound(Ule, l, r, a);
      FoldSound(Slt, l, r, a);
      FoldSound(Sle, l, r, a);
    } else if Width(l) == BOOL {
      EvalBool(l, a);
      EvalBool(r, a);
      BoolCompare(Eval(l, a), Eval(r, a));
      IsZeroSound(l, a);
      IsZeroSound(r, a);
      AndHolds(IsZero(l), r, a);
      OrHolds(IsZero(l), r, a);
      AndHolds(l, IsZero(r), a);
      OrHolds(l, IsZero(r), a);
    }
  }

  lemma Mirror(x: nat, y: nat, w: nat)
    requires w > 0
    ensures EvalBinary(Ugt, x, y, w) == EvalBinary(Ult, y, x, w)
    ensures EvalBinary(Uge, x, y, w) == EvalBinary(Ule, y, x, w)
    ensures EvalBinary(Sgt, x, y, w) == EvalBinary(Slt, y, x, w)
    ensures EvalBinary(Sge, x, y, w) == EvalBinary(Sle, y, x, w)
  {
  }

  lemma SumEq(x: nat, y: nat, w: nat)
    requires w > 0
    ensures EvalBinary(Add, x, y, w) == Wrap(x + y, w) && EvalBinary(Sub, x, y, w) == Wrap(x - y, w)
    ensures EvalBinary(Eq, x, y, w) == BoolBit(x == y) && EvalBinary(Ne, x, y, w) == BoolBit(x != y)
  {
  }

  /** The constructor of a binary node builds an expression of the same value as the raw node,
      whatever the operator, the operands, their width and the assignment. */
  lemma BinarySound(k: Kind, l: Expr, r: Expr, a: Assignment)
    requires Typed(l, r)
    ensures WF(Binary(k, l, r)) && Eval(BinaryCreate(k, l, r), a) == Eval(Binary(k, l, r), a)
  {
    hide EvalBinary, Eval, WF, AddCreate, SubCreate, MulCreate, DivCreate, RemCreate, ShiftCreate, AShrCreate;
    hide AndCreate, OrCreate, XorCreate, EqCreate, NeCreate, UltCreate, UleCreate, SltCreate, SleCreate;
    BinaryValue(k, l, r, a);
    SumEq(Eval(l, a), Eval(r, a), Width(l));
    match k
    case Add => AddSound(l, r, a);
    case Sub => SubSound(l, r, a);
    case Mul => MulSound(l, r, a);
    case UDiv => DivSound(k, l, r, a);
    case SDiv => DivSound(k, l, r, a);
    case URem => RemSound(k, l, r, a);
    case SRem => RemSound(k, l, r, a);
    case And => AndSound(l, r, a);
    case Or => OrSound(l, r, a);
    case Xor => XorSound(l, r, a);
    case Shl => ShiftSound(k, l, r, a);
    case LShr => ShiftSound(k, l, r, a);
    case AShr => AShrSound(l, r, a);
    case Eq => EqSound(l, r, a);
    case Ne => NeSound(l, r, a);
    case Ult => CompareSound(l, r, a);
    case Ule => CompareSound(l, r, a);
    case Ugt => CompareSound(r, l, a); Mirror(Eval(l, a), Eval(r, a), Width(l));
    case Uge => CompareSound(r, l, a); Mirror(Eval(l, a), Eval(r, a), Width(l));
    case Slt => CompareSound(l, r, a);
    case Sle => CompareSound(l, r, a);
    case Sgt => CompareSound(r, l, a); Mirror(Eval(l, a), Eval(r, a), Width(l));
    case Sge => CompareSound(r, l, a); Mirror(Eval(l, a), Eval(r, a), Width(l));
  }

  // ----- Select -----

  lemma SelectSound(c: Expr, t: Expr, f: Expr, a: Assignment)
    requires WF(c) && Width(c) == BOOL && Typed(t, f)
    ensures Eval(SelectCreate(c, t, f), a) == if Holds(c, a) then Eval(t, a) else Eval(f, a)
  {
    hide Eval, AndCreate, OrCreate, IsZero;
    if c.Constant? {
      ConstValue(c, a);
    } else if t == f {
    } else if Width(t) == BOOL && (t.Constant? || f.Constant?) {
      SelectBoolSound(c, t, f, a);
    } else {
      SelectValue(c, t, f, a);
    }
  }

  lemma SelectValue(c: Expr, t: Expr, f: Expr, a: Assignment)
    requires WF(c) && Width(c) == BOOL && Typed(t, f)
    ensures WF(Select(c, t, f)) && Eval(Select(c, t, f), a) == if Holds(c, a) then Eval(t, a) else Eval(f, a)
  {
  }

  lemma SelectBoolSound(c: Expr, t: Expr, f: Expr, a: Assignment)
    requires WF(c) && Width(c) == BOOL && Typed(t, f) && !c.Constant? && t != f
    requires Width(t) == BOOL && (t.Constant? || f.Constant?)
    ensures Eval(SelectCreate(c, t, f), a) == if Holds(c, a) then Eval(t, a) else Eval(f, a)
  {
    hide Eval, AndCreate, OrCreate, IsZero;
    EvalBool(c, a);
    EvalBool(t, a);
    EvalBool(f, a);
    IsZeroSound(c, a);
    if t.Constant? {
      ConstValue(t, a);
      OrHolds(c, f, a);
      AndHolds(IsZero(c), f, a);
    } else {
      ConstValue(f, a);
      OrHolds(IsZero(c), t, a);
      AndHolds(c, t, a);
    }
  }

  // ----- Concat, Extract, casts, Not -----

  lemma ConcatValue(l: Expr, r: Expr, a: Assignment)
    requires WF(l) && WF(r)
    ensures WF(Concat(l, r)) && Eval(Concat(l, r), a) == ConcatBits(Eval(l, a), Eval(r, a), Width(r))
  {
  }

  lemma ExtractValue(x: Expr, off: nat, w: nat, a: Assignment)
    requires WF(x) && w > 0 && off + w <= Width(x)
    ensures WF(Extract(x, off, w)) && Eval(Extract(x, off, w), a) == ExtractBits(Eval(x, a), off, w)
  {
  }

  /** Shifting arithmetically before truncating gives the same bits as shifting logically. */
  lemma FoldExtractSound(c: Expr, off: nat, w: nat, a: Assignment)
    requires c.Constant? && WF(c) && w > 0 && off + w <= c.width
    ensures Eval(FoldExtract(c, off, w), a) == ExtractBits(c.value, off, w)
  {
    if c.value >= Pow2(c.width - 1) {
      SignedShift(c.value, c.width, off, w);
    }
  }

  lemma ShiftMultiple(v: int, d: int, b: nat, c: nat)
    requires b > 0 && c > 0
    ensures ((v - (d * b) * c) / c) % b == (v / c) % b
  {
    var k := 0 - d;
    assert k * b == 0 - d * b;
    assert (k * b) * c == 0 - (d * b) * c;
    AddMulDiv(k * b, v, c);
    ModShift(v / c, k, b);
  }

  lemma SignedShift(v: nat, width: nat, off: nat, w: nat)
    requires off + w <= width
    ensures Wrap((v - Pow2(width)) / Pow2(off), w) == Wrap(v / Pow2(off), w)
  {
    var d := Pow2(width - off - w);
    Pow2Add(width - off, off);
    Pow2Add(width - off - w, w);
    ShiftMultiple(v, d, Pow2(w), Pow2(off));
  }

  lemma {:induction false} ConcatSound(l: Expr, r: Expr, a: Assignment)
    requires WF(l) && WF(r)
    ensures Eval(ConcatCreate(l, r), a) == ConcatBits(Eval(l, a), Eval(r, a), Width(r))
    decreases ExtractDepth(l), 1
  {
    hide Eval, ExtractCreate, FoldConcat;
    WidthPositive(l);
    WidthPositive(r);
    ConcatValue(l, r, a);
    if l.Constant? && r.Constant? {
      FoldConcatSound(l, r, a);
    } else if l.Extract? && r.Extract? && l.expr == r.expr && r.offset + r.width == l.offset {
      ExtractSound(l.expr, r.offset, Width(l) + Width(r), a);
      ExtractValue(l.expr, l.offset, l.width, a);
      ExtractValue(r.expr, r.offset, r.width, a);
      ExtractJoin(Eval(l.expr, a), r.offset, r.width, l.width);
    }
  }

  lemma FoldConcatSound(l: Expr, r: Expr, a: Assignment)
    requires WF(l) && WF(r) && l.Constant? && r.Constant?
    ensures Eval(FoldConcat(l, r), a) == ConcatBits(Eval(l, a), Eval(r, a), Width(r))
  {
  }

  lemma {:induction false} ExtractSound(x: Expr, off: nat, w: nat, a: Assignment)
    requires WF(x) && w > 0 && off + w <= Width(x)
    ensures Eval(ExtractCreate(x, off, w), a) == ExtractBits(Eval(x, a), off, w)
    decreases Size(x), 0
  {
    hide Eval, ConcatCreate, FoldExtract, ExtractBits;
    ExtractValue(x, off, w, a);
    EvalBound(x, a);
    if w == Width(x) {
      ExtractAll(Eval(x, a), w);
    } else if x.Constant? {
      ConstValue(x, a);
      FoldExtractSound(x, off, w, a);
    } else if x.Concat? {
      ExtractConcatSound(x, off, w, a);
    }
  }

  lemma {:induction false} ExtractConcatSound(x: Expr, off: nat, w: nat, a: Assignment)
    requires WF(x) && w > 0 && off + w <= Width(x) && x.Concat? && w != Width(x)
    ensures Eval(ExtractCreate(x, off, w), a) == ExtractBits(Eval(x, a), off, w)
    decreases Size(x), 0, 0
  {
    hide Eval, ConcatCreate, ExtractBits, ConcatBits;
    var l, r := x.left, x.right;
    var rw := Width(r);
    EvalBound(l, a);
    EvalBound(r, a);
    WidthPositive(l);
    WidthPositive(r);
    ConcatValue(l, r, a);
    if off >= rw {
      ExtractSound(l, off - rw, w, a);
      ExtractHigh(Eval(l, a), Eval(r, a), rw, off, w);
    } else if off + w <= rw {
      ExtractSound(r, off, w, a);
      ExtractLow(Eval(l, a), Eval(r, a), rw, off, w);
    } else {
      ExtractSound(l, 0, w - rw + off, a);
      ExtractSound(r, off, rw - off, a);
      ConcatSound(ExtractCreate(l, 0, w - rw + off), ExtractCreate(r, off, rw - off), a);
      ExtractStraddle(Eval(l, a), Eval(r, a), Width(l), rw, off, w);
    }
  }

  lemma NotSound(x: Expr, a: Assignment)
    requires WF(x)
    ensures Eval(NotCreate(x), a) == Pow2(Width(x)) - 1 - Eval(x, a)
  {
    EvalBound(x, a);
    WrapSmall(Pow2(Width(x)) - 1 - Eval(x, a), Width(x));
  }

  lemma ZExtSound(x: Expr, w: nat, a: Assignment)
    requires WF(x) && w > 0
    ensures Eval(ZExtCreate(x, w), a) == Wrap(Eval(x, a), w)
  {
    hide ExtractCreate;
    EvalBound(x, a);
    if w < Width(x) {
      ExtractSound(x, 0, w, a);
    } else {
      Pow2Mono(Width(x), w);
      WrapSmall(Eval(x, a), w);
    }
  }

  lemma SExtSound(x: Expr, w: nat, a: Assignment)
    requires WF(x) && w > 0
    ensures Width(x) > 0 && Eval(SExtCreate(x, w), a) == Wrap(Signed(Eval(x, a), Width(x)), w)
  {
    hide ExtractCreate;
    WidthPositive(x);
    EvalBound(x, a);
    if w == Width(x) {
      SignedMod(Eval(x, a), w);
    } else if w < Width(x) {
      ExtractSound(x, 0, w, a);
      SignedMod(Eval(x, a), Width(x));
      WrapWrap(Signed(Eval(x, a), Width(x)), w, Width(x));
    }
  }
}
