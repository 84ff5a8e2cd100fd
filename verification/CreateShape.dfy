/** The shape of what the constructors build: no compound of constants, no read duplicated,
    and a normal form for sums and differences. */
module CreateShape {
  import opened Bits
  import opened Exprs
  import opened Create

  /** Folded, with at most `n` reads. */
  ghost predicate Compact(e: Expr, n: nat) { Folded(e) && Reads(e) <= n }

  lemma FoldedBinary(k: Kind, l: Expr, r: Expr)
    requires Folded(l) && Folded(r) && !(l.Constant? && r.Constant?)
    ensures Compact(Binary(k, l, r), Reads(l) + Reads(r))
  {
  }

  lemma FoldedKids(e: Expr)
    requires Folded(e) && e.Binary?
    ensures Folded(e.left) && Folded(e.right) && Reads(e) == Reads(e.left) + Reads(e.right)
  {
  }

  lemma FoldedConst(c: Expr)
    requires c.Constant?
    ensures Folded(c) && Reads(c) == 0
  {
  }

  lemma TypedConst(c: Expr)
    requires WF(c) && c.Constant?
    ensures Width(c) == c.width > 0 && Size(c) == 1 && Folded(c) && Reads(c) == 0
  {
  }

  lemma AndShape(l: Expr, r: Expr)
    requires Typed(l, r) && Folded(l) && Folded(r)
    ensures Compact(AndCreate(l, r), Reads(l) + Reads(r))
  {
    hide WF, Folded, Reads, FoldBinary;
    if l.Constant? && r.Constant? {
      FoldedConst(FoldBinary(And, l, r));
    } else {
      FoldedBinary(And, l, r);
      FoldedBinary(And, r, l);
    }
  }

  lemma OrShape(l: Expr, r: Expr)
    requires Typed(l, r) && Folded(l) && Folded(r)
    ensures Compact(OrCreate(l, r), Reads(l) + Reads(r))
  {
    hide WF, Folded, Reads, FoldBinary;
    if l.Constant? && r.Constant? {
      FoldedConst(FoldBinary(Or, l, r));
    } else {
      FoldedBinary(Or, l, r);
      FoldedBinary(Or, r, l);
    }
  }

  lemma EqBasicShape(l: Expr, r: Expr)
    requires Typed(l, r) && Folded(l) && Folded(r) && !(l.Constant? && r.Constant?)
    ensures Compact(EqBasic(l, r), Reads(l) + Reads(r))
  {
  }

  lemma {:induction false} EqPartialShape(cl: Expr, r: Expr)
    requires Typed(cl, r) && cl.Constant? && Folded(r) && !r.Constant?
    ensures Compact(EqPartialR(cl, r), Reads(r))
    decreases Size(r) + 1, 0
  {
    hide EqBasic, AndCreate;
    FoldedConst(cl);
    if cl.width == BOOL {
      if cl.value == 1 {
      } else if r.Binary? && r.kind == Eq && r.left.Constant? && r.left == FALSE {
        FoldedKids(r);
      } else if r.Binary? && r.kind == Or {
        FoldedKids(r);
        IsZeroShape(r.left);
        IsZeroShape(r.right);
        AndShape(IsZero(r.left), IsZero(r.right));
      } else {
        EqBasicShape(cl, r);
      }
    } else if r.SExt? || r.ZExt? {
      WidthPositive(r.src);
      FoldedConst(FoldZExt(cl, Width(r.src)));
      EqShape(r.src, FoldZExt(cl, Width(r.src)));
    } else if Headed(r, Add) {
      FoldedKids(r);
      EqPartialShape(FoldBinary(Sub, cl, r.left), r.right);
    } else if Headed(r, Sub) {
      FoldedKids(r);
      EqPartialShape(FoldBinary(Sub, r.left, cl), r.right);
    } else {
      EqBasicShape(cl, r);
    }
  }

  lemma {:induction false} EqShape(l: Expr, r: Expr)
    requires Typed(l, r) && Folded(l) && Folded(r)
    ensures Compact(EqCreate(l, r), Reads(l) + Reads(r))
    decreases Size(l) + Size(r), 1
  {
    if l.Constant? && r.Constant? {
    } else if l.Constant? {
      EqPartialShape(l, r);
    } else if r.Constant? {
      EqPartialShape(r, l);
    } else {
      EqBasicShape(l, r);
    }
  }

  lemma {:induction false} IsZeroShape(x: Expr)
    requires WF(x) && Folded(x)
    ensures Compact(IsZero(x), Reads(x))
    decreases Size(x) + 1, 2
  {
    WidthPositive(x);
    EqShape(x, Zero(Width(x)));
  }

  lemma XorShape(l: Expr, r: Expr)
    requires Typed(l, r) && Folded(l) && Folded(r)
    ensures Compact(XorCreate(l, r), Reads(l) + Reads(r))
  {
    hide Folded, Reads, XorPartialR, FoldBinary;
    if l.Constant? && r.Constant? {
      FoldedConst(FoldBinary(Xor, l, r));
    } else if l.Constant? {
      FoldedConst(l);
      XorPartialShape(l, r);
    } else if r.Constant? {
      FoldedConst(r);
      XorPartialShape(r, l);
    } else {
      FoldedBinary(Xor, l, r);
    }
  }

  lemma XorPartialShape(cl: Expr, r: Expr)
    requires Typed(cl, r) && cl.Constant? && Folded(r) && !r.Constant?
    ensures Compact(XorPartialR(cl, r), Reads(r))
  {
    hide EqPartialR;
    if IsZeroConst(cl) {
    } else if cl.width == BOOL {
      EqPartialShape(FALSE, r);
    } else {
      FoldedBinary(Xor, cl, r);
    }
  }

  lemma {:induction false} AddPartialShape(cl: Expr, r: Expr)
    requires Typed(cl, r) && cl.Constant? && Folded(r) && !r.Constant?
    ensures Compact(AddPartialR(cl, r), Reads(r))
    decreases 1 + Size(r), 0
  {
    hide Folded, Reads, AddCreate, SubCreate, XorPartialR;
    FoldedConst(cl);
    if cl.width == BOOL {
      XorPartialShape(cl, r);
    } else if IsZeroConst(cl) {
    } else if HasHead(r) {
      FoldedKids(r);
      FoldedConst(r.left);
      FoldedConst(FoldBinary(Add, cl, r.left));
      if r.kind == Add {
        AddShape(FoldBinary(Add, cl, r.left), r.right);
      } else {
        SubShape(FoldBinary(Add, cl, r.left), r.right);
      }
    } else {
      FoldedBinary(Add, cl, r);
    }
  }

  lemma {:induction false} SubPartialShape(cl: Expr, r: Expr)
    requires Typed(cl, r) && cl.Constant? && Folded(r) && !r.Constant?
    ensures Compact(SubPartialR(cl, r), Reads(r))
    decreases 1 + Size(r), 0
  {
    hide Folded, Reads, AddCreate, SubCreate, XorPartialR;
    FoldedConst(cl);
    if cl.width == BOOL {
      XorPartialShape(cl, r);
    } else if HasHead(r) {
      FoldedKids(r);
      FoldedConst(r.left);
      FoldedConst(FoldBinary(Sub, cl, r.left));
      if r.kind == Add {
        SubShape(FoldBinary(Sub, cl, r.left), r.right);
      } else {
        AddShape(FoldBinary(Sub, cl, r.left), r.right);
      }
    } else {
      FoldedBinary(Sub, cl, r);
    }
  }

  lemma {:induction false} AddShape(l: Expr, r: Expr)
    requires Typed(l, r) && Folded(l) && Folded(r)
    ensures Compact(AddCreate(l, r), Reads(l) + Reads(r))
    decreases Size(l) + Size(r), if l.Constant? || r.Constant? then 1 else 2, 0
  {
    hide Folded, Reads, AddCreate, SubCreate, AddPartialR, XorCreate, WF, Width, Size, FoldBinary;
    AddBranches(l, r);
    if l.Constant? {
      TypedConst(l);
      if r.Constant? {
        FoldedConst(FoldBinary(Add, l, r));
      } else {
        AddPartialShape(l, r);
      }
    } else if r.Constant? {
      TypedConst(r);
      AddPartialShape(r, l);
    } else if Width(l) == BOOL {
      XorShape(l, r);
    } else if HasHead(l) || HasHead(r) {
      AddHeadShape(l, r);
    } else {
      FoldedBinary(Add, l, r);
    }
  }

  lemma {:induction false} AddHeadShape(l: Expr, r: Expr)
    requires Typed(l, r) && Folded(l) && Folded(r)
    requires !l.Constant? && !r.Constant? && Width(l) != BOOL && (HasHead(l) || HasHead(r))
    ensures Compact(AddCreate(l, r), Reads(l) + Reads(r))
    decreases Size(l) + Size(r), 1, 1
  {
    hide Folded, Reads, AddCreate, SubCreate, WF, Width, Size;
    WidthPositive(l);
    AddUnfold(l, r);
    if HasHead(l) {
      HeadTyped(l);
      FoldedKids(l);
      FoldedConst(l.left);
      if l.kind == Add {
        AddShape(l.right, r);
        AddShape(l.left, AddCreate(l.right, r));
      } else {
        SubShape(r, l.right);
        AddShape(l.left, SubCreate(r, l.right));
      }
    } else {
      HeadTyped(r);
      FoldedKids(r);
      FoldedConst(r.left);
      if r.kind == Add {
        AddShape(l, r.right);
        AddShape(r.left, AddCreate(l, r.right));
      } else {
        SubShape(l, r.right);
        AddShape(r.left, SubCreate(l, r.right));
      }
    }
  }

  lemma {:induction false} SubShape(l: Expr, r: Expr)
    requires Typed(l, r) && Folded(l) && Folded(r)
    ensures Compact(SubCreate(l, r), Reads(l) + Reads(r))
    decreases Size(l) + Size(r), if l.Constant? || r.Constant? then 1 else 2, 0
  {
    hide Folded, Reads, AddCreate, SubCreate, AddPartialR, SubPartialR, XorCreate, WF, Size, FoldBinary;
    SubBranches(l, r);
    if l.Constant? {
      TypedConst(l);
      if r.Constant? {
        FoldedConst(FoldBinary(Sub, l, r));
      } else {
        SubPartialShape(l, r);
      }
    } else if r.Constant? {
      TypedConst(r);
      TypedConst(FoldBinary(Sub, Zero(r.width), r));
      AddPartialShape(FoldBinary(Sub, Zero(r.width), r), l);
    } else if Width(l) == BOOL {
      XorShape(l, r);
    } else if l == r {
      WidthPositive(l);
      FoldedConst(Zero(Width(l)));
    } else if HasHead(l) || HasHead(r) {
      SubHeadShape(l, r);
    } else {
      FoldedBinary(Sub, l, r);
    }
  }

  lemma {:induction false} SubHeadShape(l: Expr, r: Expr)
    requires Typed(l, r) && Folded(l) && Folded(r) && l != r
    requires !l.Constant? && !r.Constant? && Width(l) != BOOL && (HasHead(l) || HasHead(r))
    ensures Compact(SubCreate(l, r), Reads(l) + Reads(r))
    decreases Size(l) + Size(r), 1, 1
  {
    hide Folded, Reads, AddCreate, SubCreate, WF, Width, Size;
    WidthPositive(l);
    SubUnfold(l, r);
    if HasHead(l) {
      HeadTyped(l);
      FoldedKids(l);
      FoldedConst(l.left);
      if l.kind == Add {
        SubShape(l.right, r);
        AddShape(l.left, SubCreate(l.right, r));
      } else {
        AddShape(l.right, r);
        SubShape(l.left, AddCreate(l.right, r));
      }
    } else {
      HeadTyped(r);
      FoldedKids(r);
      FoldedConst(r.left);
      if r.kind == Add {
        SubShape(l, r.right);
        SubShape(SubCreate(l, r.right), r.left);
      } else {
        AddShape(l, r.right);
        SubShape(AddCreate(l, r.right), r.left);
      }
    }
  }

  lemma MulShape(l: Expr, r: Expr)
    requires Typed(l, r) && Folded(l) && Folded(r)
    ensures Compact(MulCreate(l, r), Reads(l) + Reads(r))
  {
    hide Folded, Reads, FoldBinary;
    if l.Constant? && r.Constant? {
      FoldedConst(FoldBinary(Mul, l, r));
    } else {
      FoldedBinary(Mul, l, r);
      FoldedBinary(Mul, r, l);
      FoldedBinary(And, l, r);
      FoldedBinary(And, r, l);
    }
  }

  lemma DivRemShape(k: Kind, l: Expr, r: Expr)
    requires Typed(l, r) && Folded(l) && Folded(r)
    ensures k == UDiv || k == SDiv ==> Compact(DivCreate(k, l, r), Reads(l) + Reads(r))
    ensures k == URem || k == SRem ==> Compact(RemCreate(k, l, r), Reads(l) + Reads(r))
  {
    hide Folded, Reads, FoldBinary;
    FoldedConst(FALSE);
    if l.Constant? && r.Constant? {
      FoldedConst(FoldBinary(k, l, r));
    } else {
      FoldedBinary(k, l, r);
    }
  }

  lemma ShiftShape(k: Kind, l: Expr, r: Expr)
    requires Typed(l, r) && Folded(l) && Folded(r)
    ensures k == Shl || k == LShr ==> Compact(ShiftCreate(k, l, r), Reads(l) + Reads(r))
    ensures Compact(AShrCreate(l, r), Reads(l) + Reads(r))
  {
    hide IsZero, AndCreate, Folded, Reads, FoldBinary, WF;
    IsZeroShape(r);
    if l.Constant? && r.Constant? {
      FoldedConst(FoldBinary(k, l, r));
      FoldedConst(FoldBinary(AShr, l, r));
    } else {
      FoldedBinary(k, l, r);
      FoldedBinary(AShr, l, r);
      if Width(l) == BOOL {
        AndShape(l, IsZero(r));
      }
    }
  }

  lemma ZeroLeftShape(l: Expr, r: Expr)
    requires Typed(l, r) && Width(l) == BOOL && Folded(l) && Folded(r)
    ensures Compact(AndCreate(IsZero(l), r), Reads(l) + Reads(r))
    ensures Compact(OrCreate(IsZero(l), r), Reads(l) + Reads(r))
  {
    hide IsZero, AndCreate, OrCreate, Folded, Reads, WF, Width;
    IsZeroShape(l);
    AndShape(IsZero(l), r);
    OrShape(IsZero(l), r);
  }

  lemma ZeroRightShape(l: Expr, r: Expr)
    requires Typed(l, r) && Width(l) == BOOL && Folded(l) && Folded(r)
    ensures Compact(AndCreate(l, IsZero(r)), Reads(l) + Reads(r))
    ensures Compact(OrCreate(l, IsZero(r)), Reads(l) + Reads(r))
  {
    hide IsZero, AndCreate, OrCreate, Folded, Reads, WF, Width;
    IsZeroShape(r);
    AndShape(l, IsZero(r));
    OrShape(l, IsZero(r));
  }

  lemma CompareShape(l: Expr, r: Expr)
    requires Typed(l, r) && Folded(l) && Folded(r)
    ensures Compact(UltCreate(l, r), Reads(l) + Reads(r)) && Compact(UleCreate(l, r), Reads(l) + Reads(r))
    ensures Compact(SltCreate(l, r), Reads(l) + Reads(r)) && Compact(SleCreate(l, r), Reads(l) + Reads(r))
  {
    hide IsZero, AndCreate, OrCreate, Folded, Reads, FoldBinary, WF;
    if l.Constant? && r.Constant? {
      FoldedConst(FoldBinary(Ult, l, r));
      FoldedConst(FoldBinary(Ule, l, r));
      FoldedConst(FoldBinary(Slt, l, r));
      FoldedConst(FoldBinary(Sle, l, r));
    } else if Width(l) == BOOL {
      ZeroLeftShape(l, r);
      ZeroRightShape(l, r);
    } else {
      FoldedBinary(Ult, l, r);
      FoldedBinary(Ule, l, r);
      FoldedBinary(Slt, l, r);
      FoldedBinary(Sle, l, r);
    }
  }

  /** From folded operands every binary constructor builds a folded expression with no more
      reads than its operands. */
  lemma BinaryShape(k: Kind, l: Expr, r: Expr)
    requires Typed(l, r) && Folded(l) && Folded(r)
    ensures Compact(BinaryCreate(k, l, r), Reads(l) + Reads(r))
  {
    hide Folded, Reads, AddCreate, SubCreate, MulCreate, DivCreate, RemCreate, ShiftCreate, AShrCreate;
    hide AndCreate, OrCreate, XorCreate, EqCreate, UltCreate, UleCreate, SltCreate, SleCreate;
    match k
    case Add => AddShape(l, r);
    case Sub => SubShape(l, r);
    case Mul => MulShape(l, r);
    case UDiv => DivRemShape(k, l, r);
    case SDiv => DivRemShape(k, l, r);
    case URem => DivRemShape(k, l, r);
    case SRem => DivRemShape(k, l, r);
    case And => AndShape(l, r);
    case Or => OrShape(l, r);
    case Xor => XorShape(l, r);
    case Shl => ShiftShape(k, l, r);
    case LShr => ShiftShape(k, l, r);
    case AShr => ShiftShape(k, l, r);
    case Eq => EqShape(l, r);
    case Ne => EqShape(l, r); FoldedConst(FALSE); EqShape(FALSE, EqCreate(l, r));
    case _ => CompareShape(l, r); CompareShape(r, l);
  }

  lemma SelectShape(c: Expr, t: Expr, f: Expr)
    requires WF(c) && Width(c) == BOOL && Typed(t, f) && Folded(c) && Folded(t) && Folded(f)
    ensures Compact(SelectCreate(c, t, f), Reads(c) + Reads(t) + Reads(f))
  {
    hide IsZero, AndCreate, OrCreate, Folded, Reads, WF;
    FoldedSelect(c, t, f);
    if Width(t) == BOOL && !c.Constant? && t != f {
      IsZeroShape(c);
      if t.Constant? {
        OrShape(c, f);
        AndShape(IsZero(c), f);
      } else if f.Constant? {
        OrShape(IsZero(c), t);
        AndShape(c, t);
      }
    }
  }

  lemma FoldedSelect(c: Expr, t: Expr, f: Expr)
    requires Folded(c) && Folded(t) && Folded(f)
    ensures !c.Constant? ==> Compact(Select(c, t, f), Reads(c) + Reads(t) + Reads(f))
  {
  }

  lemma FoldedUnary(x: Expr, off: nat, w: nat)
    requires Folded(x) && !x.Constant?
    ensures Compact(Extract(x, off, w), Reads(x)) && Compact(ZExt(x, w), Reads(x))
    ensures Compact(SExt(x, w), Reads(x)) && Compact(Not(x), Reads(x))
  {
  }

  lemma {:induction false} ConcatShape(l: Expr, r: Expr)
    requires WF(l) && WF(r) && Folded(l) && Folded(r)
    ensures Compact(ConcatCreate(l, r), Reads(l) + Reads(r))
    decreases ExtractDepth(l), 1
  {
    hide ExtractCreate;
    WidthPositive(l);
    WidthPositive(r);
    if l.Extract? && r.Extract? && l.expr == r.expr && r.offset + r.width == l.offset {
      ExtractShape(l.expr, r.offset, Width(l) + Width(r));
    }
  }

  lemma ConcatParts(x: Expr)
    requires WF(x) && x.Concat? && Folded(x)
    ensures WF(x.left) && WF(x.right) && Folded(x.left) && Folded(x.right)
    ensures Width(x) == Width(x.left) + Width(x.right) && Reads(x) == Reads(x.left) + Reads(x.right)
  {
  }

  /** An extraction that does not reach into a concatenation. */
  lemma ExtractEnds(x: Expr, off: nat, w: nat)
    requires WF(x) && w > 0 && off + w <= Width(x) && Folded(x) && (w == Width(x) || !x.Concat?)
    ensures Compact(ExtractCreate(x, off, w), Reads(x))
  {
    hide ConcatCreate;
  }

  lemma {:induction false} ExtractShape(x: Expr, off: nat, w: nat)
    requires WF(x) && w > 0 && off + w <= Width(x) && Folded(x)
    ensures Compact(ExtractCreate(x, off, w), Reads(x))
    decreases Size(x), 0
  {
    hide ConcatCreate, WF, Folded, Reads;
    if w == Width(x) || !x.Concat? {
      ExtractEnds(x, off, w);
    } else {
      ConcatParts(x);
      var rw := Width(x.right);
      if off >= rw {
        ExtractShape(x.left, off - rw, w);
      } else if off + w <= rw {
        ExtractShape(x.right, off, w);
      } else {
        ExtractShape(x.left, 0, w - rw + off);
        ExtractShape(x.right, off, rw - off);
        ConcatShape(ExtractCreate(x.left, 0, w - rw + off), ExtractCreate(x.right, off, rw - off));
      }
    }
  }

  lemma CastShape(x: Expr, w: nat)
    requires WF(x) && w > 0 && Folded(x)
    ensures Compact(ZExtCreate(x, w), Reads(x)) && Compact(SExtCreate(x, w), Reads(x))
            && Compact(NotCreate(x), Reads(x))
  {
    hide ExtractCreate, Folded, Reads;
    if w < Width(x) {
      ExtractShape(x, 0, w);
    }
    if x.Constant? {
      FoldedConst(NotCreate(x));
      FoldedConst(FoldZExt(x, w));
      FoldedConst(FoldSExt(x, w));
    } else {
      FoldedUnary(x, 0, w);
    }
  }

  // ----- the normal form of sums -----

  /** Every sum and difference of the expression's top spine has no constant on the right, at most
      one constant head, and that head outermost; a sum's head is not zero. */
  ghost predicate Normal(e: Expr) {
    e.Binary? && (e.kind == Add || e.kind == Sub) ==>
      && !e.right.Constant? && !HasHead(e.right)
      && !HasHead(e.left)
      && !(e.kind == Add && IsZeroConst(e.left))
      && Normal(e.left) && Normal(e.right)
  }

  lemma {:induction false} AddPartialNormal(cl: Expr, r: Expr)
    requires Typed(cl, r) && cl.Constant? && cl.width != BOOL && Normal(r) && !r.Constant?
    ensures Normal(AddPartialR(cl, r))
    decreases 1 + Size(r), 0
  {
    if IsZeroConst(cl) {
    } else if HasHead(r) {
      if r.kind == Add {
        AddNormal(FoldBinary(Add, cl, r.left), r.right);
      } else {
        SubNormal(FoldBinary(Add, cl, r.left), r.right);
      }
    }
  }

  lemma {:induction false} SubPartialNormal(cl: Expr, r: Expr)
    requires Typed(cl, r) && cl.Constant? && cl.width != BOOL && Normal(r) && !r.Constant?
    ensures Normal(SubPartialR(cl, r))
    decreases 1 + Size(r), 0
  {
    if HasHead(r) {
      if r.kind == Add {
        SubNormal(FoldBinary(Sub, cl, r.left), r.right);
      } else {
        AddNormal(FoldBinary(Sub, cl, r.left), r.right);
      }
    }
  }

  lemma NormalConst(c: Expr)
    requires WF(c) && c.Constant?
    ensures Normal(c) && Width(c) == c.width > 0 && Size(c) == 1
  {
  }

  lemma NormalKids(e: Expr)
    requires Normal(e) && HasHead(e)
    ensures Normal(e.right) && !e.right.Constant?
  {
  }

  lemma NormalNode(k: Kind, l: Expr, r: Expr)
    requires Normal(l) && Normal(r) && !r.Constant? && !HasHead(l) && !HasHead(r) && !l.Constant?
    ensures Normal(Binary(k, l, r))
  {
  }

  /** From operands in normal form the sum constructor yields a normal form. */
  lemma {:induction false} AddNormal(l: Expr, r: Expr)
    requires Typed(l, r) && Width(l) != BOOL && Normal(l) && Normal(r)
    ensures Normal(AddCreate(l, r))
    decreases Size(l) + Size(r), if l.Constant? || r.Constant? then 1 else 2, 0
  {
    hide AddCreate, SubCreate, WF, Width, Size, FoldBinary, AddPartialR, SubPartialR, Normal;
    AddBranches(l, r);
    if l.Constant? {
      NormalConst(l);
      if r.Constant? {
        NormalConst(FoldBinary(Add, l, r));
      } else {
        AddPartialNormal(l, r);
      }
    } else if r.Constant? {
      NormalConst(r);
      AddPartialNormal(r, l);
    } else if HasHead(l) || HasHead(r) {
      AddHeadNormal(l, r);
    } else {
      NormalNode(Add, l, r);
    }
  }

  lemma {:induction false} AddHeadNormal(l: Expr, r: Expr)
    requires Typed(l, r) && Width(l) != BOOL && Normal(l) && Normal(r)
    requires !l.Constant? && !r.Constant? && (HasHead(l) || HasHead(r))
    ensures Normal(AddCreate(l, r))
    decreases Size(l) + Size(r), 1, 1
  {
    hide AddCreate, SubCreate, WF, Width, Size, Normal;
    WidthPositive(l);
    AddUnfold(l, r);
    if HasHead(l) {
      HeadTyped(l);
      NormalKids(l);
      NormalConst(l.left);
      if l.kind == Add {
        AddNormal(l.right, r);
        AddNormal(l.left, AddCreate(l.right, r));
      } else {
        SubNormal(r, l.right);
        AddNormal(l.left, SubCreate(r, l.right));
      }
    } else {
      HeadTyped(r);
      NormalKids(r);
      NormalConst(r.left);
      if r.kind == Add {
        AddNormal(l, r.right);
        AddNormal(r.left, AddCreate(l, r.right));
      } else {
        SubNormal(l, r.right);
        AddNormal(r.left, SubCreate(l, r.right));
      }
    }
  }

  /** And so does the difference constructor. */
  lemma {:induction false} SubNormal(l: Expr, r: Expr)
    requires Typed(l, r) && Width(l) != BOOL && Normal(l) && Normal(r)
    ensures Normal(SubCreate(l, r))
    decreases Size(l) + Size(r), if l.Constant? || r.Constant? then 1 else 2, 0
  {
    hide AddCreate, SubCreate, WF, Size, FoldBinary, AddPartialR, SubPartialR, Normal;
    SubBranches(l, r);
    if l.Constant? {
      NormalConst(l);
      if r.Constant? {
        NormalConst(FoldBinary(Sub, l, r));
      } else {
        SubPartialNormal(l, r);
      }
    } else if r.Constant? {
      NormalConst(r);
      NormalConst(FoldBinary(Sub, Zero(r.width), r));
      AddPartialNormal(FoldBinary(Sub, Zero(r.width), r), l);
    } else if l == r {
      WidthPositive(l);
      NormalConst(Zero(Width(l)));
    } else if HasHead(l) || HasHead(r) {
      SubHeadNormal(l, r);
    } else {
      NormalNode(Sub, l, r);
    }
  }

  lemma {:induction false} SubHeadNormal(l: Expr, r: Expr)
    requires Typed(l, r) && Width(l) != BOOL && Normal(l) && Normal(r) && l != r
    requires !l.Constant? && !r.Constant? && (HasHead(l) || HasHead(r))
    ensures Normal(SubCreate(l, r))
    decreases Size(l) + Size(r), 1, 1
  {
    hide AddCreate, SubCreate, WF, Width, Size, Normal;
    WidthPositive(l);
    SubUnfold(l, r);
    if HasHead(l) {
      HeadTyped(l);
      NormalKids(l);
      NormalConst(l.left);
      if l.kind == Add {
        SubNormal(l.right, r);
        AddNormal(l.left, SubCreate(l.right, r));
      } else {
        AddNormal(l.right, r);
        SubNormal(l.left, AddCreate(l.right, r));
      }
    } else {
      HeadTyped(r);
      NormalKids(r);
      NormalConst(r.left);
      if r.kind == Add {
        SubNormal(l, r.right);
        SubNormal(SubCreate(l, r.right), r.left);
      } else {
        AddNormal(l, r.right);
        SubNormal(AddCreate(l, r.right), r.left);
      }
    }
  }
}
