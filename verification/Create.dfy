/** The canonicalising constructors of expressions. Each returns a rewritten form of the node
    it is asked to build; raw allocation is the plain datatype constructor. */
module Create {
  import opened Bits
  import opened Exprs

  // ----- arithmetic on constants -----

  function FoldBinary(k: Kind, l: Expr, r: Expr): (e: Expr)
    requires l.Constant? && r.Constant? && WF(l) && WF(r) && Width(l) == Width(r)
    ensures e.Constant? && WF(e) && Width(e) == Width(Binary(k, l, r))
  {
    EvalBinaryBound(k, l.value, r.value, l.width);
    Constant(EvalBinary(k, l.value, r.value, l.width), if IsComparison(k) then BOOL else l.width)
  }

  /** The word is shifted arithmetically and then truncated. */
  function FoldExtract(c: Expr, off: nat, w: nat): (e: Expr)
    requires c.Constant? && WF(c) && w > 0 && off + w <= c.width
    ensures e.Constant? && WF(e) && Width(e) == w
  {
    Constant(Wrap(Signed(c.value, c.width) / Pow2(off), w), w)
  }

  function FoldZExt(c: Expr, w: nat): (e: Expr)
    requires c.Constant? && WF(c) && w > 0
    ensures e.Constant? && WF(e) && Width(e) == w
  {
    Constant(Wrap(c.value, w), w)
  }

  function FoldSExt(c: Expr, w: nat): (e: Expr)
    requires c.Constant? && WF(c) && w > 0
    ensures e.Constant? && WF(e) && Width(e) == w
  {
    Constant(Wrap(Signed(c.value, c.width), w), w)
  }

  function FoldConcat(l: Expr, r: Expr): (e: Expr)
    requires l.Constant? && r.Constant? && WF(l) && WF(r)
    ensures e.Constant? && WF(e) && Width(e) == Width(l) + Width(r)
  {
    ConcatBound(l.value, r.value, l.width, r.width);
    Constant(ConcatBits(l.value, r.value, r.width), l.width + r.width)
  }

  function Zero(w: nat): (e: Expr)
    requires w > 0
    ensures WF(e) && Width(e) == w && e.Constant?
  {
    Constant(0, w)
  }

  predicate IsZeroConst(e: Expr) { e.Constant? && e.value == 0 }
  predicate IsAllOnes(e: Expr) { e.Constant? && e.value == Pow2(e.width) - 1 }

  /** Two operands of one width. */
  predicate Typed(l: Expr, r: Expr) { WF(l) && WF(r) && Width(l) == Width(r) }

  // ----- And, Or -----

  function AndPartial(l: Expr, cr: Expr): (e: Expr)
    requires Typed(l, cr) && cr.Constant?
    ensures WF(e) && Width(e) == Width(l)
  {
    if IsAllOnes(cr) then l else if IsZeroConst(cr) then cr else Binary(And, l, cr)
  }

  function AndCreate(l: Expr, r: Expr): (e: Expr)
    requires Typed(l, r)
    ensures WF(e) && Width(e) == Width(l)
  {
    if l.Constant? then
      if r.Constant? then FoldBinary(And, l, r) else AndPartial(r, l)
    else if r.Constant? then AndPartial(l, r)
    else Binary(And, l, r)
  }

  function OrPartial(l: Expr, cr: Expr): (e: Expr)
    requires Typed(l, cr) && cr.Constant?
    ensures WF(e) && Width(e) == Width(l)
  {
    if IsAllOnes(cr) then cr else if IsZeroConst(cr) then l else Binary(Or, l, cr)
  }

  function OrCreate(l: Expr, r: Expr): (e: Expr)
    requires Typed(l, r)
    ensures WF(e) && Width(e) == Width(l)
  {
    if l.Constant? then
      if r.Constant? then FoldBinary(Or, l, r) else OrPartial(r, l)
    else if r.Constant? then OrPartial(l, r)
    else Binary(Or, l, r)
  }

  // ----- Eq, Ne -----

  function EqBasic(l: Expr, r: Expr): (e: Expr)
    requires Typed(l, r)
    ensures WF(e) && Width(e) == BOOL
  {
    if l == r then TRUE else Binary(Eq, l, r)
  }

  function EqPartialR(cl: Expr, r: Expr): (e: Expr)
    requires Typed(cl, r) && cl.Constant?
    ensures WF(e) && Width(e) == BOOL
    decreases Size(r) + 1, 0
  {
    if cl.width == BOOL then
      if cl.value == 1 then r
      else if r.Binary? && r.kind == Eq && r.left.Constant? && r.left == FALSE then r.right
      else if r.Binary? && r.kind == Or then AndCreate(IsZero(r.left), IsZero(r.right))
      else EqBasic(cl, r)
    else if r.SExt? then
      WidthPositive(r.src);
      var trunc := FoldZExt(cl, Width(r.src));
      if cl == FoldSExt(trunc, cl.width) then EqCreate(r.src, trunc) else FALSE
    else if r.ZExt? then
      WidthPositive(r.src);
      var trunc := FoldZExt(cl, Width(r.src));
      if cl == FoldZExt(trunc, cl.width) then EqCreate(r.src, trunc) else FALSE
    else if r.Binary? && r.kind == Add && r.left.Constant? then
      EqPartialR(FoldBinary(Sub, cl, r.left), r.right)
    else if r.Binary? && r.kind == Sub && r.left.Constant? then
      EqPartialR(FoldBinary(Sub, r.left, cl), r.right)
    else EqBasic(cl, r)
  }

  function EqCreate(l: Expr, r: Expr): (e: Expr)
    requires Typed(l, r)
    ensures WF(e) && Width(e) == BOOL
    decreases Size(l) + Size(r), 1
  {
    if l.Constant? then
      if r.Constant? then FoldBinary(Eq, l, r) else EqPartialR(l, r)
    else if r.Constant? then EqPartialR(r, l)
    else EqBasic(l, r)
  }

  function IsZero(x: Expr): (e: Expr)
    requires WF(x)
    ensures WF(e) && Width(e) == BOOL
    decreases Size(x) + 1, 2
  {
    WidthPositive(x);
    EqCreate(x, Zero(Width(x)))
  }

  function NeCreate(l: Expr, r: Expr): (e: Expr)
    requires Typed(l, r)
    ensures WF(e) && Width(e) == BOOL
  {
    EqCreate(FALSE, EqCreate(l, r))
  }

  // ----- Xor -----

  function XorPartialR(cl: Expr, r: Expr): (e: Expr)
    requires Typed(cl, r) && cl.Constant?
    ensures WF(e) && Width(e) == Width(r)
  {
    if IsZeroConst(cl) then r
    else if cl.width == BOOL then EqPartialR(FALSE, r)
    else Binary(Xor, cl, r)
  }

  function XorCreate(l: Expr, r: Expr): (e: Expr)
    requires Typed(l, r)
    ensures WF(e) && Width(e) == Width(l)
  {
    if l.Constant? then
      if r.Constant? then FoldBinary(Xor, l, r) else XorPartialR(l, r)
    else if r.Constant? then XorPartialR(r, l)
    else Binary(Xor, l, r)
  }

  // ----- Add, Sub -----

  /** A sum or difference whose left operand is a constant. */
  predicate HasHead(e: Expr) { e.Binary? && (e.kind == Add || e.kind == Sub) && e.left.Constant? }

  predicate Headed(e: Expr, k: Kind) { e.Binary? && e.kind == k && e.left.Constant? }

  function AddPartialR(cl: Expr, r: Expr): (e: Expr)
    requires Typed(cl, r) && cl.Constant?
    ensures WF(e) && Width(e) == Width(r)
    ensures Width(r) > 1 ==> Size(e) <= Size(r) + 2
    decreases 1 + Size(r), 0
  {
    if cl.width == BOOL then XorPartialR(cl, r)
    else if IsZeroConst(cl) then r
    else if Headed(r, Add) then AddCreate(FoldBinary(Add, cl, r.left), r.right)
    else if Headed(r, Sub) then SubCreate(FoldBinary(Add, cl, r.left), r.right)
    else Binary(Add, cl, r)
  }

  function SubPartialR(cl: Expr, r: Expr): (e: Expr)
    requires Typed(cl, r) && cl.Constant?
    ensures WF(e) && Width(e) == Width(r)
    ensures Width(r) > 1 ==> Size(e) <= Size(r) + 2
    decreases 1 + Size(r), 0
  {
    if cl.width == BOOL then XorPartialR(cl, r)
    else if Headed(r, Add) then SubCreate(FoldBinary(Sub, cl, r.left), r.right)
    else if Headed(r, Sub) then AddCreate(FoldBinary(Sub, cl, r.left), r.right)
    else Binary(Sub, cl, r)
  }

  function AddCreate(l: Expr, r: Expr): (e: Expr)
    requires Typed(l, r)
    ensures WF(e) && Width(e) == Width(l)
    ensures Width(l) > 1 ==> Size(e) <= Size(l) + Size(r) + 1
    decreases Size(l) + Size(r), if l.Constant? || r.Constant? then 1 else 2
  {
    if l.Constant? then
      if r.Constant? then FoldBinary(Add, l, r) else AddPartialR(l, r)
    else if r.Constant? then AddPartialR(r, l)
    else if Width(l) == BOOL then XorCreate(l, r)
    else if Headed(l, Add) then AddCreate(l.left, AddCreate(l.right, r))
    else if Headed(l, Sub) then AddCreate(l.left, SubCreate(r, l.right))
    else if Headed(r, Add) then AddCreate(r.left, AddCreate(l, r.right))
    else if Headed(r, Sub) then AddCreate(r.left, SubCreate(l, r.right))
    else Binary(Add, l, r)
  }

  function SubCreate(l: Expr, r: Expr): (e: Expr)
    requires Typed(l, r)
    ensures WF(e) && Width(e) == Width(l)
    ensures Width(l) > 1 ==> Size(e) <= Size(l) + Size(r) + 1
    decreases Size(l) + Size(r), if l.Constant? || r.Constant? then 1 else 2
  {
    if l.Constant? then
      if r.Constant? then FoldBinary(Sub, l, r) else SubPartialR(l, r)
    else if r.Constant? then AddPartialR(FoldBinary(Sub, Zero(r.width), r), l)
    else if Width(l) == BOOL then XorCreate(l, r)
    else if l == r then (WidthPositive(l); Zero(Width(l)))
    else if Headed(l, Add) then AddCreate(l.left, SubCreate(l.right, r))
    else if Headed(l, Sub) then SubCreate(l.left, AddCreate(l.right, r))
    else if Headed(r, Add) then SubCreate(SubCreate(l, r.right), r.left)
    else if Headed(r, Sub) then SubCreate(AddCreate(l, r.right), r.left)
    else Binary(Sub, l, r)
  }

  // ----- the branches of Add and Sub -----

  lemma HeadTyped(e: Expr)
    requires WF(e) && HasHead(e)
    ensures Typed(e.left, e.right) && Width(e.left) == Width(e) && Size(e) == 2 + Size(e.right) && Size(e.left) == 1
  {
  }

  /** The branches on constant operands, and the last one. */
  lemma AddBranches(l: Expr, r: Expr)
    requires Typed(l, r)
    ensures l.Constant? && r.Constant? ==> AddCreate(l, r) == FoldBinary(Add, l, r)
    ensures l.Constant? && !r.Constant? ==> AddCreate(l, r) == AddPartialR(l, r)
    ensures !l.Constant? && r.Constant? ==> AddCreate(l, r) == AddPartialR(r, l)
    ensures !l.Constant? && !r.Constant? && Width(l) == BOOL ==> AddCreate(l, r) == XorCreate(l, r)
    ensures !l.Constant? && !r.Constant? && Width(l) != BOOL && !HasHead(l) && !HasHead(r) ==>
              AddCreate(l, r) == Binary(Add, l, r)
  {
  }

  lemma SubBranches(l: Expr, r: Expr)
    requires Typed(l, r)
    ensures l.Constant? && r.Constant? ==> SubCreate(l, r) == FoldBinary(Sub, l, r)
    ensures l.Constant? && !r.Constant? ==> SubCreate(l, r) == SubPartialR(l, r)
    ensures !l.Constant? && r.Constant? ==> SubCreate(l, r) == AddPartialR(FoldBinary(Sub, Zero(r.width), r), l)
    ensures !l.Constant? && !r.Constant? && Width(l) == BOOL ==> SubCreate(l, r) == XorCreate(l, r)
    ensures !l.Constant? && !r.Constant? && Width(l) != BOOL && l == r ==>
            Width(l) > 0 && SubCreate(l, r) == Zero(Width(l))
    ensures !l.Constant? && !r.Constant? && Width(l) != BOOL && l != r && !HasHead(l) && !HasHead(r) ==>
              SubCreate(l, r) == Binary(Sub, l, r)
  {
    WidthPositive(l);
  }

  /** How a headed operand is taken apart. */
  lemma AddUnfold(l: Expr, r: Expr)
    requires Typed(l, r) && !l.Constant? && !r.Constant? && Width(l) != BOOL
    ensures Headed(l, Add) ==> AddCreate(l, r) == AddCreate(l.left, AddCreate(l.right, r))
    ensures Headed(l, Sub) ==> AddCreate(l, r) == AddCreate(l.left, SubCreate(r, l.right))
    ensures !HasHead(l) && Headed(r, Add) ==> AddCreate(l, r) == AddCreate(r.left, AddCreate(l, r.right))
    ensures !HasHead(l) && Headed(r, Sub) ==> AddCreate(l, r) == AddCreate(r.left, SubCreate(l, r.right))
  {
  }

  lemma SubUnfold(l: Expr, r: Expr)
    requires Typed(l, r) && !l.Constant? && !r.Constant? && Width(l) != BOOL && l != r
    ensures Headed(l, Add) ==> SubCreate(l, r) == AddCreate(l.left, SubCreate(l.right, r))
    ensures Headed(l, Sub) ==> SubCreate(l, r) == SubCreate(l.left, AddCreate(l.right, r))
    ensures !HasHead(l) && Headed(r, Add) ==> SubCreate(l, r) == SubCreate(SubCreate(l, r.right), r.left)
    ensures !HasHead(l) && Headed(r, Sub) ==> SubCreate(l, r) == SubCreate(AddCreate(l, r.right), r.left)
  {
  }

  // ----- Mul, division, shifts -----

  function MulPartialR(cl: Expr, r: Expr): (e: Expr)
    requires Typed(cl, r) && cl.Constant?
    ensures WF(e) && Width(e) == Width(r)
  {
    if cl.width == BOOL then AndPartial(r, cl)
    else if cl.value == 1 then r
    else if cl.value == 0 then cl
    else Binary(Mul, cl, r)
  }

  function MulCreate(l: Expr, r: Expr): (e: Expr)
    requires Typed(l, r)
    ensures WF(e) && Width(e) == Width(l)
  {
    if l.Constant? then
      if r.Constant? then FoldBinary(Mul, l, r) else MulPartialR(l, r)
    else if r.Constant? then MulPartialR(r, l)
    else if Width(l) == BOOL then Binary(And, l, r)
    else Binary(Mul, l, r)
  }

  /** UDiv and SDiv: the divisor of a one-bit division must be 1. */
  function DivCreate(k: Kind, l: Expr, r: Expr): (e: Expr)
    requires Typed(l, r) && (k == UDiv || k == SDiv)
    ensures WF(e) && Width(e) == Width(l)
  {
    if l.Constant? && r.Constant? then FoldBinary(k, l, r)
    else if Width(l) == BOOL then l
    else Binary(k, l, r)
  }

  /** URem and SRem. */
  function RemCreate(k: Kind, l: Expr, r: Expr): (e: Expr)
    requires Typed(l, r) && (k == URem || k == SRem)
    ensures WF(e) && Width(e) == Width(l)
  {
    if l.Constant? && r.Constant? then FoldBinary(k, l, r)
    else if Width(l) == BOOL then FALSE
    else Binary(k, l, r)
  }

  /** Shl and LShr. */
  function ShiftCreate(k: Kind, l: Expr, r: Expr): (e: Expr)
    requires Typed(l, r) && (k == Shl || k == LShr)
    ensures WF(e) && Width(e) == Width(l)
  {
    if l.Constant? && r.Constant? then FoldBinary(k, l, r)
    else if Width(l) == BOOL then AndCreate(l, IsZero(r))
    else Binary(k, l, r)
  }

  function AShrCreate(l: Expr, r: Expr): (e: Expr)
    requires Typed(l, r)
    ensures WF(e) && Width(e) == Width(l)
  {
    if l.Constant? && r.Constant? then FoldBinary(AShr, l, r)
    else if Width(l) == BOOL then l
    else Binary(AShr, l, r)
  }

  // ----- comparisons -----

  function UltCreate(l: Expr, r: Expr): (e: Expr)
    requires Typed(l, r)
    ensures WF(e) && Width(e) == BOOL
  {
    if l.Constant? && r.Constant? then FoldBinary(Ult, l, r)
    else if Width(l) == BOOL then AndCreate(IsZero(l), r)
    else Binary(Ult, l, r)
  }

  function UleCreate(l: Expr, r: Expr): (e: Expr)
    requires Typed(l, r)
    ensures WF(e) && Width(e) == BOOL
  {
    if l.Constant? && r.Constant? then FoldBinary(Ule, l, r)
    else if Width(l) == BOOL then OrCreate(IsZero(l), r)
    else Binary(Ule, l, r)
  }

  function SltCreate(l: Expr, r: Expr): (e: Expr)
    requires Typed(l, r)
    ensures WF(e) && Width(e) == BOOL
  {
    if l.Constant? && r.Constant? then FoldBinary(Slt, l, r)
    else if Width(l) == BOOL then AndCreate(l, IsZero(r))
    else Binary(Slt, l, r)
  }

  function SleCreate(l: Expr, r: Expr): (e: Expr)
    requires Typed(l, r)
    ensures WF(e) && Width(e) == BOOL
  {
    if l.Constant? && r.Constant? then FoldBinary(Sle, l, r)
    else if Width(l) == BOOL then OrCreate(l, IsZero(r))
    else Binary(Sle, l, r)
  }

  /** The constructor of a binary node by its kind. */
  function BinaryCreate(k: Kind, l: Expr, r: Expr): (e: Expr)
    requires Typed(l, r)
    ensures WF(e) && Width(e) == Width(Binary(k, l, r))
  {
    match k
    case Add => AddCreate(l, r)
    case Sub => SubCreate(l, r)
    case Mul => MulCreate(l, r)
    case UDiv => DivCreate(k, l, r)
    case SDiv => DivCreate(k, l, r)
    case URem => RemCreate(k, l, r)
    case SRem => RemCreate(k, l, r)
    case And => AndCreate(l, r)
    case Or => OrCreate(l, r)
    case Xor => XorCreate(l, r)
    case Shl => ShiftCreate(k, l, r)
    case LShr => ShiftCreate(k, l, r)
    case AShr => AShrCreate(l, r)
    case Eq => EqCreate(l, r)
    case Ne => NeCreate(l, r)
    case Ult => UltCreate(l, r)
    case Ule => UleCreate(l, r)
    case Ugt => UltCreate(r, l)
    case Uge => UleCreate(r, l)
    case Slt => SltCreate(l, r)
    case Sle => SleCreate(l, r)
    case Sgt => SltCreate(r, l)
    case Sge => SleCreate(r, l)
  }

  // ----- Select, Concat, Extract, casts, Not -----

  function SelectCreate(c: Expr, t: Expr, f: Expr): (e: Expr)
    requires WF(c) && Width(c) == BOOL && Typed(t, f)
    ensures WF(e) && Width(e) == Width(t)
  {
    if c.Constant? then (if c.value == 1 then t else f)
    else if t == f then t
    else if Width(t) == BOOL && t.Constant? then
      (if t.value == 1 then OrCreate(c, f) else AndCreate(IsZero(c), f))
    else if Width(t) == BOOL && f.Constant? then
      (if f.value == 1 then OrCreate(IsZero(c), t) else AndCreate(c, t))
    else Select(c, t, f)
  }

  /** How deep an extract reaches; 0 for any other node. */
  function ExtractDepth(e: Expr): nat { if e.Extract? then Size(e.expr) else 0 }

  function ConcatCreate(l: Expr, r: Expr): (e: Expr)
    requires WF(l) && WF(r)
    ensures WF(e) && Width(e) == Width(l) + Width(r)
    ensures ExtractDepth(e) <= ExtractDepth(l)
    decreases ExtractDepth(l), 1
  {
    WidthPositive(l);
    WidthPositive(r);
    if l.Constant? && r.Constant? then FoldConcat(l, r)
    else if l.Extract? && r.Extract? && l.expr == r.expr && r.offset + r.width == l.offset then
      ExtractCreate(l.expr, r.offset, Width(l) + Width(r))
    else Concat(l, r)
  }

  function ExtractCreate(x: Expr, off: nat, w: nat): (e: Expr)
    requires WF(x) && w > 0 && off + w <= Width(x)
    ensures WF(e) && Width(e) == w
    ensures ExtractDepth(e) <= Size(x)
    decreases Size(x), 0
  {
    if w == Width(x) then x
    else if x.Constant? then FoldExtract(x, off, w)
    else if x.Concat? then
      var rw := Width(x.right);
      if off >= rw then ExtractCreate(x.left, off - rw, w)
      else if off + w <= rw then ExtractCreate(x.right, off, w)
      else ConcatCreate(ExtractCreate(x.left, 0, w - rw + off), ExtractCreate(x.right, off, rw - off))
    else Extract(x, off, w)
  }

  function NotCreate(x: Expr): (e: Expr)
    requires WF(x)
    ensures WF(e) && Width(e) == Width(x)
  {
    if x.Constant? then Constant(Wrap(Pow2(x.width) - 1 - x.value, x.width), x.width) else Not(x)
  }

  function ZExtCreate(x: Expr, w: nat): (e: Expr)
    requires WF(x) && w > 0
    ensures WF(e) && Width(e) == w
  {
    if w == Width(x) then x
    else if w < Width(x) then ExtractCreate(x, 0, w)
    else if x.Constant? then FoldZExt(x, w)
    else ZExt(x, w)
  }

  function SExtCreate(x: Expr, w: nat): (e: Expr)
    requires WF(x) && w > 0
    ensures WF(e) && Width(e) == w
  {
    if w == Width(x) then x
    else if w < Width(x) then ExtractCreate(x, 0, w)
    else if x.Constant? then FoldSExt(x, w)
    else SExt(x, w)
  }
}
