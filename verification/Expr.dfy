/** Bit-vector expressions over byte arrays, and their value under an assignment. */
module Exprs {
  import opened Bits

  /** `values` is empty for a symbolic array, and holds the initial contents otherwise. */
  datatype Array = Array(id: nat, size: nat, domain: nat, range: nat, values: seq<nat>)

  datatype Kind =
    | Add | Sub | Mul | UDiv | SDiv | URem | SRem
    | And | Or | Xor | Shl | LShr | AShr
    | Eq | Ne | Ult | Ule | Ugt | Uge | Slt | Sle | Sgt | Sge

  datatype Expr =
    | Constant(value: nat, width: nat)
    | Read(updates: UpdateList, index: Expr)
    | Select(cond: Expr, trueExpr: Expr, falseExpr: Expr)
    | Concat(left: Expr, right: Expr)
    | Extract(expr: Expr, offset: nat, width: nat)
    | ZExt(src: Expr, width: nat)
    | SExt(src: Expr, width: nat)
    | Not(expr: Expr)
    | Binary(kind: Kind, left: Expr, right: Expr)

  /** The writes to an array, the most recent one first. */
  datatype UpdateList = UpdateList(root: Array, head: UpdateNode)
  datatype UpdateNode = Null | Node(index: Expr, value: Expr, next: UpdateNode)

  /** The initial contents of the symbolic arrays; a byte that is not bound is zero. */
  type Assignment = map<Array, seq<nat>>

  const BOOL: nat := 1
  const INT8: nat := 8
  const INT32: nat := 32

  const TRUE: Expr := Constant(1, BOOL)
  const FALSE: Expr := Constant(0, BOOL)

  predicate IsComparison(k: Kind) {
    k.Eq? || k.Ne? || k.Ult? || k.Ule? || k.Ugt? || k.Uge? || k.Slt? || k.Sle? || k.Sgt? || k.Sge?
  }

  function Width(e: Expr): nat {
    match e
    case Constant(_, w) => w
    case Read(ul, _) => ul.root.range
    case Select(_, t, _) => Width(t)
    case Concat(l, r) => Width(l) + Width(r)
    case Extract(_, _, w) => w
    case ZExt(_, w) => w
    case SExt(_, w) => w
    case Not(x) => Width(x)
    case Binary(k, l, _) => if IsComparison(k) then BOOL else Width(l)
  }

  predicate IsConstantArray(arr: Array) { arr.values != [] }

  predicate WFArray(arr: Array) {
    && arr.domain > 0 && arr.range > 0
    && (IsConstantArray(arr) ==> |arr.values| == arr.size)
    && forall i :: 0 <= i < |arr.values| ==> arr.values[i] < Pow2(arr.range)
  }

  /** The type rules that the allocation of each kind of expression asserts. */
  predicate WF(e: Expr) {
    match e
    case Constant(v, w) => w > 0 && v < Pow2(w)
    case Read(ul, i) => WFArray(ul.root) && WFNodes(ul.root, ul.head) && WF(i) && Width(i) == ul.root.domain
    case Select(c, t, f) => WF(c) && WF(t) && WF(f) && Width(c) == BOOL && Width(t) == Width(f)
    case Concat(l, r) => WF(l) && WF(r)
    case Extract(x, off, w) => WF(x) && w > 0 && off + w <= Width(x)
    case ZExt(x, w) => WF(x) && Width(x) <= w
    case SExt(x, w) => WF(x) && Width(x) <= w
    case Not(x) => WF(x)
    case Binary(_, l, r) => WF(l) && WF(r) && Width(l) == Width(r)
  }

  predicate WFNodes(root: Array, n: UpdateNode)
    decreases n
  {
    match n
    case Null => true
    case Node(i, v, next) =>
      WF(i) && WF(v) && Width(i) == root.domain && Width(v) == root.range && WFNodes(root, next)
  }

  predicate WFList(ul: UpdateList) { WFArray(ul.root) && WFNodes(ul.root, ul.head) }

  // ----- values -----

  /** Division by zero has no value in the source; here it has a fixed one, which agrees with
      what the source's one-bit rules return. Shifts saturate as in the word library. */
  function EvalBinary(k: Kind, x: nat, y: nat, w: nat): nat
    requires w > 0
  {
    match k
    case Add => Wrap(x + y, w)
    case Sub => Wrap(x - y, w)
    case Mul => Wrap(x * y, w)
    case UDiv => if y == 0 then x else Wrap(x / y, w)
    case SDiv => if Signed(y, w) == 0 then x else Wrap(TruncDiv(Signed(x, w), Signed(y, w)), w)
    case URem => if y == 0 then 0 else Wrap(x % y, w)
    case SRem =>
      if Signed(y, w) == 0 then 0
      else Wrap(Signed(x, w) - Signed(y, w) * TruncDiv(Signed(x, w), Signed(y, w)), w)
    case And => BitAnd(x, y)
    case Or => BitOr(x, y)
    case Xor => BitXor(x, y)
    case Shl => if y >= w then 0 else Wrap(x * Pow2(y), w)
    case LShr => if y >= w then 0 else Wrap(x / Pow2(y), w)
    case AShr => if y >= w then (if Signed(x, w) < 0 then Pow2(w) - 1 else 0) else Wrap(Signed(x, w) / Pow2(y), w)
    case Eq => BoolBit(x == y)
    case Ne => BoolBit(x != y)
    case Ult => BoolBit(x < y)
    case Ule => BoolBit(x <= y)
    case Ugt => BoolBit(x > y)
    case Uge => BoolBit(x >= y)
    case Slt => BoolBit(Signed(x, w) < Signed(y, w))
    case Sle => BoolBit(Signed(x, w) <= Signed(y, w))
    case Sgt => BoolBit(Signed(x, w) > Signed(y, w))
    case Sge => BoolBit(Signed(x, w) >= Signed(y, w))
  }

  function Initial(arr: Array, i: nat, a: Assignment): (v: nat)
    ensures WFArray(arr) ==> v < Pow2(arr.range)
  {
    if IsConstantArray(arr) && i < arr.size && i < |arr.values| then arr.values[i]
    else if arr in a && i < |a[arr]| then Wrap(a[arr][i], arr.range)
    else 0
  }

  function Eval(e: Expr, a: Assignment): nat
    requires WF(e)
    decreases e
  {
    match e
    case Constant(v, _) => v
    case Read(ul, i) => Lookup(ul.root, ul.head, Eval(i, a), a)
    case Select(c, t, f) => if Eval(c, a) == 1 then Eval(t, a) else Eval(f, a)
    case Concat(l, r) => ConcatBits(Eval(l, a), Eval(r, a), Width(r))
    case Extract(x, off, w) => ExtractBits(Eval(x, a), off, w)
    case ZExt(x, _) => Eval(x, a)
    case SExt(x, w) => WidthPositive(x); Wrap(Signed(Eval(x, a), Width(x)), w)
    case Not(x) => Wrap(Pow2(Width(x)) - 1 - Eval(x, a), Width(x))
    case Binary(k, l, r) => WidthPositive(l); EvalBinary(k, Eval(l, a), Eval(r, a), Width(l))
  }

  /** The value of an array element: the newest write to that index, or the initial contents. */
  function Lookup(root: Array, n: UpdateNode, i: nat, a: Assignment): nat
    requires WFNodes(root, n)
    decreases n
  {
    match n
    case Null => Initial(root, i, a)
    case Node(ui, uv, next) => if Eval(ui, a) == i then Eval(uv, a) else Lookup(root, next, i, a)
  }

  lemma {:induction false} WidthPositive(e: Expr)
    requires WF(e)
    ensures Width(e) > 0
  {
    match e
    case Constant(_, _) =>
    case Read(_, _) =>
    case Select(_, t, _) => WidthPositive(t);
    case Concat(l, _) => WidthPositive(l);
    case Extract(_, _, _) =>
    case ZExt(x, _) => WidthPositive(x);
    case SExt(x, _) => WidthPositive(x);
    case Not(x) => WidthPositive(x);
    case Binary(_, l, _) => WidthPositive(l);
  }

  lemma UDivBound(x: nat, y: nat, w: nat)
    requires w > 0 && x < Pow2(w) && y < Pow2(w)
    ensures EvalBinary(UDiv, x, y, w) < Pow2(w) && EvalBinary(SDiv, x, y, w) < Pow2(w)
  {
  }

  lemma AShrBound(x: nat, y: nat, w: nat)
    requires w > 0 && x < Pow2(w) && y < Pow2(w)
    ensures EvalBinary(AShr, x, y, w) < Pow2(w)
  {
  }

  lemma EvalBinaryBound(k: Kind, x: nat, y: nat, w: nat)
    requires w > 0 && x < Pow2(w) && y < Pow2(w)
    ensures EvalBinary(k, x, y, w) < Pow2(if IsComparison(k) then BOOL else w)
  {
    match k
    case And => BitBounds(x, y, w);
    case Or => BitBounds(x, y, w);
    case Xor => BitBounds(x, y, w);
    case UDiv => UDivBound(x, y, w);
    case SDiv => UDivBound(x, y, w);
    case AShr => AShrBound(x, y, w);
    case _ =>
  }

  /** Every value fits its width. */
  lemma {:induction false} EvalBound(e: Expr, a: Assignment)
    requires WF(e)
    ensures Eval(e, a) < Pow2(Width(e))
    decreases e
  {
    match e
    case Constant(_, _) =>
    case Read(ul, i) => LookupBound(ul.root, ul.head, Eval(i, a), a);
    case Select(_, t, f) => EvalBound(t, a); EvalBound(f, a);
    case Concat(l, r) =>
      EvalBound(l, a); EvalBound(r, a);
      ConcatBound(Eval(l, a), Eval(r, a), Width(l), Width(r));
    case Extract(_, _, _) =>
    case ZExt(x, w) => EvalBound(x, a); Pow2Mono(Width(x), w);
    case SExt(_, _) =>
    case Not(x) =>
    case Binary(k, l, r) =>
      EvalBound(l, a); EvalBound(r, a);
      WidthPositive(l);
      EvalBinaryBound(k, Eval(l, a), Eval(r, a), Width(l));
  }

  lemma {:induction false} LookupBound(root: Array, n: UpdateNode, i: nat, a: Assignment)
    requires WFArray(root) && WFNodes(root, n)
    ensures Lookup(root, n, i, a) < Pow2(root.range)
    decreases n
  {
    match n
    case Null =>
    case Node(_, v, next) => EvalBound(v, a); LookupBound(root, next, i, a);
  }

  predicate Holds(e: Expr, a: Assignment)
    requires WF(e)
  {
    Eval(e, a) == 1
  }

  // ----- sizes -----

  function Size(e: Expr): (n: nat)
    ensures n >= 1 && (!e.Constant? ==> n >= 2)
  {
    match e
    case Constant(_, _) => 1
    case Read(_, i) => 1 + Size(i)
    case Select(c, t, f) => 1 + Size(c) + Size(t) + Size(f)
    case Concat(l, r) => 1 + Size(l) + Size(r)
    case Extract(x, _, _) => 1 + Size(x)
    case ZExt(x, _) => 1 + Size(x)
    case SExt(x, _) => 1 + Size(x)
    case Not(x) => 1 + Size(x)
    case Binary(_, l, r) => 1 + Size(l) + Size(r)
  }

  /** The number of reads in an expression, those inside its update lists included. */
  function Reads(e: Expr): nat {
    match e
    case Constant(_, _) => 0
    case Read(ul, i) => 1 + NodeReads(ul.head) + Reads(i)
    case Select(c, t, f) => Reads(c) + Reads(t) + Reads(f)
    case Concat(l, r) => Reads(l) + Reads(r)
    case Extract(x, _, _) => Reads(x)
    case ZExt(x, _) => Reads(x)
    case SExt(x, _) => Reads(x)
    case Not(x) => Reads(x)
    case Binary(_, l, r) => Reads(l) + Reads(r)
  }

  function NodeReads(n: UpdateNode): nat {
    match n
    case Null => 0
    case Node(i, v, next) => Reads(i) + Reads(v) + NodeReads(next)
  }

  /** No compound of constants is left unfolded: every expression built by the constructor
      functions, rather than by raw allocation, has this shape. */
  predicate Folded(e: Expr) {
    && (e.Constant? || Reads(e) > 0)
    && match e
       case Constant(_, _) => true
       case Read(ul, i) => FoldedNodes(ul.head) && Folded(i)
       case Select(c, t, f) => Folded(c) && Folded(t) && Folded(f)
       case Concat(l, r) => Folded(l) && Folded(r)
       case Extract(x, _, _) => Folded(x)
       case ZExt(x, _) => Folded(x)
       case SExt(x, _) => Folded(x)
       case Not(x) => Folded(x)
       case Binary(_, l, r) => Folded(l) && Folded(r)
  }

  predicate FoldedNodes(n: UpdateNode) {
    match n
    case Null => true
    case Node(i, v, next) => Folded(i) && Folded(v) && FoldedNodes(next)
  }
}
