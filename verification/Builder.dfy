/** The constant-folding builder's sums and differences. Unlike the constructors it moves every
    left operand of a nested sum outward, constant or not. */
module Builder {
  import opened Bits
  import opened Exprs
  import opened Create
  import opened CreateSound

  function Neg(c: Expr): (e: Expr)
    requires WF(c) && c.Constant?
    ensures WF(e) && e.Constant? && Width(e) == Width(c) && e.width == c.width
  {
    Constant(Wrap(0 - c.value, c.width), c.width)
  }

  predicate IsSum(e: Expr) { e.Binary? && e.kind == Add }
  predicate IsDiff(e: Expr) { e.Binary? && e.kind == Sub }

  /** A constant plus a non-constant. */
  function AddConst(c: Expr, r: Expr): (e: Expr)
    requires Typed(c, r) && c.Constant? && !r.Constant?
    ensures WF(e) && Width(e) == Width(r) && Size(e) <= Size(r) + 2
    decreases 1 + Size(r), 1, 0
  {
    if IsZeroConst(c) then r
    else if IsSum(r) && r.left.Constant? then BuildAdd(FoldBinary(Add, c, r.left), r.right)
    else if IsSum(r) && r.right.Constant? then BuildAdd(FoldBinary(Add, c, r.right), r.left)
    else if IsDiff(r) && r.left.Constant? then BuildSub(FoldBinary(Add, c, r.left), r.right)
    else if IsDiff(r) && r.right.Constant? then BuildAdd(FoldBinary(Sub, c, r.right), r.left)
    else Binary(Add, c, r)
  }

  /** A constant minus a non-constant. */
  function SubConst(c: Expr, r: Expr): (e: Expr)
    requires Typed(c, r) && c.Constant? && !r.Constant?
    ensures WF(e) && Width(e) == Width(r) && Size(e) <= Size(r) + 2
    decreases 1 + Size(r), 1, 0
  {
    if IsSum(r) && r.left.Constant? then BuildSub(FoldBinary(Sub, c, r.left), r.right)
    else if IsSum(r) && r.right.Constant? then BuildSub(FoldBinary(Sub, c, r.right), r.left)
    else if IsDiff(r) && r.left.Constant? then BuildAdd(FoldBinary(Sub, c, r.left), r.right)
    else if IsDiff(r) && r.right.Constant? then BuildSub(FoldBinary(Add, c, r.right), r.left)
    else Binary(Sub, c, r)
  }

  lemma SumParts(e: Expr)
    requires WF(e)
    ensures e.Constant? ==> Width(e) == e.width && Size(e) == 1
    ensures IsSum(e) || IsDiff(e) ==>
      Typed(e.left, e.right) && Width(e.left) == Width(e) && Size(e) == 1 + Size(e.left) + Size(e.right)
  {
  }

  lemma BuiltNode(k: Kind, l: Expr, r: Expr)
    requires Typed(l, r) && (k == Add || k == Sub)
    ensures WF(Binary(k, l, r)) && Width(Binary(k, l, r)) == Width(l) && Size(Binary(k, l, r)) == Size(l) + Size(r) + 1
    ensures l.Constant? && r.Constant? ==> Size(FoldBinary(k, l, r)) == 1 && Width(FoldBinary(k, l, r)) == Width(l)
  {
  }

  function BuildAdd(l: Expr, r: Expr): (e: Expr)
    requires Typed(l, r)
    ensures WF(e) && Width(e) == Width(l) && Size(e) <= Size(l) + Size(r) + 1
    decreases Size(l) + Size(r), Size(l), 1
  {
    hide WF;
    SumParts(l);
    SumParts(r);
    BuiltNode(Add, l, r);
    if l.Constant? && r.Constant? then FoldBinary(Add, l, r)
    else if l.Constant? then AddConst(l, r)
    else if r.Constant? then AddConst(r, l)
    else if IsSum(l) then BuildAdd(l.left, BuildAdd(l.right, r))
    else if IsDiff(l) then BuildAdd(l.left, BuildSub(r, l.right))
    else if IsSum(r) && r.left.Constant? then BuildAdd(r.left, BuildAdd(l, r.right))
    else if IsSum(r) && r.right.Constant? then BuildAdd(r.right, BuildAdd(l, r.left))
    else if IsDiff(r) && r.left.Constant? then BuildAdd(r.left, BuildSub(l, r.right))
    else if IsDiff(r) && r.right.Constant? then BuildAdd(Neg(r.right), BuildAdd(l, r.left))
    else Binary(Add, l, r)
  }

  function BuildSub(l: Expr, r: Expr): (e: Expr)
    requires Typed(l, r)
    ensures WF(e) && Width(e) == Width(l) && Size(e) <= Size(l) + Size(r) + 1
    decreases Size(l) + Size(r), Size(l), 1
  {
    hide WF;
    SumParts(l);
    SumParts(r);
    BuiltNode(Sub, l, r);
    if l.Constant? && r.Constant? then FoldBinary(Sub, l, r)
    else if l.Constant? then SubConst(l, r)
    else if r.Constant? then AddConst(Neg(r), l)
    else if IsSum(l) then BuildAdd(l.left, BuildSub(l.right, r))
    else if IsDiff(l) then BuildSub(l.left, BuildAdd(l.right, r))
    else if IsSum(r) && r.left.Constant? then BuildAdd(Neg(r.left), BuildSub(l, r.right))
    else if IsSum(r) && r.right.Constant? then BuildAdd(Neg(r.right), BuildSub(l, r.left))
    else if IsDiff(r) && r.left.Constant? then BuildAdd(Neg(r.left), BuildAdd(l, r.right))
    else if IsDiff(r) && r.right.Constant? then BuildAdd(r.right, BuildSub(l, r.left))
    else Binary(Sub, l, r)
  }

  // ----- values -----

  lemma NegValue(c: Expr)
    requires WF(c) && c.Constant?
    ensures Neg(c) == Constant(Wrap(0 - c.value, c.width), c.width)
  {
  }

  /** Adding a negated constant is subtracting it. */
  lemma NegPlus(c: int, x: int, w: nat)
    ensures Wrap(Wrap(0 - c, w) + Wrap(x, w), w) == Wrap(x - c, w)
  {
    hide Wrap;
    WrapIn(0 - c, Wrap(x, w), w);
    WrapIn(0 - c, x, w);
    assert 0 - c + x == x - c;
  }

  lemma {:induction false} AddConstSound(c: Expr, r: Expr, a: Assignment)
    requires Typed(c, r) && c.Constant? && !r.Constant?
    ensures Eval(AddConst(c, r), a) == Wrap(c.value + Eval(r, a), c.width)
    decreases 1 + Size(r), 1, 1
  {
    hide Eval, EvalBinary, FoldBinary, Wrap, BuildAdd, BuildSub;
    ConstValue(c, a);
    if IsZeroConst(c) {
      EvalBound(r, a);
      WrapZero(Eval(r, a), c.width);
    } else if (IsSum(r) || IsDiff(r)) && (r.left.Constant? || r.right.Constant?) {
      AddConstInto(c, r, a);
    } else {
      SumValue(Binary(Add, c, r), a);
    }
  }

  lemma {:induction false} AddConstInto(c: Expr, r: Expr, a: Assignment)
    requires Typed(c, r) && c.Constant? && !IsZeroConst(c) && (IsSum(r) || IsDiff(r))
    requires r.left.Constant? || r.right.Constant?
    ensures Eval(AddConst(c, r), a) == Wrap(c.value + Eval(r, a), c.width)
    decreases 1 + Size(r), 1, 0
  {
    hide Eval, EvalBinary, FoldBinary, Wrap, BuildAdd, BuildSub, WF, Width, Size;
    SumParts(r);
    SumValue(r, a);
    ConstValue(c, a);
    var w: nat, v: int, x: int, y: int := c.width, c.value, Eval(r.left, a), Eval(r.right, a);
    var k := if r.left.Constant? then r.left else r.right;
    ConstValue(k, a);
    FoldSum(c, k);
    ConstValue(FoldBinary(Add, c, k), a);
    ConstValue(FoldBinary(Sub, c, k), a);
    if IsSum(r) {
      WrapIn(v, x + y, w);
      WrapIn(v + k.value, if r.left.Constant? then y else x, w);
      BuildAddSound(FoldBinary(Add, c, k), if r.left.Constant? then r.right else r.left, a);
    } else if r.left.Constant? {
      WrapIn(v, x - y, w);
      WrapIn(v + x, y, w);
      BuildSubSound(FoldBinary(Add, c, k), r.right, a);
    } else {
      WrapIn(v, x - y, w);
      WrapIn(v - y, x, w);
      BuildAddSound(FoldBinary(Sub, c, k), r.left, a);
    }
  }

  lemma {:induction false} SubConstSound(c: Expr, r: Expr, a: Assignment)
    requires Typed(c, r) && c.Constant? && !r.Constant?
    ensures Eval(SubConst(c, r), a) == Wrap(c.value - Eval(r, a), c.width)
    decreases 1 + Size(r), 1, 1
  {
    hide Eval, EvalBinary, FoldBinary, Wrap, BuildAdd, BuildSub;
    ConstValue(c, a);
    if (IsSum(r) || IsDiff(r)) && (r.left.Constant? || r.right.Constant?) {
      SubConstInto(c, r, a);
    } else {
      SumValue(Binary(Sub, c, r), a);
    }
  }

  lemma {:induction false} SubConstInto(c: Expr, r: Expr, a: Assignment)
    requires Typed(c, r) && c.Constant? && (IsSum(r) || IsDiff(r))
    requires r.left.Constant? || r.right.Constant?
    ensures Eval(SubConst(c, r), a) == Wrap(c.value - Eval(r, a), c.width)
    decreases 1 + Size(r), 1, 0
  {
    hide Eval, EvalBinary, FoldBinary, Wrap, BuildAdd, BuildSub, WF, Width, Size;
    SumParts(r);
    SumValue(r, a);
    ConstValue(c, a);
    var w: nat, v: int, x: int, y: int := c.width, c.value, Eval(r.left, a), Eval(r.right, a);
    var k := if r.left.Constant? then r.left else r.right;
    ConstValue(k, a);
    FoldSum(c, k);
    ConstValue(FoldBinary(Add, c, k), a);
    ConstValue(FoldBinary(Sub, c, k), a);
    if IsSum(r) {
      WrapIn(v, x + y, w);
      WrapIn(v - k.value, if r.left.Constant? then y else x, w);
      BuildSubSound(FoldBinary(Sub, c, k), if r.left.Constant? then r.right else r.left, a);
    } else if r.left.Constant? {
      WrapIn(v, x - y, w);
      WrapIn(v - x, y, w);
      BuildAddSound(FoldBinary(Sub, c, k), r.right, a);
    } else {
      WrapIn(v, x - y, w);
      WrapIn(v + y, x, w);
      BuildSubSound(FoldBinary(Add, c, k), r.left, a);
    }
  }

  // ----- the branches -----

  lemma AddBranch(l: Expr, r: Expr)
    requires Typed(l, r) && !l.Constant? && !r.Constant?
    ensures IsSum(l) ==> BuildAdd(l, r) == BuildAdd(l.left, BuildAdd(l.right, r))
    ensures IsDiff(l) ==> BuildAdd(l, r) == BuildAdd(l.left, BuildSub(r, l.right))
    ensures !IsSum(l) && !IsDiff(l) && IsSum(r) && r.left.Constant? ==>
              BuildAdd(l, r) == BuildAdd(r.left, BuildAdd(l, r.right))
    ensures !IsSum(l) && !IsDiff(l) && IsSum(r) && !r.left.Constant? && r.right.Constant? ==>
              BuildAdd(l, r) == BuildAdd(r.right, BuildAdd(l, r.left))
    ensures !IsSum(l) && !IsDiff(l) && IsDiff(r) && r.left.Constant? ==>
              BuildAdd(l, r) == BuildAdd(r.left, BuildSub(l, r.right))
    ensures !IsSum(l) && !IsDiff(l) && IsDiff(r) && !r.left.Constant? && r.right.Constant? ==>
              BuildAdd(l, r) == BuildAdd(Neg(r.right), BuildAdd(l, r.left))
    ensures !IsSum(l) && !IsDiff(l) && !((IsSum(r) || IsDiff(r)) && (r.left.Constant? || r.right.Constant?)) ==>
              BuildAdd(l, r) == Binary(Add, l, r)
  {
  }

  lemma SubBranch(l: Expr, r: Expr)
    requires Typed(l, r) && !l.Constant? && !r.Constant?
    ensures IsSum(l) ==> BuildSub(l, r) == BuildAdd(l.left, BuildSub(l.right, r))
    ensures IsDiff(l) ==> BuildSub(l, r) == BuildSub(l.left, BuildAdd(l.right, r))
    ensures !IsSum(l) && !IsDiff(l) && IsSum(r) && r.left.Constant? ==>
              BuildSub(l, r) == BuildAdd(Neg(r.left), BuildSub(l, r.right))
    ensures !IsSum(l) && !IsDiff(l) && IsSum(r) && !r.left.Constant? && r.right.Constant? ==>
              BuildSub(l, r) == BuildAdd(Neg(r.right), BuildSub(l, r.left))
    ensures !IsSum(l) && !IsDiff(l) && IsDiff(r) && r.left.Constant? ==>
              BuildSub(l, r) == BuildAdd(Neg(r.left), BuildAdd(l, r.right))
    ensures !IsSum(l) && !IsDiff(l) && IsDiff(r) && !r.left.Constant? && r.right.Constant? ==>
              BuildSub(l, r) == BuildAdd(r.right, BuildSub(l, r.left))
    ensures !IsSum(l) && !IsDiff(l) && !((IsSum(r) || IsDiff(r)) && (r.left.Constant? || r.right.Constant?)) ==>
              BuildSub(l, r) == Binary(Sub, l, r)
  {
  }

  lemma ConstBranch(l: Expr, r: Expr)
    requires Typed(l, r) && (l.Constant? || r.Constant?)
    ensures BuildAdd(l, r) == if l.Constant? then (if r.Constant? then FoldBinary(Add, l, r) else AddConst(l, r))
            else AddConst(r, l)
    ensures BuildSub(l, r) == if l.Constant? then (if r.Constant? then FoldBinary(Sub, l, r) else SubConst(l, r))
            else AddConst(Neg(r), l)
  {
  }

  // ----- sums -----

  /** The builder's reassociation ends, and keeps the value at every width. */
  lemma {:induction false} BuildAddSound(l: Expr, r: Expr, a: Assignment)
    requires Typed(l, r)
    ensures Eval(BuildAdd(l, r), a) == Wrap(Eval(l, a) + Eval(r, a), Width(l))
    decreases Size(l) + Size(r), Size(l), 3
  {
    hide Eval, EvalBinary, FoldBinary, Wrap, AddConst, SubConst, BuildAdd, BuildSub, WF, Width, Size, Neg;
    if l.Constant? && r.Constant? {
      ConstBranch(l, r);
      ConstValue(l, a);
      ConstValue(r, a);
      FoldSum(l, r);
      ConstValue(FoldBinary(Add, l, r), a);
    } else if l.Constant? {
      ConstBranch(l, r);
      ConstValue(l, a);
      AddConstSound(l, r, a);
    } else if r.Constant? {
      ConstBranch(l, r);
      ConstValue(r, a);
      SizeAtLeast(l);
      AddConstSound(r, l, a);
    } else if IsSum(l) || IsDiff(l) {
      AddLeft(l, r, a);
    } else if (IsSum(r) || IsDiff(r)) && (r.left.Constant? || r.right.Constant?) {
      AddRight(l, r, a);
    } else {
      AddBranch(l, r);
      SumOf(Add, l, r, a);
    }
  }

  lemma SizeAtLeast(e: Expr)
    ensures Size(e) >= 1 && (!e.Constant? ==> Size(e) >= 2)
  {
  }

  lemma SumOf(k: Kind, l: Expr, r: Expr, a: Assignment)
    requires Typed(l, r)
    ensures WF(Binary(Add, l, r)) && Eval(Binary(Add, l, r), a) == Wrap(Eval(l, a) + Eval(r, a), Width(l))
    ensures WF(Binary(Sub, l, r)) && Eval(Binary(Sub, l, r), a) == Wrap(Eval(l, a) - Eval(r, a), Width(l))
  {
    hide Eval;
    SumValue(Binary(Add, l, r), a);
    SumValue(Binary(Sub, l, r), a);
  }

  lemma {:induction false} AddLeft(l: Expr, r: Expr, a: Assignment)
    requires Typed(l, r) && !r.Constant? && (IsSum(l) || IsDiff(l))
    ensures Eval(BuildAdd(l, r), a) == Wrap(Eval(l, a) + Eval(r, a), Width(l))
    decreases Size(l) + Size(r), Size(l), 2
  {
    hide Eval, EvalBinary, Wrap, BuildAdd, BuildSub, WF, Width, Size;
    AddBranch(l, r);
    SumParts(l);
    SizeAtLeast(l.left);
    SizeAtLeast(l.right);
    SumValue(l, a);
    var w: nat, x: int, y: int, z: int := Width(l), Eval(l.left, a), Eval(l.right, a), Eval(r, a);
    if IsSum(l) {
      WrapIn(x, y + z, w);
      WrapIn(x + y, z, w);
      BuildAddSound(l.right, r, a);
      BuildAddSound(l.left, BuildAdd(l.right, r), a);
    } else {
      WrapIn(x, z - y, w);
      WrapIn(x - y, z, w);
      BuildSubSound(r, l.right, a);
      BuildAddSound(l.left, BuildSub(r, l.right), a);
    }
  }

  lemma {:induction false} AddRight(l: Expr, r: Expr, a: Assignment)
    requires Typed(l, r) && !l.Constant? && !IsSum(l) && !IsDiff(l) && (IsSum(r) || IsDiff(r))
    requires r.left.Constant? || r.right.Constant?
    ensures Eval(BuildAdd(l, r), a) == Wrap(Eval(l, a) + Eval(r, a), Width(l))
    decreases Size(l) + Size(r), Size(l), 2
  {
    hide Eval, EvalBinary, Wrap, BuildAdd, BuildSub, WF, Width, Size, Neg;
    AddBranch(l, r);
    SumParts(r);
    SizeAtLeast(l);
    SumValue(r, a);
    var w: nat, x: int, y: int, z: int := Width(l), Eval(l, a), Eval(r.left, a), Eval(r.right, a);
    var k, other := if r.left.Constant? then r.left else r.right, if r.left.Constant? then r.right else r.left;
    var o: int := Eval(other, a);
    ConstValue(k, a);
    NegValue(k);
    ConstValue(Neg(k), a);
    SizeAtLeast(other);
    if IsSum(r) {
      WrapIn(x, y + z, w);
      WrapIn(k.value, x + o, w);
      BuildAddSound(l, other, a);
      BuildAddSound(k, BuildAdd(l, other), a);
    } else if r.left.Constant? {
      WrapIn(x, y - z, w);
      WrapIn(y, x - z, w);
      BuildSubSound(l, other, a);
      BuildAddSound(k, BuildSub(l, other), a);
    } else {
      WrapIn(x, y - z, w);
      NegPlus(z, x + y, w);
      BuildAddSound(l, other, a);
      BuildAddSound(Neg(k), BuildAdd(l, other), a);
    }
  }

  // ----- differences -----

  lemma {:induction false} BuildSubSound(l: Expr, r: Expr, a: Assignment)
    requires Typed(l, r)
    ensures Eval(BuildSub(l, r), a) == Wrap(Eval(l, a) - Eval(r, a), Width(l))
    decreases Size(l) + Size(r), Size(l), 3
  {
    hide Eval, EvalBinary, FoldBinary, Wrap, AddConst, SubConst, BuildAdd, BuildSub, WF, Width, Size, Neg;
    if l.Constant? && r.Constant? {
      ConstBranch(l, r);
      ConstValue(l, a);
      ConstValue(r, a);
      FoldSum(l, r);
      ConstValue(FoldBinary(Sub, l, r), a);
    } else if l.Constant? {
      ConstBranch(l, r);
      ConstValue(l, a);
      SubConstSound(l, r, a);
    } else if r.Constant? {
      ConstBranch(l, r);
      ConstValue(r, a);
      NegValue(r);
      SizeAtLeast(l);
      AddConstSound(Neg(r), l, a);
      WrapIn(0 - r.value, Eval(l, a), r.width);
    } else if IsSum(l) || IsDiff(l) {
      SubLeft(l, r, a);
    } else if (IsSum(r) || IsDiff(r)) && (r.left.Constant? || r.right.Constant?) {
      SubRight(l, r, a);
    } else {
      SubBranch(l, r);
      SumOf(Sub, l, r, a);
    }
  }

  lemma {:induction false} SubLeft(l: Expr, r: Expr, a: Assignment)
    requires Typed(l, r) && !r.Constant? && (IsSum(l) || IsDiff(l))
    ensures Eval(BuildSub(l, r), a) == Wrap(Eval(l, a) - Eval(r, a), Width(l))
    decreases Size(l) + Size(r), Size(l), 2
  {
    hide Eval, EvalBinary, Wrap, BuildAdd, BuildSub, WF, Width, Size;
    SubBranch(l, r);
    SumParts(l);
    SizeAtLeast(l.left);
    SizeAtLeast(l.right);
    SumValue(l, a);
    var w: nat, x: int, y: int, z: int := Width(l), Eval(l.left, a), Eval(l.right, a), Eval(r, a);
    if IsSum(l) {
      WrapIn(x, y - z, w);
      WrapIn(x + y, z, w);
      BuildSubSound(l.right, r, a);
      BuildAddSound(l.left, BuildSub(l.right, r), a);
    } else {
      WrapIn(x, y + z, w);
      WrapIn(x - y, z, w);
      BuildAddSound(l.right, r, a);
      BuildSubSound(l.left, BuildAdd(l.right, r), a);
    }
  }

  lemma {:induction false} SubRight(l: Expr, r: Expr, a: Assignment)
    requires Typed(l, r) && !l.Constant? && !IsSum(l) && !IsDiff(l) && (IsSum(r) || IsDiff(r))
    requires r.left.Constant? || r.right.Constant?
    ensures Eval(BuildSub(l, r), a) == Wrap(Eval(l, a) - Eval(r, a), Width(l))
    decreases Size(l) + Size(r), Size(l), 2
  {
    hide Eval, EvalBinary, Wrap, BuildAdd, BuildSub, WF, Width, Size, Neg;
    SubBranch(l, r);
    SumParts(r);
    SizeAtLeast(l);
    SumValue(r, a);
    var w: nat, x: int, y: int, z: int := Width(l), Eval(l, a), Eval(r.left, a), Eval(r.right, a);
    var k, other := if r.left.Constant? then r.left else r.right, if r.left.Constant? then r.right else r.left;
    var o: int := Eval(other, a);
    ConstValue(k, a);
    NegValue(k);
    ConstValue(Neg(k), a);
    SizeAtLeast(other);
    if IsSum(r) {
      WrapIn(x, y + z, w);
      NegPlus(k.value, x - o, w);
      BuildSubSound(l, other, a);
      BuildAddSound(Neg(k), BuildSub(l, other), a);
    } else if r.left.Constant? {
      WrapIn(x, y - z, w);
      NegPlus(y, x + z, w);
      BuildAddSound(l, other, a);
      BuildAddSound(Neg(k), BuildAdd(l, other), a);
    } else {
      WrapIn(x, y - z, w);
      WrapIn(z, x - y, w);
      BuildSubSound(l, other, a);
      BuildAddSound(k, BuildSub(l, other), a);
    }
  }
}
