/** Multi-byte reads and writes: the byte loops, and the round trip between them. */
module ObjectWords {
  import opened Bits
  import opened Exprs
  import opened Create
  import opened CreateSound
  import opened CreateShape
  import opened CreateTheorems
  import opened ArrayReads
  import opened ObjectView
  import opened ObjectOps

  /** Where the byte of significance `j` of an `n`-byte word lies; the map is its own inverse. */
  function ByteIndex(j: nat, n: nat, littleEndian: bool): (i: nat)
    requires j < n
    ensures i < n
  {
    if littleEndian then j else n - j - 1
  }

  predicate WFWord(x: Expr, n: nat) { WF(x) && Folded(x) && n > 0 && Width(x) == 8 * n }

  /** The word the logical bytes at `base` hold, from its `k` least significant bytes. */
  function Load(v: View, base: nat, k: nat, n: nat, le: bool, a: Assignment): nat
    requires WFView(v) && base + n <= v.size && k <= n
  {
    if k == 0 then 0
    else ConcatBits(Byte(v, base + ByteIndex(k - 1, n, le), a), Load(v, base, k - 1, n, le, a), 8 * (k - 1))
  }

  /** The `k` least significant bytes of `x` are in place at `base`, and nothing else has changed. */
  ghost predicate Wrote(v: View, v': View, base: nat, x: nat, k: nat, n: nat, le: bool, a: Assignment)
    requires WFView(v) && WFView(v')
  {
    v'.size == v.size && base + n <= v.size && k <= n &&
    forall i :: 0 <= i < v.size ==>
      Byte(v', i, a) ==
        if base <= i < base + n && ByteIndex(i - base, n, le) < k
        then ExtractBits(x, 8 * ByteIndex(i - base, n, le), 8)
        else Byte(v, i, a)
  }

  /** One more byte in place. */
  lemma WroteStep(v: View, u: View, v': View, base: nat, x: nat, k: nat, n: nat, le: bool, a: Assignment)
    requires WFView(v) && WFView(u) && WFView(v') && v'.size == u.size
    requires k < n && Wrote(v, u, base, x, k, n, le, a)
    requires forall i :: 0 <= i < u.size ==>
      Byte(v', i, a) == if i == base + ByteIndex(k, n, le) then ExtractBits(x, 8 * k, 8) else Byte(u, i, a)
    ensures Wrote(v, v', base, x, k + 1, n, le, a)
  {
    hide WFView, Byte, ExtractBits;
  }

  /** After a full write the word read back is the word written. */
  lemma {:induction false} LoadWritten(v: View, v': View, base: nat, x: nat, k: nat, n: nat, le: bool, a: Assignment)
    requires WFView(v) && WFView(v') && Wrote(v, v', base, x, n, n, le, a) && k <= n
    ensures Load(v', base, k, n, le, a) == ExtractBits(x, 0, 8 * k)
    decreases k
  {
    hide WFView, Byte, ExtractBits, ConcatBits;
    if k == 0 {
      ExtractNothing(x);
    } else {
      LoadWritten(v, v', base, x, k - 1, n, le, a);
      ExtractJoin(x, 0, 8 * (k - 1), 8);
      assert 8 + 8 * (k - 1) == 8 * k;
    }
  }

  lemma ExtractNothing(x: nat)
    ensures ExtractBits(x, 0, 0) == 0
  {
    assert Pow2(0) == 1;
  }

  // ----- constant offsets -----

  /** The byte of `x` of significance `j`, as an expression. */
  function ByteOf(x: Expr, j: nat, n: nat): (e: Expr)
    requires WFWord(x, n) && j < n
    ensures WFByteExpr(e)
  {
    ExtractShape(x, 8 * j, 8);
    ExtractCreate(x, 8 * j, 8)
  }

  lemma ByteOfValue(x: Expr, j: nat, n: nat, a: Assignment)
    requires WFWord(x, n) && j < n
    ensures Eval(ByteOf(x, j, n), a) == ExtractBits(Eval(x, a), 8 * j, 8)
  {
    hide Eval, ExtractCreate;
    ExtractSound(x, 8 * j, 8, a);
  }

  /** The view after the first `k` steps of the writing loop. */
  function PutWord(v: View, base: nat, x: Expr, k: nat, n: nat, le: bool): (v': View)
    requires Inv(v) && WFWord(x, n) && base + n <= v.size && k <= n
    ensures Inv(v') && v'.size == v.size
    decreases k
  {
    hide Coherent, WFView, ByteOf, WFWord;
    if k == 0 then v
    else
      var u := PutWord(v, base, x, k - 1, n, le);
      var i := base + ByteIndex(k - 1, n, le);
      PutByteExact(u, i, ByteOf(x, k - 1, n));
      PutByte(u, i, ByteOf(x, k - 1, n))
  }

  lemma {:induction false} PutWordExact(v: View, base: nat, x: Expr, k: nat, n: nat, le: bool, a: Assignment)
    requires Inv(v) && WFWord(x, n) && base + n <= v.size && k <= n
    ensures Wrote(v, PutWord(v, base, x, k, n, le), base, Eval(x, a), k, n, le, a)
    decreases k
  {
    hide Eval, Coherent, WFView, PutByte, ByteOf, WF, Folded, Byte, ExtractBits;
    if k > 0 {
      PutWordExact(v, base, x, k - 1, n, le, a);
      var u := PutWord(v, base, x, k - 1, n, le);
      PutByteExact(u, base + ByteIndex(k - 1, n, le), ByteOf(x, k - 1, n));
      ByteOfValue(x, k - 1, n, a);
      hide Wrote;
      WroteStep(v, u, PutWord(v, base, x, k, n, le), base, Eval(x, a), k - 1, n, le, a);
    }
  }

  /** A word of `k` bytes read from `v`, and a view `u` after reading that has the same bytes. */
  ghost predicate ReadOk(v: View, e: Expr, u: View, k: nat) {
    WFWord(e, k) && Inv(v) && Inv(u) && SameBytes(v, u)
  }

  lemma ReadStep(v: View, e: Expr, u: View, k: nat, b: Expr, u': View)
    requires ReadOk(v, e, u, k) && WFByteExpr(b) && Inv(u') && SameBytes(u, u')
    ensures ReadOk(v, ConcatCreate(b, e), u', k + 1)
  {
    hide WFView, Coherent, Byte, WF, Folded, ConcatCreate;
    ConcatShape(b, e);
  }

  /** The expression built by the first `k` steps of the reading loop, and the view after them. */
  function GetWord(v: View, base: nat, k: nat, n: nat, le: bool): (r: (Expr, View))
    requires Inv(v) && 0 < k <= n && base + n <= v.size
    ensures ReadOk(v, r.0, r.1, k)
    decreases k
  {
    hide Coherent, WFView, AfterGet, GetByte, Byte, WF, Folded;
    if k == 1 then
      GetByteExact(v, base + ByteIndex(0, n, le));
      (GetByte(v, base + ByteIndex(0, n, le)), AfterGet(v, base + ByteIndex(0, n, le)))
    else
      var (e, u) := GetWord(v, base, k - 1, n, le);
      var i := base + ByteIndex(k - 1, n, le);
      GetByteExact(u, i);
      ReadStep(v, e, u, k - 1, GetByte(u, i), AfterGet(u, i));
      (ConcatCreate(GetByte(u, i), e), AfterGet(u, i))
  }

  lemma {:induction false} GetWordExact(v: View, base: nat, k: nat, n: nat, le: bool, a: Assignment)
    requires Inv(v) && 0 < k <= n && base + n <= v.size
    ensures Eval(GetWord(v, base, k, n, le).0, a) == Load(v, base, k, n, le, a)
    decreases k
  {
    hide Eval, Coherent, WFView, AfterGet, GetByte, ConcatCreate, ConcatBits, Byte, WF, Folded;
    if k == 1 {
      var i := base + ByteIndex(0, n, le);
      GetByteExact(v, i);
      assert Load(v, base, 0, n, le, a) == 0;
      ConcatNothing(Byte(v, i, a));
    } else {
      var (e, u) := GetWord(v, base, k - 1, n, le);
      var i := base + ByteIndex(k - 1, n, le);
      GetWordExact(v, base, k - 1, n, le, a);
      GetByteExact(u, i);
      ConcatSound(GetByte(u, i), e, a);
    }
  }

  lemma ConcatNothing(x: nat)
    ensures ConcatBits(x, 0, 0) == x
  {
    assert Pow2(0) == 1;
  }

  /** A word written at a constant offset and read back there has the value written; every other
      byte is as it was. */
  lemma WordRoundTrip(v: View, base: nat, x: Expr, n: nat, le: bool, a: Assignment)
    requires Inv(v) && WFWord(x, n) && base + n <= v.size
    ensures Eval(GetWord(PutWord(v, base, x, n, n, le), base, n, n, le).0, a) == Eval(x, a)
    ensures forall i :: 0 <= i < v.size && !(base <= i < base + n) ==>
              Byte(PutWord(v, base, x, n, n, le), i, a) == Byte(v, i, a)
  {
    hide Eval, Coherent, WFView, PutWord, GetWord, Byte, ExtractBits, WF, Folded;
    var v' := PutWord(v, base, x, n, n, le);
    PutWordExact(v, base, x, n, n, le, a);
    LoadWritten(v, v', base, Eval(x, a), n, n, le, a);
    GetWordExact(v', base, n, n, le, a);
    EvalBound(x, a);
    ExtractAll(Eval(x, a), 8 * n);
  }

  // ----- symbolic offsets -----

  /** A symbolic expression plus, or a constant minus one, is never folded to a constant. */
  lemma {:induction false} StaysSymbolic(c: Expr, r: Expr)
    requires Typed(c, r) && c.Constant? && !r.Constant? && Folded(r) && Width(r) != BOOL
    ensures !AddPartialR(c, r).Constant? && !SubPartialR(c, r).Constant?
    decreases Size(r)
  {
    hide WF, Width, Folded, Reads, Size, AddCreate, SubCreate, FoldBinary, XorPartialR;
    TypedConst(c);
    if HasHead(r) {
      HeadTyped(r);
      FoldedKids(r);
      FoldedConst(r.left);
      RightSymbolic(r);
      FoldSum(c, r.left);
      StaysSymbolic(FoldBinary(Add, c, r.left), r.right);
      StaysSymbolic(FoldBinary(Sub, c, r.left), r.right);
      AddBranches(FoldBinary(Add, c, r.left), r.right);
      AddBranches(FoldBinary(Sub, c, r.left), r.right);
      SubBranches(FoldBinary(Add, c, r.left), r.right);
      SubBranches(FoldBinary(Sub, c, r.left), r.right);
    }
  }

  lemma RightSymbolic(r: Expr)
    requires HasHead(r) && Folded(r)
    ensures !r.right.Constant?
  {
    FoldedKids(r);
    ConstReads(r.left);
    ConstReads(r.right);
  }

  lemma ConstReads(e: Expr)
    ensures e.Constant? ==> Reads(e) == 0
  {
  }

  /** The offset of one byte of a word. */
  function OffsetPlus(o: Expr, i: nat): (e: Expr)
    requires WFOffset(o) && i < Pow2(INT32)
    ensures WFOffset(e)
  {
    var c := Constant(i, INT32);
    OffsetTyped(i);
    AddShape(o, c);
    StaysSymbolic(c, o);
    AddBranches(o, c);
    hide AddPartialR, AddCreate, WF, Folded, Reads;
    AddCreate(o, c)
  }

  lemma OffsetPlusValue(o: Expr, i: nat, a: Assignment)
    requires WFOffset(o) && i < Pow2(INT32)
    ensures Eval(o, a) + i < Pow2(INT32) ==> Eval(OffsetPlus(o, i), a) == Eval(o, a) + i
  {
    hide Eval, AddCreate;
    AddSound(o, Constant(i, INT32), a);
    ConstValue(Constant(i, INT32), a);
    if Eval(o, a) + i < Pow2(INT32) {
      WrapSmall(Eval(o, a) + i, INT32);
    }
  }

  lemma SizeBound(v: View)
    requires WFView(v)
    ensures v.size < Pow2(INT32)
  {
  }

  function PutWordAt(v: View, o: Expr, x: Expr, k: nat, n: nat, le: bool): (v': View)
    requires Inv(v) && WFOffset(o) && WFWord(x, n) && n < Pow2(INT32) && k <= n
    ensures Inv(v') && v'.size == v.size
    decreases k
  {
    hide Coherent, WFView, ByteOf, OffsetPlus, WFWord, WF, Folded;
    if k == 0 then v
    else
      var u := PutWordAt(v, o, x, k - 1, n, le);
      var i := OffsetPlus(o, ByteIndex(k - 1, n, le));
      PutByteAtExact(u, i, ByteOf(x, k - 1, n));
      PutByteAt(u, i, ByteOf(x, k - 1, n))
  }

  lemma PutStepAt(v: View, u: View, o: Expr, x: Expr, k: nat, n: nat, le: bool, a: Assignment)
    requires Inv(v) && Inv(u) && WFOffset(o) && WFWord(x, n) && k < n < Pow2(INT32)
    requires Eval(o, a) + n <= v.size && Wrote(v, u, Eval(o, a), Eval(x, a), k, n, le, a)
    ensures Inv(PutByteAt(u, OffsetPlus(o, ByteIndex(k, n, le)), ByteOf(x, k, n)))
    ensures Wrote(v, PutByteAt(u, OffsetPlus(o, ByteIndex(k, n, le)), ByteOf(x, k, n)), Eval(o, a), Eval(x, a), k + 1,
            n, le, a)
  {
    hide Eval, Coherent, WFView, PutByteAt, ByteOf, Byte, ExtractBits, OffsetPlus, WF, Folded;
    SizeBound(v);
    var i := OffsetPlus(o, ByteIndex(k, n, le));
    OffsetPlusValue(o, ByteIndex(k, n, le), a);
    PutByteAtExact(u, i, ByteOf(x, k, n));
    ByteOfValue(x, k, n, a);
    WroteStep(v, u, PutByteAt(u, i, ByteOf(x, k, n)), Eval(o, a), Eval(x, a), k, n, le, a);
  }

  lemma {:induction false} PutWordAtExact(v: View, o: Expr, x: Expr, k: nat, n: nat, le: bool, a: Assignment)
    requires Inv(v) && WFOffset(o) && WFWord(x, n) && k <= n
    requires Eval(o, a) + n <= v.size && n < Pow2(INT32)
    ensures Wrote(v, PutWordAt(v, o, x, k, n, le), Eval(o, a), Eval(x, a), k, n, le, a)
    decreases k
  {
    hide Eval, Coherent, WFView, PutByteAt, ByteOf, Byte, ExtractBits, OffsetPlus, WF, Folded;
    if k > 0 {
      hide Wrote;
      PutWordAtExact(v, o, x, k - 1, n, le, a);
      PutStepAt(v, PutWordAt(v, o, x, k - 1, n, le), o, x, k - 1, n, le, a);
    }
  }

  function GetWordAt(v: View, o: Expr, k: nat, n: nat, le: bool): (r: (Expr, View))
    requires Inv(v) && WFOffset(o) && 0 < k <= n < Pow2(INT32)
    ensures ReadOk(v, r.0, r.1, k)
    decreases k
  {
    hide Coherent, WFView, AfterGetAt, GetByteAt, OffsetPlus, Byte, WF, Folded;
    var i := OffsetPlus(o, ByteIndex(k - 1, n, le));
    if k == 1 then
      GetByteAtExact(v, i);
      AfterGetAtExact(v);
      (GetByteAt(v, i), AfterGetAt(v))
    else
      var (e, u) := GetWordAt(v, o, k - 1, n, le);
      GetByteAtExact(u, i);
      AfterGetAtExact(u);
      ReadStep(v, e, u, k - 1, GetByteAt(u, i), AfterGetAt(u));
      (ConcatCreate(GetByteAt(u, i), e), AfterGetAt(u))
  }

  lemma GetStepAt(v: View, u: View, o: Expr, j: nat, n: nat, le: bool, a: Assignment)
    requires Inv(v) && Inv(u) && SameBytes(v, u) && WFOffset(o) && j < n < Pow2(INT32) && Eval(o, a) + n <= v.size
    ensures Eval(GetByteAt(u, OffsetPlus(o, ByteIndex(j, n, le))), a) == Byte(v, Eval(o, a) + ByteIndex(j, n, le), a)
  {
    hide Eval, Coherent, WFView, GetByteAt, OffsetPlus, Byte, WF, Folded;
    SizeBound(v);
    OffsetPlusValue(o, ByteIndex(j, n, le), a);
    GetByteAtExact(u, OffsetPlus(o, ByteIndex(j, n, le)));
  }

  lemma LoadOne(v: View, base: nat, n: nat, le: bool, a: Assignment)
    requires WFView(v) && base + n <= v.size && 0 < n
    ensures Load(v, base, 1, n, le, a) == Byte(v, base + ByteIndex(0, n, le), a)
  {
    hide WFView, Byte;
    assert Load(v, base, 0, n, le, a) == 0;
    ConcatNothing(Byte(v, base + ByteIndex(0, n, le), a));
  }

  lemma {:induction false} GetWordAtExact(v: View, o: Expr, k: nat, n: nat, le: bool, a: Assignment)
    requires Inv(v) && WFOffset(o) && 0 < k <= n < Pow2(INT32)
    requires Eval(o, a) + n <= v.size
    ensures Eval(GetWordAt(v, o, k, n, le).0, a) == Load(v, Eval(o, a), k, n, le, a)
    decreases k
  {
    hide Eval, Coherent, WFView, AfterGetAt, GetByteAt, ConcatCreate, ConcatBits, OffsetPlus, Byte, WF, Folded;
    if k == 1 {
      hide Load;
      GetStepAt(v, v, o, 0, n, le, a);
      LoadOne(v, Eval(o, a), n, le, a);
    } else {
      var (e, u) := GetWordAt(v, o, k - 1, n, le);
      GetWordAtExact(v, o, k - 1, n, le, a);
      GetStepAt(v, u, o, k - 1, n, le, a);
      ConcatSound(GetByteAt(u, OffsetPlus(o, ByteIndex(k - 1, n, le))), e, a);
    }
  }

  /** A word written at a symbolic offset and read back there has the value written, and the other
      bytes keep theirs, under every assignment that puts the word inside the object. */
  lemma WordRoundTripAt(v: View, o: Expr, x: Expr, n: nat, le: bool, a: Assignment)
    requires Inv(v) && WFOffset(o) && WFWord(x, n) && n < Pow2(INT32) && Eval(o, a) + n <= v.size
    ensures Eval(GetWordAt(PutWordAt(v, o, x, n, n, le), o, n, n, le).0, a) == Eval(x, a)
    ensures forall i :: 0 <= i < v.size && !(Eval(o, a) <= i < Eval(o, a) + n) ==>
              Byte(PutWordAt(v, o, x, n, n, le), i, a) == Byte(v, i, a)
  {
    hide Eval, Coherent, WFView, PutWordAt, GetWordAt, Byte, ExtractBits, WF, Folded;
    var v' := PutWordAt(v, o, x, n, n, le);
    PutWordAtExact(v, o, x, n, n, le, a);
    LoadWritten(v, v', Eval(o, a), Eval(x, a), n, n, le, a);
    GetWordAtExact(v', o, n, n, le, a);
    EvalBound(x, a);
    ExtractAll(Eval(x, a), 8 * n);
  }

  // ----- any offset -----

  /** Wherever `o` puts an `n`-byte word inside the object, `e` has the value the bytes there hold. */
  ghost predicate Loads(v: View, e: Expr, o: Expr, n: nat, le: bool)
    requires WFView(v) && WF(e) && WF(o)
  {
    forall a :: Eval(o, a) + n <= v.size ==> Eval(e, a) == Load(v, Eval(o, a), n, n, le, a)
  }

  /** Wherever `o` puts an `n`-byte word inside the object, `v'` has the bytes of `x` there and is
      otherwise unchanged. */
  ghost predicate Stores(v: View, v': View, o: Expr, x: Expr, n: nat, le: bool)
    requires WFView(v) && WFView(v') && WF(o) && WF(x)
  {
    forall a :: Eval(o, a) + n <= v.size ==> Wrote(v, v', Eval(o, a), Eval(x, a), n, n, le, a)
  }

  lemma WordLoads(v: View, o: Expr, n: nat, le: bool)
    requires Inv(v) && WF(o) && 0 < n < Pow2(INT32)
    ensures o.Constant? && o.value + n <= v.size ==>
            WF(GetWord(v, o.value, n, n, le).0) && Loads(v, GetWord(v, o.value, n, n, le).0, o, n, le)
    ensures WFOffset(o) ==> WF(GetWordAt(v, o, n, n, le).0) && Loads(v, GetWordAt(v, o, n, n, le).0, o, n, le)
  {
    hide WFView, Coherent, Eval, GetWord, GetWordAt, WF, Folded, Load;
    if o.Constant? && o.value + n <= v.size {
      forall a | Eval(o, a) + n <= v.size
        ensures Eval(GetWord(v, o.value, n, n, le).0, a) == Load(v, Eval(o, a), n, n, le, a)
      {
        ConstValue(o, a);
        GetWordExact(v, o.value, n, n, le, a);
      }
    } else if WFOffset(o) {
      forall a | Eval(o, a) + n <= v.size
        ensures Eval(GetWordAt(v, o, n, n, le).0, a) == Load(v, Eval(o, a), n, n, le, a)
      {
        GetWordAtExact(v, o, n, n, le, a);
      }
    }
  }

  lemma WordStores(v: View, o: Expr, x: Expr, n: nat, le: bool)
    requires Inv(v) && WF(o) && WF(x) && WFWord(x, n) && n < Pow2(INT32)
    ensures o.Constant? && o.value + n <= v.size ==> Stores(v, PutWord(v, o.value, x, n, n, le), o, x, n, le)
    ensures WFOffset(o) ==> Stores(v, PutWordAt(v, o, x, n, n, le), o, x, n, le)
  {
    hide WFView, Coherent, Eval, PutWord, PutWordAt, WF, Folded, Wrote;
    if o.Constant? && o.value + n <= v.size {
      forall a ensures Wrote(v, PutWord(v, o.value, x, n, n, le), Eval(o, a), Eval(x, a), n, n, le, a) {
        ConstValue(o, a);
        PutWordExact(v, o.value, x, n, n, le, a);
      }
    } else if WFOffset(o) {
      forall a | Eval(o, a) + n <= v.size
        ensures Wrote(v, PutWordAt(v, o, x, n, n, le), Eval(o, a), Eval(x, a), n, n, le, a)
      {
        PutWordAtExact(v, o, x, n, n, le, a);
      }
    }
  }

  /** What a store put into an object a load from the same offset gives back. */
  lemma LoadAfterStore(v: View, v': View, o: Expr, x: Expr, e: Expr, n: nat, le: bool, a: Assignment)
    requires WFView(v) && WFView(v') && WF(o) && WF(x) && WF(e) && WFWord(x, n)
    requires Stores(v, v', o, x, n, le) && Loads(v', e, o, n, le)
    requires Eval(o, a) + n <= v.size
    ensures Eval(e, a) == Eval(x, a)
  {
    hide WFView, Eval, WF, Folded, Load, ExtractBits, Byte;
    var base := Eval(o, a);
    assert Wrote(v, v', base, Eval(x, a), n, n, le, a);
    LoadWritten(v, v', base, Eval(x, a), n, n, le, a);
    EvalBound(x, a);
    ExtractAll(Eval(x, a), 8 * n);
  }

  // ----- one-bit values -----

  /** A Boolean is stored as a zero-extended byte and read back as that byte's low bit. */
  lemma BoolRoundTrip(v: View, i: nat, x: Expr, a: Assignment)
    requires Inv(v) && i < v.size && WF(x) && Folded(x) && Width(x) == BOOL
    ensures WFByteExpr(ZExtCreate(x, INT8)) && Inv(PutByte(v, i, ZExtCreate(x, INT8)))
    ensures Eval(ExtractCreate(GetByte(PutByte(v, i, ZExtCreate(x, INT8)), i), 0, BOOL), a) == Eval(x, a)
  {
    hide Eval, WFView, Coherent, PutByte, GetByte, ZExtCreate, ExtractCreate, WF, Folded, Byte;
    CastShape(x, INT8);
    ZExtSound(x, INT8, a);
    var z := ZExtCreate(x, INT8);
    PutByteExact(v, i, z);
    var v' := PutByte(v, i, z);
    GetByteExact(v', i);
    ExtractSound(GetByte(v', i), 0, BOOL, a);
    EvalBound(x, a);
    Pow2Mono(BOOL, INT8);
    WrapSmall(Eval(x, a), INT8);
    ExtractAll(Eval(x, a), BOOL);
  }
}
