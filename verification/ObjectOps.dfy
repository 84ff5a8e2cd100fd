/** Reads and writes of memory objects at concrete and symbolic offsets, of one byte and of many,
    against the object's logical bytes. */
module ObjectOps {
  import opened Collections
  import opened Bits
  import opened Exprs
  import opened Create
  import opened CreateSound
  import opened CreateShape
  import opened CreateTheorems
  import opened ArrayReads
  import opened Constraints
  import opened ObjectView

  // ----- the constant array made on the first read through the list -----

  /** How many of the oldest writes are constants at constant indices. */
  function LeadingConcrete(ws: seq<(Expr, Expr)>): (k: nat)
    ensures k <= |ws|
    ensures forall j :: 0 <= j < k ==> Concrete(ws[j])
    ensures k < |ws| ==> !Concrete(ws[k])
  {
    if ws == [] || !Concrete(ws[0]) then 0 else 1 + LeadingConcrete(ws[1..])
  }

  predicate Inside(ws: seq<(Expr, Expr)>, size: nat) {
    forall j :: 0 <= j < |ws| && ws[j].0.Constant? ==> ws[j].0.value < size
  }

  /** Zeros with the first `k` writes applied. */
  function Contents(size: nat, ws: seq<(Expr, Expr)>, k: nat): (c: seq<nat>)
    requires k <= |ws| && Inside(ws, size) && forall j :: 0 <= j < k ==> Concrete(ws[j])
    ensures |c| == size
  {
    if k == 0 then Zeros(size)
    else
      assert Concrete(ws[k - 1]);
      Contents(size, ws, k - 1)[ws[k - 1].0.value := ws[k - 1].1.value]
  }

  lemma {:induction false} InsideOldest(n: UpdateNode, size: nat)
    requires IndicesBelow(n, size)
    ensures Inside(OldestFirst(n), size)
  {
    match n
    case Null =>
    case Node(_, _, next) => InsideOldest(next, size);
  }

  predicate FoldedWrites(ws: seq<(Expr, Expr)>) { forall j :: 0 <= j < |ws| ==> Folded(ws[j].0) && Folded(ws[j].1) }

  lemma {:induction false} FoldedOldest(n: UpdateNode)
    requires FoldedNodes(n)
    ensures FoldedWrites(OldestFirst(n))
  {
    match n
    case Null =>
    case Node(_, _, next) => FoldedOldest(next);
  }

  lemma {:induction false} FoldedExtend(n: UpdateNode, ws: seq<(Expr, Expr)>)
    requires FoldedNodes(n) && FoldedWrites(ws)
    ensures FoldedNodes(Extend(n, ws))
    decreases |ws|
  {
    if ws != [] {
      FoldedExtend(Node(ws[0].0, ws[0].1, n), ws[1..]);
    }
  }

  lemma {:induction false} ExtendConcat(n: UpdateNode, xs: seq<(Expr, Expr)>, ys: seq<(Expr, Expr)>)
    ensures Extend(n, xs + ys) == Extend(Extend(n, xs), ys)
    decreases |xs|
  {
    if xs == [] {
      assert xs + ys == ys;
    } else {
      assert (xs + ys)[1..] == xs[1..] + ys;
      ExtendConcat(Node(xs[0].0, xs[0].1, n), xs[1..], ys);
    }
  }

  function MaterialArray(v: View): Array
    requires WFView(v) && v.root.None?
  {
    var ws := OldestFirst(v.head);
    InsideOldest(v.head, v.size);
    Array(0, v.size, INT32, INT8, Contents(v.size, ws, LeadingConcrete(ws)))
  }

  /** The update list that reads go through, its root created if it was absent. */
  function Materialise(v: View): View
    requires WFView(v)
  {
    if v.root.Some? then v
    else
      var ws := OldestFirst(v.head);
      v.(root := Some(MaterialArray(v)), head := Extend(Null, ws[LeadingConcrete(ws)..]))
  }

  lemma {:induction false} ContentsBound(size: nat, ws: seq<(Expr, Expr)>, k: nat)
    requires k <= |ws| && Inside(ws, size) && forall j :: 0 <= j < k ==> Concrete(ws[j])
    requires forall j :: 0 <= j < |ws| ==> WF(ws[j].1) && Width(ws[j].1) == INT8
    ensures forall i :: 0 <= i < size ==> Contents(size, ws, k)[i] < Pow2(INT8)
  {
    if k > 0 {
      ContentsBound(size, ws, k - 1);
    }
  }

  /** The folded contents are what a lookup through the folded writes would have found. */
  lemma {:induction false} ContentsLookup(size: nat, ws: seq<(Expr, Expr)>, k: nat, i: nat, a: Assignment)
    requires k <= |ws| && Inside(ws, size) && i < size && forall j :: 0 <= j < k ==> Concrete(ws[j])
    requires WFWrites(BaseArray(size, None), ws)
    ensures WFNodes(BaseArray(size, None), Extend(Null, ws[..k]))
    ensures Lookup(BaseArray(size, None), Extend(Null, ws[..k]), i, a) == Contents(size, ws, k)[i]
  {
    hide Eval;
    var zero := BaseArray(size, None);
    ExtendTyped(zero, Null, ws[..k]);
    if k == 0 {
      assert ws[..0] == [];
    } else {
      ContentsLookup(size, ws, k - 1, i, a);
      assert ws[..k] == ws[..k - 1] + [ws[k - 1]];
      ExtendSnoc(Null, ws[..k - 1], ws[k - 1]);
      ConstValue(ws[k - 1].0, a);
      ConstValue(ws[k - 1].1, a);
    }
  }

  /** Creating the constant array changes what the list says of no byte of the object. */
  lemma MaterialList(v: View, i: nat, a: Assignment)
    requires WFView(v) && v.root.None? && i < v.size
    ensures var r := MaterialArray(v);
            var ws := OldestFirst(v.head);
            var n := Extend(Null, ws[LeadingConcrete(ws)..]);
            WFByteArray(r) && WFNodes(r, n) && FoldedNodes(n) && Lookup(r, n, i, a) == ListByte(v, i, a)
  {
    hide Eval, WF, Width, Folded, IndicesBelow, Contents;
    var zero, r, ws := Root(v), MaterialArray(v), OldestFirst(v.head);
    var k := LeadingConcrete(ws);
    OldestFirstTyped(zero, v.head);
    InsideOldest(v.head, v.size);
    FoldedOldest(v.head);
    ContentsBound(v.size, ws, k);
    FoldedExtend(Null, ws[k..]);
    ContentsLookup(v.size, ws, k, i, a);
    ExtendCongruent(zero, r, Extend(Null, ws[..k]), Null, ws[k..], i, a);
    assert ws[..k] + ws[k..] == ws;
    ExtendConcat(Null, ws[..k], ws[k..]);
    ExtendOldest(v.head);
  }

  lemma MaterialEmpty(v: View)
    requires WFView(v) && v.root.None? && v.size == 0
    ensures WFView(Materialise(v))
  {
    hide Eval, WF, Width, Folded, IndicesBelow;
    var zero, r, ws := Root(v), MaterialArray(v), OldestFirst(v.head);
    var k := LeadingConcrete(ws);
    OldestFirstTyped(zero, v.head);
    FoldedOldest(v.head);
    FoldedExtend(Null, ws[k..]);
    ExtendTyped(r, Null, ws[k..]);
  }

  lemma MaterialiseExact(v: View)
    requires Inv(v)
    ensures Inv(Materialise(v)) && SameBytes(v, Materialise(v)) && Materialise(v).root.Some?
  {
    hide Eval, WF, Width, Folded, IndicesBelow, MaterialArray, Extend, WFNodes, FoldedNodes;
    if v.root.None? {
      var v' := Materialise(v);
      if v.size == 0 {
        MaterialEmpty(v);
      } else {
        MaterialList(v, 0, map[]);
        assert WFView(v');
        forall j, a | 0 <= j < v.size
          ensures Byte(v', j, a) == Byte(v, j, a)
          ensures v'.flushed[j] ==> ListByte(v', j, a) == Byte(v', j, a)
        {
          MaterialList(v, j, a);
          assert v.flushed[j] ==> ListByte(v, j, a) == Byte(v, j, a);
        }
      }
    }
  }

  // ----- one byte -----

  /** The view after a byte read at a constant offset. */
  function AfterGet(v: View, i: nat): View
    requires WFView(v) && i < v.size
  {
    if v.concrete[i] || v.known[i].Some? then v else Materialise(v)
  }

  function GetByte(v: View, i: nat): (e: Expr)
    requires Inv(v) && i < v.size
    ensures WF(e) && Width(e) == INT8
  {
    if v.concrete[i] || v.known[i].Some? then Cached(v, i)
    else
      MaterialiseExact(v);
      var m := Materialise(v);
      ReadCreate(UpdateList(Root(m), m.head), Constant(i, INT32))
  }

  /** A byte read at a constant offset evaluates to the logical byte, and reading changes none. */
  lemma GetByteExact(v: View, i: nat)
    requires Inv(v) && i < v.size
    ensures Inv(AfterGet(v, i)) && SameBytes(v, AfterGet(v, i))
    ensures WFByteExpr(GetByte(v, i))
    ensures forall a :: Eval(GetByte(v, i), a) == Byte(v, i, a)
  {
    hide Eval, ReadCreate, WF, Width, Folded, Materialise, Cached;
    var e := GetByte(v, i);
    if v.concrete[i] || v.known[i].Some? {
      forall a ensures Eval(e, a) == Byte(v, i, a) {
        CachedValue(v, i, a);
      }
    } else {
      MaterialiseExact(v);
      var m := Materialise(v);
      var ul, index := UpdateList(Root(m), m.head), Constant(i, INT32);
      OffsetTyped(i);
      ReadShape(ul, index);
      forall a ensures Eval(e, a) == Byte(v, i, a) {
        ReadSound(ul, index, a);
        ConstValue(index, a);
        MaterialFlushed(v, i, a);
      }
    }
  }

  lemma OffsetTyped(i: nat)
    requires i < Pow2(INT32)
    ensures WF(Constant(i, INT32)) && Width(Constant(i, INT32)) == INT32 && Folded(Constant(i, INT32))
  {
  }

  /** A byte that is flushed and not cached is what the list says, before and after. */
  lemma MaterialFlushed(v: View, i: nat, a: Assignment)
    requires Inv(v) && i < v.size && !v.concrete[i] && v.known[i].None?
    ensures WFView(Materialise(v)) && ListByte(Materialise(v), i, a) == Byte(v, i, a)
  {
    hide Eval, WF, Width, Folded, MaterialArray, Extend, WFNodes, FoldedNodes, IndicesBelow;
    MaterialiseExact(v);
    if v.root.None? {
      MaterialList(v, i, a);
    }
  }

  /** A symbolic offset, already of the width of an index. */
  predicate WFOffset(o: Expr) { WF(o) && Width(o) == INT32 && Folded(o) && !o.Constant? }

  function AfterGetAt(v: View): View
    requires Inv(v)
  {
    FlushForReadExact(v, v.size);
    Materialise(FlushForRead(v, v.size))
  }

  lemma AfterGetAtExact(v: View)
    requires Inv(v)
    ensures Inv(AfterGetAt(v)) && SameBytes(v, AfterGetAt(v)) && AfterGetAt(v).root.Some?
    ensures forall i, a :: 0 <= i < v.size ==> ListByte(AfterGetAt(v), i, a) == Byte(v, i, a)
  {
    hide Byte, ListByte, FlushForRead, Materialise, WFNodes, FoldedNodes, IndicesBelow, WFByteExpr;
    FlushForReadExact(v, v.size);
    var f := FlushForRead(v, v.size);
    MaterialiseExact(f);
    MaterialiseFlags(f);
    var m := Materialise(f);
    forall i, a | 0 <= i < v.size
      ensures ListByte(m, i, a) == Byte(v, i, a)
    {
      assert m.flushed[i];
    }
  }

  lemma MaterialiseFlags(v: View)
    requires WFView(v)
    ensures Materialise(v).flushed == v.flushed && Materialise(v).size == v.size
  {
  }

  function GetByteAt(v: View, o: Expr): (e: Expr)
    requires Inv(v) && WFOffset(o)
    ensures WF(e) && Width(e) == INT8
  {
    AfterGetAtExact(v);
    var m := AfterGetAt(v);
    ReadCreate(UpdateList(Root(m), m.head), ZExtCreate(o, INT32))
  }

  /** A read at a symbolic offset: wherever the offset lands inside the object, the expression has
      the value of that byte. */
  lemma GetByteAtExact(v: View, o: Expr)
    requires Inv(v) && WFOffset(o)
    ensures WFByteExpr(GetByteAt(v, o))
    ensures forall a :: Eval(o, a) < v.size ==> Eval(GetByteAt(v, o), a) == Byte(v, Eval(o, a), a)
  {
    hide Eval, ReadCreate, WF, Width, Folded, AfterGetAt;
    AfterGetAtExact(v);
    var m := AfterGetAt(v);
    var ul := UpdateList(Root(m), m.head);
    ReadShape(ul, o);
    forall a | Eval(o, a) < v.size
      ensures Eval(GetByteAt(v, o), a) == Byte(v, Eval(o, a), a)
    {
      ReadSound(ul, o, a);
      assert ListByte(m, Eval(o, a), a) == Byte(v, Eval(o, a), a);
    }
  }

  /** A write at a symbolic offset: everything is flushed and dropped from the cache, then the write
      is put on the list. */
  function PutByteAt(v: View, o: Expr, e: Expr): View
    requires Inv(v) && WFOffset(o) && WFByteExpr(e)
  {
    var f := FlushForWrite(v, v.size);
    f.(head := Node(ZExtCreate(o, INT32), e, f.head))
  }

  /** It changes exactly the byte at the offset's value. */
  lemma PutByteAtExact(v: View, o: Expr, e: Expr)
    requires Inv(v) && WFOffset(o) && WFByteExpr(e)
    ensures Inv(PutByteAt(v, o, e)) && PutByteAt(v, o, e).size == v.size
    ensures forall i, a :: 0 <= i < v.size ==>
              Byte(PutByteAt(v, o, e), i, a) == if Eval(o, a) == i then Eval(e, a) else Byte(v, i, a)
  {
    hide Eval, WF, Width, Folded, FlushForWrite;
    FlushForWriteExact(v, v.size);
    var f, v' := FlushForWrite(v, v.size), PutByteAt(v, o, e);
    assert WFView(v');
    forall i, a | 0 <= i < v.size
      ensures Byte(v', i, a) == if Eval(o, a) == i then Eval(e, a) else Byte(v, i, a)
      ensures ListByte(v', i, a) == Byte(v', i, a)
    {
      assert f.flushed[i] && !f.concrete[i] && f.known[i].None?;
      assert ListByte(f, i, a) == Byte(f, i, a) == Byte(v, i, a);
    }
  }
}
