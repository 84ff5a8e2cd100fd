/** The contents of one memory object as a value: what each byte's cache and flush bits say, and the
    update list behind them. The operations here are what the methods of the object class compute;
    the lemmas say what they do to the object's logical bytes. */
module ObjectView {
  import opened Collections
  import opened Bits
  import opened Exprs
  import opened Create
  import opened CreateSound
  import opened CreateShape
  import opened CreateTheorems
  import opened ArrayReads
  import opened Constraints

  /** `root` is absent while no array has been created for the object. */
  datatype View = View(
    size: nat,
    store: seq<nat>,
    concrete: seq<bool>,
    flushed: seq<bool>,
    known: seq<Option<Expr>>,
    root: Option<Array>,
    head: UpdateNode)

  const BYTE: nat := 256

  function Zeros(n: nat): seq<nat> { seq(n, i => 0) }

  /** The array an object without a root reads from. */
  function BaseArray(size: nat, root: Option<Array>): Array {
    match root
    case Some(r) => r
    case None => Array(0, size, INT32, INT8, Zeros(size))
  }

  function Root(v: View): Array { BaseArray(v.size, v.root) }

  predicate WFByteArray(r: Array) { WFArray(r) && r.domain == INT32 && r.range == INT8 }

  predicate WFByteExpr(e: Expr) { WF(e) && Width(e) == INT8 && Folded(e) }

  /** Writes at constant indices are inside the object. */
  predicate IndicesBelow(n: UpdateNode, size: nat) {
    match n
    case Null => true
    case Node(i, _, next) => (i.Constant? ==> i.value < size) && IndicesBelow(next, size)
  }

  predicate WFView(v: View) {
    && |v.store| == |v.concrete| == |v.flushed| == |v.known| == v.size < Pow2(INT32)
    && (forall i :: 0 <= i < v.size ==> v.store[i] < BYTE)
    && (forall i :: 0 <= i < v.size && v.known[i].Some? ==> WFByteExpr(v.known[i].value))
    && WFByteArray(Root(v))
    && WFNodes(Root(v), v.head) && FoldedNodes(v.head)
    && (v.root.None? ==> IndicesBelow(v.head, v.size))
  }

  /** What the update list says of a byte. */
  function ListByte(v: View, i: nat, a: Assignment): nat
    requires WFView(v)
  {
    Lookup(Root(v), v.head, i, a)
  }

  /** The logical contents of a byte. */
  function Byte(v: View, i: nat, a: Assignment): nat
    requires WFView(v) && i < v.size
  {
    if v.concrete[i] then v.store[i]
    else if v.known[i].Some? then Eval(v.known[i].value, a)
    else ListByte(v, i, a)
  }

  /** The three cache invariants, and the agreement of a byte that is cached and flushed. */
  ghost predicate Coherent(v: View)
    requires WFView(v)
  {
    && (forall i :: 0 <= i < v.size ==> !(v.concrete[i] && v.known[i].Some?))
    && (forall i :: 0 <= i < v.size && !v.flushed[i] ==> v.concrete[i] || v.known[i].Some?)
    && (forall i, a :: 0 <= i < v.size && v.flushed[i] ==> ListByte(v, i, a) == Byte(v, i, a))
  }

  ghost predicate Inv(v: View) { WFView(v) && Coherent(v) }

  /** Two views with the same logical bytes. */
  ghost predicate SameBytes(v: View, v': View)
    requires WFView(v) && WFView(v')
  {
    v.size == v'.size && forall i, a :: 0 <= i < v.size ==> Byte(v, i, a) == Byte(v', i, a)
  }

  // ----- initial contents -----

  function FilledView(size: nat, b: nat, root: Option<Array>, head: UpdateNode): View {
    View(size, seq(size, i => b), seq(size, i => true), seq(size, i => false), seq(size, i => None), root, head)
  }

  function SymbolicView(size: nat, arr: Array, store: seq<nat>): View {
    View(size, store, seq(size, i => false), seq(size, i => true), seq(size, i => None), Some(arr), Null)
  }

  lemma BaseArrayWF(size: nat)
    ensures WFByteArray(BaseArray(size, None))
  {
    Pow2Mono(0, INT8);
  }

  lemma FilledInv(size: nat, b: nat, root: Option<Array>, head: UpdateNode)
    requires size < Pow2(INT32) && b < BYTE
    requires WFByteArray(BaseArray(size, root)) && WFNodes(BaseArray(size, root), head) && FoldedNodes(head)
    requires root.None? ==> IndicesBelow(head, size)
    ensures Inv(FilledView(size, b, root, head))
    ensures forall i, a :: 0 <= i < size ==> Byte(FilledView(size, b, root, head), i, a) == b
  {
    hide WFByteArray, WFNodes, FoldedNodes, IndicesBelow, Pow2;
  }

  /** What every new object needs. */
  lemma ZeroInv(size: nat, root: Option<Array>)
    requires size < Pow2(INT32) && WFByteArray(BaseArray(size, root))
    ensures Inv(FilledView(size, 0, root, Null))
    ensures forall i, a :: 0 <= i < size ==> Byte(FilledView(size, 0, root, Null), i, a) == 0
  {
    hide Inv, FilledView, WFByteArray, Pow2;
    FilledInv(size, 0, root, Null);
  }

  lemma SymbolicInv(size: nat, arr: Array, store: seq<nat>)
    requires size < Pow2(INT32) && WFByteArray(arr) && |store| == size
    requires forall i :: 0 <= i < size ==> store[i] < BYTE
    ensures Inv(SymbolicView(size, arr, store))
    ensures forall i, a :: 0 <= i < size ==> Byte(SymbolicView(size, arr, store), i, a) == Initial(arr, i, a)
  {
    hide WFByteArray, Initial, Pow2;
  }

  // ----- writing one byte at a constant offset -----

  function PutConcrete(v: View, i: nat, b: nat): View
    requires WFView(v) && i < v.size
  {
    v.(store := v.store[i := b], known := v.known[i := None], concrete := v.concrete[i := true],
       flushed := v.flushed[i := false])
  }

  function PutByte(v: View, i: nat, e: Expr): View
    requires WFView(v) && i < v.size
  {
    if e.Constant? then PutConcrete(v, i, e.value)
    else v.(known := v.known[i := Some(e)], concrete := v.concrete[i := false], flushed := v.flushed[i := false])
  }

  lemma ByteBound(e: Expr, a: Assignment)
    requires WF(e) && Width(e) == INT8
    ensures Eval(e, a) < BYTE
    ensures e.Constant? ==> e.value < BYTE
  {
    EvalBound(e, a);
    Pow2Eight();
  }

  lemma Pow2Eight()
    ensures Pow2(8) == BYTE
  {
    assert Pow2(4) == 16 by { assert Pow2(2) == 4; }
    Pow2Add(4, 4);
  }

  /** A byte written at a constant offset takes the written value, and no other byte changes. */
  lemma PutByteExact(v: View, i: nat, e: Expr)
    requires Inv(v) && i < v.size && WFByteExpr(e)
    ensures Inv(PutByte(v, i, e)) && PutByte(v, i, e).size == v.size
    ensures forall j, a :: 0 <= j < v.size ==>
              Byte(PutByte(v, i, e), j, a) == if j == i then Eval(e, a) else Byte(v, j, a)
  {
    hide Eval, WF, Width, Folded, WFNodes, FoldedNodes, IndicesBelow;
    var v' := PutByte(v, i, e);
    ByteBound(e, map[]);
    assert WFView(v');
    forall j, a | 0 <= j < v.size
      ensures Byte(v', j, a) == if j == i then Eval(e, a) else Byte(v, j, a)
      ensures v'.flushed[j] ==> ListByte(v', j, a) == Byte(v', j, a)
    {
      assert ListByte(v', j, a) == ListByte(v, j, a);
      if j == i && e.Constant? {
        ConstValue(e, a);
      }
    }
  }

  // ----- flushing -----

  /** The expression in the cache of a byte. */
  function Cached(v: View, i: nat): (e: Expr)
    requires WFView(v) && i < v.size && (v.concrete[i] || v.known[i].Some?)
    ensures WFByteExpr(e)
  {
    if v.concrete[i] then
      Pow2Eight();
      Constant(v.store[i], INT8)
    else v.known[i].value
  }

  /** The byte's cached value becomes the newest write of the list; the cache stays. */
  function FlushByteForRead(v: View, i: nat): View
    requires WFView(v) && i < v.size && (v.flushed[i] || v.concrete[i] || v.known[i].Some?)
  {
    if v.flushed[i] then v
    else v.(head := Node(Constant(i, INT32), Cached(v, i), v.head), flushed := v.flushed[i := true])
  }

  /** As for a read, and the cache is dropped, also of a byte that was flushed before. */
  function FlushByteForWrite(v: View, i: nat): View
    requires WFView(v) && i < v.size && (v.flushed[i] || v.concrete[i] || v.known[i].Some?)
  {
    var v' := FlushByteForRead(v, i);
    v'.(concrete := v'.concrete[i := false], known := v'.known[i := None])
  }

  lemma CachedValue(v: View, i: nat, a: Assignment)
    requires WFView(v) && i < v.size && (v.concrete[i] || v.known[i].Some?)
    ensures Eval(Cached(v, i), a) == Byte(v, i, a)
  {
    hide WF, Width, Folded, WFNodes, FoldedNodes, IndicesBelow;
  }

  lemma LookupPushed(root: Array, n: UpdateNode, i: nat, e: Expr, j: nat, a: Assignment)
    requires WFNodes(root, n) && i < Pow2(INT32) && WF(e) && root.domain == INT32 && Width(e) == root.range
    ensures WFNodes(root, Node(Constant(i, INT32), e, n))
    ensures Lookup(root, Node(Constant(i, INT32), e, n), j, a) == if j == i then Eval(e, a) else Lookup(root, n, j, a)
  {
  }

  /** Flushing for a read, or for a write, changes no logical byte and keeps the invariants. */
  lemma FlushByteExact(v: View, i: nat)
    requires Inv(v) && i < v.size
    ensures Inv(FlushByteForRead(v, i)) && SameBytes(v, FlushByteForRead(v, i))
    ensures Inv(FlushByteForWrite(v, i)) && SameBytes(v, FlushByteForWrite(v, i))
  {
    FlushByteReadExact(v, i);
    DropCacheExact(FlushByteForRead(v, i), i);
  }

  lemma FlushByteReadExact(v: View, i: nat)
    requires Inv(v) && i < v.size
    ensures Inv(FlushByteForRead(v, i)) && SameBytes(v, FlushByteForRead(v, i))
  {
    hide Eval, WF, Width, Folded, Cached;
    if !v.flushed[i] {
      var v' := FlushByteForRead(v, i);
      var e := Cached(v, i);
      LookupPushed(Root(v), v.head, i, e, 0, map[]);
      FoldedConst(Constant(i, INT32));
      assert WFView(v');
      forall j, a | 0 <= j < v.size
        ensures Byte(v', j, a) == Byte(v, j, a)
        ensures v'.flushed[j] ==> ListByte(v', j, a) == Byte(v', j, a)
      {
        LookupPushed(Root(v), v.head, i, e, j, a);
        CachedValue(v, i, a);
      }
    }
  }

  lemma DropCacheExact(v: View, i: nat)
    requires Inv(v) && i < v.size && v.flushed[i]
    ensures var v' := v.(concrete := v.concrete[i := false], known := v.known[i := None]);
            Inv(v') && SameBytes(v, v')
  {
    hide Eval, WF, Width, Folded, WFNodes, FoldedNodes, IndicesBelow;
    var v' := v.(concrete := v.concrete[i := false], known := v.known[i := None]);
    assert WFView(v');
    forall j, a | 0 <= j < v.size
      ensures Byte(v', j, a) == Byte(v, j, a)
      ensures v'.flushed[j] ==> ListByte(v', j, a) == Byte(v', j, a)
    {
      assert ListByte(v', j, a) == ListByte(v, j, a);
      assert v.flushed[j] ==> ListByte(v, j, a) == Byte(v, j, a);
    }
  }

  /** Every byte is flushed or has a cached value. */
  predicate Flushable(v: View)
    requires WFView(v)
  {
    forall i :: 0 <= i < v.size ==> v.flushed[i] || v.concrete[i] || v.known[i].Some?
  }

  /** The first `n` bytes flushed in turn. */
  function FlushForRead(v: View, n: nat): (v': View)
    requires WFView(v) && n <= v.size && Flushable(v)
    ensures WFView(v') && v'.size == v.size
    ensures v'.concrete == v.concrete && v'.known == v.known
    ensures forall i :: 0 <= i < v.size ==> (v'.flushed[i] <==> i < n || v.flushed[i])
  {
    if n == 0 then v
    else
      var u := FlushForRead(v, n - 1);
      FlushByteWF(u, n - 1);
      hide Cached, WFNodes, FoldedNodes, IndicesBelow;
      FlushByteForRead(u, n - 1)
  }

  function FlushForWrite(v: View, n: nat): (v': View)
    requires WFView(v) && n <= v.size && Flushable(v)
    ensures WrittenOut(v, v', n)
  {
    hide WFView, WrittenOut, Flushable, FlushByteForWrite;
    if n == 0 then
      NothingWritten(v);
      v
    else
      var u := FlushForWrite(v, n - 1);
      WrittenOutNext(v, u, n - 1);
      FlushByteForWrite(u, n - 1)
  }

  /** The first `n` bytes are in the list only, and the others are as they were. */
  predicate WrittenOut(v: View, v': View, n: nat) {
    && WFView(v) && WFView(v') && n <= v.size == v'.size
    && (forall i :: 0 <= i < n ==> v'.flushed[i] && !v'.concrete[i] && v'.known[i].None?)
    && forall i :: n <= i < v.size ==>
         v'.flushed[i] == v.flushed[i] && v'.concrete[i] == v.concrete[i] && v'.known[i] == v.known[i]
  }

  lemma NothingWritten(v: View)
    requires WFView(v)
    ensures WrittenOut(v, v, 0)
  {
  }

  lemma WrittenOutNext(v: View, u: View, n: nat)
    requires WrittenOut(v, u, n) && n < v.size && Flushable(v)
    ensures FlushByteForWrite.requires(u, n)
    ensures WrittenOut(v, FlushByteForWrite(u, n), n + 1)
  {
    FlushByteWF(u, n);
    hide Cached, WFNodes, FoldedNodes, IndicesBelow;
  }

  lemma FlushByteWF(v: View, i: nat)
    requires WFView(v) && i < v.size && (v.flushed[i] || v.concrete[i] || v.known[i].Some?)
    ensures WFView(FlushByteForRead(v, i)) && WFView(FlushByteForWrite(v, i))
  {
    hide Eval, WF, Width, Folded, Cached;
    if !v.flushed[i] {
      LookupPushed(Root(v), v.head, i, Cached(v, i), 0, map[]);
      FoldedConst(Constant(i, INT32));
    }
  }

  lemma {:induction false} FlushForReadExact(v: View, n: nat)
    requires Inv(v) && n <= v.size && Flushable(v)
    ensures Inv(FlushForRead(v, n)) && SameBytes(v, FlushForRead(v, n))
    decreases n
  {
    hide Eval, WFView, Coherent, Flushable, FlushByteForRead, Byte, ListByte;
    if n > 0 {
      FlushForReadExact(v, n - 1);
      FlushByteReadExact(FlushForRead(v, n - 1), n - 1);
    }
  }

  lemma {:induction false} FlushForWriteExact(v: View, n: nat)
    requires Inv(v) && n <= v.size && Flushable(v)
    ensures Inv(FlushForWrite(v, n)) && SameBytes(v, FlushForWrite(v, n))
    decreases n
  {
    hide Eval, WFView, Coherent, Flushable, FlushByteForWrite, Byte, ListByte;
    if n > 0 {
      FlushForWriteExact(v, n - 1);
      FlushByteExact(FlushForWrite(v, n - 1), n - 1);
    }
  }
}
