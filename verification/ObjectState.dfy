/** The state of a memory object: a concrete store, three lazily allocated bit and cell arrays in
    front of a lazily built update list, all changed in place, also by reads. */
module ObjectStates {
  import opened Collections
  import opened Bits
  import opened Exprs
  import opened Create
  import opened CreateSound
  import opened CreateShape
  import opened CreateTheorems
  import opened ArrayReads
  import opened Constraints
  import opened ObjectView
  import opened ObjectOps
  import opened ObjectWords

  function Negate(s: seq<bool>): (t: seq<bool>)
    ensures |t| == |s|
  {
    seq(|s|, i requires 0 <= i < |s| => !s[i])
  }

  lemma NegateUpdate(s: seq<bool>, i: nat, b: bool)
    requires i < |s|
    ensures Negate(s[i := b]) == Negate(s)[i := !b]
  {
  }

  method CopyArray<T>(a: array<T>) returns (b: array<T>)
    ensures fresh(b) && b[..] == a[..]
  {
    b := new T[a.Length](i requires 0 <= i < a.Length reads a => a[i]);
  }

  method CopyNullable<T>(a: array?<T>) returns (b: array?<T>)
    ensures b == null <==> a == null
    ensures a != null ==> fresh(b) && b[..] == a[..]
  {
    if a == null {
      b := null;
    } else {
      b := CopyArray(a);
    }
  }

  class ObjectState {
    const size: nat
    var copyOnWriteOwner: nat
    var readOnly: bool
    var concreteStore: array<nat>
    var concreteMask: array?<bool>
    /** A set bit marks a byte that is not flushed. */
    var flushMask: array?<bool>
    var knownSymbolics: array?<Option<Expr>>
    var root: Option<Array>
    var head: UpdateNode
    ghost var Repr: set<object>

    ghost predicate Shape()
      reads this, Repr
    {
      && this in Repr && concreteStore in Repr && concreteStore.Length == size
      && (concreteMask != null ==> concreteMask in Repr && concreteMask.Length == size)
      && (flushMask != null ==> flushMask in Repr && flushMask.Length == size)
      && (knownSymbolics != null ==> knownSymbolics in Repr && knownSymbolics.Length == size)
      && (concreteMask != null && flushMask != null ==> concreteMask != flushMask)
    }

    ghost function ConcreteBits(): seq<bool>
      requires Shape()
      reads this, Repr
    {
      if concreteMask == null then seq(size, i => true) else concreteMask[..]
    }

    ghost function FlushedBits(): seq<bool>
      requires Shape()
      reads this, Repr
    {
      if flushMask == null then seq(size, i => false) else Negate(flushMask[..])
    }

    ghost function KnownCells(): seq<Option<Expr>>
      requires Shape()
      reads this, Repr
    {
      if knownSymbolics == null then seq(size, i => None) else knownSymbolics[..]
    }

    /** The value the fields hold. */
    ghost function V(): View
      requires Shape()
      reads this, Repr
    {
      View(size, concreteStore[..], ConcreteBits(), FlushedBits(), KnownCells(), root, head)
    }

    ghost predicate Valid()
      reads this, Repr
      ensures Valid() ==> Shape() && this in Repr
    {
      Shape() && Inv(V())
    }

    /** Ownership and the read-only mark are no part of the contents. */
    method SetOwner(key: nat)
      requires Shape()
      modifies `copyOnWriteOwner
      ensures copyOnWriteOwner == key && Shape() && V() == old(V()) && (old(Valid()) ==> Valid())
    {
      copyOnWriteOwner := key;
    }

    /** A fresh object: concrete zeros, over no array or over the one given. */
    constructor (size: nat, root: Option<Array>)
      requires size < Pow2(INT32) && WFByteArray(BaseArray(size, root))
      ensures Valid() && fresh(Repr) && copyOnWriteOwner == 0 && !readOnly
      ensures V() == FilledView(size, 0, root, Null)
    {
      hide Inv, WFByteArray, Pow2;
      this.size := size;
      copyOnWriteOwner, readOnly := 0, false;
      concreteStore := new nat[size](i => 0);
      concreteMask, flushMask, knownSymbolics := null, null, null;
      this.root, head := root, Null;
      new;
      Repr := {this, concreteStore};
      assert V() == FilledView(size, 0, root, Null);
      ZeroInv(size, root);
    }

    /** A fresh object with the contents of a symbolic array. */
    constructor Symbolic(size: nat, arr: Array)
      requires size < Pow2(INT32) && WFByteArray(arr)
      ensures Valid() && fresh(Repr) && copyOnWriteOwner == 0 && !readOnly
      ensures V() == SymbolicView(size, arr, Zeros(size))
    {
      this.size := size;
      hide WFView, Coherent, WFByteArray, Pow2;
      copyOnWriteOwner, readOnly := 0, false;
      concreteStore := new nat[size](i => 0);
      concreteMask, flushMask, knownSymbolics := null, null, null;
      root, head := Some(arr), Null;
      new;
      Repr := {this, concreteStore};
      assert concreteStore[..] == Zeros(size);
      MakeSymbolic();
      SymbolicInv(size, arr, Zeros(size));
    }

    /** A copy has its own store and arrays, no owner, and may be written. */
    constructor Copy(os: ObjectState)
      requires os.Valid() && !os.readOnly
      ensures Valid() && fresh(Repr) && copyOnWriteOwner == 0 && !readOnly
      ensures V() == os.V()
    {
      hide WFView, Coherent;
      size := os.size;
      copyOnWriteOwner, readOnly := 0, false;
      var store := CopyArray(os.concreteStore);
      var mask := CopyNullable(os.concreteMask);
      var flush := CopyNullable(os.flushMask);
      var cells := CopyNullable(os.knownSymbolics);
      concreteStore, concreteMask, flushMask, knownSymbolics := store, mask, flush, cells;
      root, head := os.root, os.head;
      new;
      Repr := {this, concreteStore} + (if concreteMask != null then {concreteMask} else {})
              + (if flushMask != null then {flushMask} else {})
              + (if knownSymbolics != null then {knownSymbolics} else {});
    }

    // ----- the bits of one byte -----

    predicate IsByteConcrete(i: nat)
      requires Shape() && i < size
      reads this, Repr
      ensures IsByteConcrete(i) <==> V().concrete[i]
    {
      concreteMask == null || concreteMask[i]
    }

    predicate IsByteFlushed(i: nat)
      requires Shape() && i < size
      reads this, Repr
      ensures IsByteFlushed(i) <==> V().flushed[i]
    {
      flushMask != null && !flushMask[i]
    }

    predicate IsByteKnownSymbolic(i: nat)
      requires Shape() && i < size
      reads this, Repr
      ensures IsByteKnownSymbolic(i) <==> V().known[i].Some?
    {
      knownSymbolics != null && knownSymbolics[i].Some?
    }

    method MarkByteConcrete(i: nat)
      requires Shape() && i < size
      modifies Repr
      ensures Shape() && Repr == old(Repr)
      ensures V() == old(V()).(concrete := old(V()).concrete[i := true])
      ensures copyOnWriteOwner == old(copyOnWriteOwner) && readOnly == old(readOnly)
    {
      if concreteMask != null {
        concreteMask[i] := true;
      }
      assert ConcreteBits() == old(ConcreteBits())[i := true];
    }

    method MarkByteSymbolic(i: nat)
      requires Shape() && i < size
      modifies Repr
      ensures Shape() && fresh(Repr - old(Repr)) && old(Repr) <= Repr
      ensures V() == old(V()).(concrete := old(V()).concrete[i := false])
      ensures copyOnWriteOwner == old(copyOnWriteOwner) && readOnly == old(readOnly)
      ensures flushMask == old(flushMask)
    {
      if concreteMask == null {
        concreteMask := new bool[size](j => true);
        Repr := Repr + {concreteMask};
        assert concreteMask[..] == seq(size, j => true);
      }
      concreteMask[i] := false;
      assert ConcreteBits() == old(ConcreteBits())[i := false];
    }

    method MarkByteUnflushed(i: nat)
      requires Shape() && i < size
      modifies Repr
      ensures Shape() && Repr == old(Repr)
      ensures V() == old(V()).(flushed := old(V()).flushed[i := false])
      ensures copyOnWriteOwner == old(copyOnWriteOwner) && readOnly == old(readOnly)
    {
      if flushMask != null {
        NegateUpdate(flushMask[..], i, true);
        flushMask[i] := true;
      }
      assert FlushedBits() == old(FlushedBits())[i := false];
    }

    /** The first call allocates a mask in which every byte, not only this one, is flushed. */
    method MarkByteFlushed(i: nat)
      requires Shape() && i < size
      modifies Repr
      ensures Shape() && fresh(Repr - old(Repr)) && old(Repr) <= Repr && flushMask != null
      ensures V() == old(V()).(flushed := if old(flushMask) == null then seq(size, j => true)
                                          else old(V()).flushed[i := true])
      ensures copyOnWriteOwner == old(copyOnWriteOwner) && readOnly == old(readOnly)
    {
      if flushMask == null {
        flushMask := new bool[size](j => false);
        Repr := Repr + {flushMask};
        assert flushMask[..] == seq(size, j => false);
        assert FlushedBits() == seq(size, j => true);
      } else {
        NegateUpdate(flushMask[..], i, false);
        flushMask[i] := false;
        assert FlushedBits() == old(FlushedBits())[i := true];
      }
    }

    method SetKnownSymbolic(i: nat, value: Option<Expr>)
      requires Shape() && i < size
      modifies Repr
      ensures Shape() && fresh(Repr - old(Repr)) && old(Repr) <= Repr
      ensures V() == old(V()).(known := old(V()).known[i := value])
      ensures copyOnWriteOwner == old(copyOnWriteOwner) && readOnly == old(readOnly)
      ensures flushMask == old(flushMask)
    {
      if knownSymbolics != null {
        knownSymbolics[i] := value;
      } else if value.Some? {
        knownSymbolics := new Option<Expr>[size](j => None);
        Repr := Repr + {knownSymbolics};
        assert knownSymbolics[..] == seq(size, j => None);
        knownSymbolics[i] := value;
      }
      assert KnownCells() == old(KnownCells())[i := value];
    }

    method MakeSymbolic()
      requires Shape() && head == Null && flushMask == null
      modifies Repr
      ensures Shape() && fresh(Repr - old(Repr)) && old(Repr) <= Repr
      ensures V() == old(V()).(concrete := seq(size, j => false), flushed := seq(size, j => true),
                               known := seq(size, j => None))
      ensures copyOnWriteOwner == old(copyOnWriteOwner) && readOnly == old(readOnly)
    {
      for i := 0 to size
        invariant Shape() && fresh(Repr - old(Repr)) && old(Repr) <= Repr
        invariant copyOnWriteOwner == old(copyOnWriteOwner) && readOnly == old(readOnly)
        invariant V().store == old(V()).store && root == old(root) && head == old(head)
        invariant i == 0 ==> V() == old(V()) && flushMask == null
        invariant i > 0 ==> flushMask != null && V().flushed == seq(size, j => true)
        invariant forall j :: 0 <= j < i ==> !V().concrete[j] && V().known[j].None?
      {
        MarkByteSymbolic(i);
        SetKnownSymbolic(i, None);
        MarkByteFlushed(i);
        assert V().flushed == seq(size, j => true);
      }
      assert V().concrete == seq(size, j => false) && V().known == seq(size, j => None);
      assert V().flushed == seq(size, j => true);
    }

    method MakeConcrete()
      requires Shape()
      modifies this
      ensures Shape() && Repr == old(Repr)
      ensures V() == old(V()).(concrete := seq(size, j => true), flushed := seq(size, j => false),
                               known := seq(size, j => None))
      ensures copyOnWriteOwner == old(copyOnWriteOwner) && readOnly == old(readOnly)
    {
      concreteMask, flushMask, knownSymbolics := null, null, null;
    }

    /** All bytes concrete and equal: zero, or the fixed byte 0xAB the source calls random. */
    method Initialize(random: bool)
      requires Valid()
      modifies Repr
      ensures Valid() && Repr == old(Repr)
      ensures V() == FilledView(size, if random then 0xAB else 0, old(root), old(head))
      ensures copyOnWriteOwner == old(copyOnWriteOwner) && readOnly == old(readOnly)
    {
      MakeConcrete();
      var b := if random then 0xAB else 0;
      for i := 0 to size
        invariant Shape() && Repr == old(Repr)
        invariant V() == old(V()).(store := V().store, concrete := seq(size, j => true),
                                   flushed := seq(size, j => false), known := seq(size, j => None))
        invariant forall j :: 0 <= j < i ==> concreteStore[j] == b
        invariant copyOnWriteOwner == old(copyOnWriteOwner) && readOnly == old(readOnly)
      {
        concreteStore[i] := b;
      }
      assert concreteStore[..] == seq(size, j => b);
      FilledInv(size, b, root, head);
    }

    // ----- flushing -----

    method PrepareFlushMask()
      requires Shape()
      modifies this
      ensures Shape() && fresh(Repr - old(Repr)) && old(Repr) <= Repr && flushMask != null
      ensures V() == old(V())
      ensures copyOnWriteOwner == old(copyOnWriteOwner) && readOnly == old(readOnly)
    {
      if flushMask == null {
        flushMask := new bool[size](j => true);
        Repr := Repr + {flushMask};
        assert flushMask[..] == seq(size, j => true);
        assert FlushedBits() == old(FlushedBits());
      }
    }

    /** The cached value of a byte goes to the head of the list and its flush bit is cleared. */
    method FlushByte(i: nat)
      requires Shape() && WFView(V()) && i < size && flushMask != null
      requires IsByteConcrete(i) || IsByteKnownSymbolic(i)
      requires !IsByteFlushed(i)
      modifies Repr
      ensures Shape() && Repr == old(Repr) && flushMask == old(flushMask)
      ensures V() == FlushByteForRead(old(V()), i)
      ensures copyOnWriteOwner == old(copyOnWriteOwner) && readOnly == old(readOnly)
    {
      hide WFView;
      if IsByteConcrete(i) {
        head := Node(Constant(i, INT32), Constant(concreteStore[i], INT8), head);
      } else {
        head := Node(Constant(i, INT32), knownSymbolics[i].value, head);
      }
      NegateUpdate(flushMask[..], i, false);
      flushMask[i] := false;
      assert FlushedBits() == old(FlushedBits())[i := true];
    }

    method FlushRangeForRead()
      requires Valid()
      modifies Repr
      ensures Valid() && fresh(Repr - old(Repr)) && old(Repr) <= Repr
      ensures Flushable(old(V())) && V() == FlushForRead(old(V()), size) && SameBytes(old(V()), V())
      ensures copyOnWriteOwner == old(copyOnWriteOwner) && readOnly == old(readOnly)
    {
      hide WFView, FlushByteForRead, Byte, ListByte;
      PrepareFlushMask();
      ghost var v := V();
      for offset := 0 to size
        invariant Shape() && fresh(Repr - old(Repr)) && old(Repr) <= Repr && flushMask != null
        invariant V() == FlushForRead(v, offset)
        invariant copyOnWriteOwner == old(copyOnWriteOwner) && readOnly == old(readOnly)
      {
        FlushForReadExact(v, offset);
        if !IsByteFlushed(offset) {
          FlushByte(offset);
        } else {
          FlushedAlready(V(), offset);
        }
      }
      FlushForReadExact(v, size);
    }

    method FlushRangeForWrite()
      requires Valid()
      modifies Repr
      ensures Valid() && fresh(Repr - old(Repr)) && old(Repr) <= Repr
      ensures Flushable(old(V())) && V() == FlushForWrite(old(V()), size) && SameBytes(old(V()), V())
      ensures copyOnWriteOwner == old(copyOnWriteOwner) && readOnly == old(readOnly)
    {
      hide WFView, FlushByteForRead, Byte, ListByte;
      PrepareFlushMask();
      ghost var v := V();
      for offset := 0 to size
        invariant Shape() && fresh(Repr - old(Repr)) && old(Repr) <= Repr && flushMask != null
        invariant V() == FlushForWrite(v, offset)
        invariant copyOnWriteOwner == old(copyOnWriteOwner) && readOnly == old(readOnly)
      {
        FlushForWriteExact(v, offset);
        FlushForWriteStep(offset);
      }
      FlushForWriteExact(v, size);
    }

    /** The body of the loop for one byte: cached bytes are written out if need be, and dropped. */
    method FlushForWriteStep(offset: nat)
      requires Valid() && offset < size && flushMask != null
      modifies Repr
      ensures Shape() && fresh(Repr - old(Repr)) && old(Repr) <= Repr && flushMask != null
      ensures V() == FlushByteForWrite(old(V()), offset)
      ensures copyOnWriteOwner == old(copyOnWriteOwner) && readOnly == old(readOnly)
    {
      hide WFView, FlushByteForRead, Byte, ListByte;
      ghost var v := V();
      if !IsByteFlushed(offset) {
        FlushFields(v, offset);
        if IsByteConcrete(offset) {
          FlushByte(offset);
          MarkByteSymbolic(offset);
        } else {
          FlushByte(offset);
          SetKnownSymbolic(offset, None);
        }
      } else {
        FlushedAlready(v, offset);
        if IsByteConcrete(offset) {
          MarkByteSymbolic(offset);
        } else if IsByteKnownSymbolic(offset) {
          SetKnownSymbolic(offset, None);
        }
      }
      assert V().concrete == FlushByteForWrite(v, offset).concrete;
      assert V().known == FlushByteForWrite(v, offset).known;
    }

    // ----- the update list -----

    /** The list to read through; the constant array under it is created on first use. */
    method GetUpdates() returns (ul: UpdateList)
      requires Valid()
      modifies this
      ensures Valid() && Repr == old(Repr) && V() == Materialise(old(V())) && SameBytes(old(V()), V())
      ensures root.Some? && ul == UpdateList(root.value, head)
      ensures copyOnWriteOwner == old(copyOnWriteOwner) && readOnly == old(readOnly)
    {
      hide WFView, Byte, ListByte, Coherent;
      MaterialiseExact(V());
      if root.None? {
        CreateArray();
      }
      ul := UpdateList(root.value, head);
    }

    method CreateArray()
      requires Shape() && WFView(V()) && root.None?
      modifies this
      ensures Shape() && Repr == old(Repr) && V() == Materialise(old(V()))
      ensures copyOnWriteOwner == old(copyOnWriteOwner) && readOnly == old(readOnly)
    {
      hide WFView, Materialise, Contents;
      ghost var v := V();
      MaterialiseFields(v);
      var writes := CollectWrites();
      var contents, begin := FoldWrites(writes);
      var array_ := Array(0, size, INT32, INT8, contents);
      var newHead := ExtendFrom(writes, begin);
      root, head := Some(array_), newHead;
      assert V() == v.(root := Some(array_), head := newHead);
    }

    /** The remaining writes on top of the empty list. */
    static method ExtendFrom(writes: seq<(Expr, Expr)>, first: nat) returns (newHead: UpdateNode)
      requires first <= |writes|
      ensures newHead == Extend(Null, writes[first..])
    {
      newHead := Null;
      for begin := first to |writes|
        invariant newHead == Extend(Null, writes[first..begin])
      {
        assert writes[first..begin + 1] == writes[first..begin] + [writes[begin]];
        ExtendSnoc(Null, writes[first..begin], writes[begin]);
        newHead := Node(writes[begin].0, writes[begin].1, newHead);
      }
      assert writes[first..|writes|] == writes[first..];
    }

    method CollectWrites() returns (writes: seq<(Expr, Expr)>)
      ensures writes == OldestFirst(head)
    {
      writes := [];
      var un := head;
      while un != Null
        invariant OldestFirst(un) + writes == OldestFirst(head)
        decreases un
      {
        ghost var before := writes;
        writes := [(un.index, un.value)] + writes;
        assert OldestFirst(un.next) + writes == OldestFirst(un) + before;
        un := un.next;
      }
    }

    /** The oldest writes, as long as they are concrete, are applied to an array of zeros. */
    method FoldWrites(writes: seq<(Expr, Expr)>) returns (contents: seq<nat>, begin: nat)
      requires Inside(writes, size)
      ensures begin == LeadingConcrete(writes) && contents == Contents(size, writes, begin)
    {
      var c := new nat[size](i => 0);
      begin := 0;
      assert c[..] == Zeros(size);
      while begin != |writes|
        invariant begin <= |writes| && forall j :: 0 <= j < begin ==> Concrete(writes[j])
        invariant c[..] == Contents(size, writes, begin)
      {
        if !Concrete(writes[begin]) {
          break;
        }
        c[writes[begin].0.value] := writes[begin].1.value;
        begin := begin + 1;
      }
      LeadingUnique(writes, begin);
      contents := c[..];
    }

    // ----- one byte -----

    method Read8(offset: nat) returns (e: Expr)
      requires Valid() && offset < size
      modifies this
      ensures Valid() && Repr == old(Repr)
      ensures e == GetByte(old(V()), offset) && V() == AfterGet(old(V()), offset) && SameBytes(old(V()), V())
      ensures copyOnWriteOwner == old(copyOnWriteOwner) && readOnly == old(readOnly)
    {
      hide WFView, Coherent, Materialise, Byte, ListByte, ReadCreate;
      GetByteExact(V(), offset);
      if IsByteConcrete(offset) {
        return Constant(concreteStore[offset], INT8);
      }
      if IsByteKnownSymbolic(offset) {
        return knownSymbolics[offset].value;
      }
      var ul := GetUpdates();
      ListTyped(V());
      OffsetBelow(V(), offset);
      e := ReadCreate(ul, Constant(offset, INT32));
    }

    method Read8At(offset: Expr) returns (e: Expr)
      requires Valid() && WFOffset(offset)
      modifies Repr
      ensures Valid() && fresh(Repr - old(Repr)) && old(Repr) <= Repr
      ensures e == GetByteAt(old(V()), offset) && V() == AfterGetAt(old(V())) && SameBytes(old(V()), V())
      ensures copyOnWriteOwner == old(copyOnWriteOwner) && readOnly == old(readOnly)
    {
      hide WFView, Coherent, Materialise, Byte, ListByte, ReadCreate, FlushForRead, ZExtCreate, Flushable;
      AfterGetAtExact(V());
      FlushRangeForRead();
      var ul := GetUpdates();
      ListTyped(V());
      e := ReadCreate(ul, ZExtCreate(offset, INT32));
    }

    method Write8Concrete(offset: nat, value: nat)
      requires Valid() && offset < size && value < BYTE
      modifies Repr
      ensures Shape() && fresh(Repr - old(Repr)) && old(Repr) <= Repr
      ensures V() == PutConcrete(old(V()), offset, value)
      ensures copyOnWriteOwner == old(copyOnWriteOwner) && readOnly == old(readOnly)
    {
      hide WFView, Coherent;
      concreteStore[offset] := value;
      SetKnownSymbolic(offset, None);
      MarkByteConcrete(offset);
      MarkByteUnflushed(offset);
    }

    method Write8(offset: nat, value: Expr)
      requires Valid() && offset < size && WFByteExpr(value)
      modifies Repr
      ensures Valid() && fresh(Repr - old(Repr)) && old(Repr) <= Repr
      ensures V() == PutByte(old(V()), offset, value)
      ensures copyOnWriteOwner == old(copyOnWriteOwner) && readOnly == old(readOnly)
    {
      hide WFView, Coherent, Byte;
      PutByteExact(V(), offset, value);
      ByteBound(value, map[]);
      if value.Constant? {
        Write8Concrete(offset, value.value);
      } else {
        SetKnownSymbolic(offset, Some(value));
        MarkByteSymbolic(offset);
        MarkByteUnflushed(offset);
      }
    }

    method Write8At(offset: Expr, value: Expr)
      requires Valid() && WFOffset(offset) && WFByteExpr(value)
      modifies Repr
      ensures Valid() && fresh(Repr - old(Repr)) && old(Repr) <= Repr
      ensures V() == PutByteAt(old(V()), offset, value)
      ensures copyOnWriteOwner == old(copyOnWriteOwner) && readOnly == old(readOnly)
    {
      hide WFView, Coherent, Byte, ListByte, FlushForWrite, ZExtCreate, Flushable, WFByteExpr, SameBytes, WF, Folded;
      PutByteAtExact(V(), offset, value);
      FlushRangeForWrite();
      head := Node(ZExtCreate(offset, INT32), value, head);
    }

    // ----- words -----

    /** Reads `n` bytes at a constant offset; inside the object, as the callers check first. */
    method ReadConst(offset: nat, n: nat, littleEndian: bool) returns (e: Expr)
      requires Valid() && 0 < n && offset + n <= size
      modifies this
      ensures Valid() && Repr == old(Repr) && SameBytes(old(V()), V())
      ensures (e, V()) == GetWord(old(V()), offset, n, n, littleEndian)
      ensures copyOnWriteOwner == old(copyOnWriteOwner) && readOnly == old(readOnly)
    {
      hide WFView, Coherent, Byte, GetByte, AfterGet, ConcatCreate, WFWord;
      e := Constant(0, INT8);
      for i := 0 to n
        invariant Valid() && Repr == old(Repr)
        invariant i == 0 ==> V() == old(V())
        invariant i > 0 ==> (e, V()) == GetWord(old(V()), offset, i, n, littleEndian)
        invariant copyOnWriteOwner == old(copyOnWriteOwner) && readOnly == old(readOnly)
      {
        var b := Read8(offset + ByteIndex(i, n, littleEndian));
        if i == 0 {
          e := b;
        } else {
          WordTyped(e, i);
          e := ConcatCreate(b, e);
        }
      }
    }

    method WriteConst(offset: nat, value: Expr, n: nat, littleEndian: bool)
      requires Valid() && WFWord(value, n) && offset + n <= size
      modifies Repr
      ensures Valid() && fresh(Repr - old(Repr)) && old(Repr) <= Repr
      ensures V() == PutWord(old(V()), offset, value, n, n, littleEndian)
      ensures copyOnWriteOwner == old(copyOnWriteOwner) && readOnly == old(readOnly)
    {
      hide WFView, Coherent, PutByte, ByteOf, WFWord, Pow2, PutConcrete, ExtractBits;
      for i := 0 to n
        invariant Valid() && fresh(Repr - old(Repr)) && old(Repr) <= Repr
        invariant V() == PutWord(old(V()), offset, value, i, n, littleEndian)
        invariant copyOnWriteOwner == old(copyOnWriteOwner) && readOnly == old(readOnly)
      {
        if value.Constant? {
          // the fast path for constants writes the shifted and truncated word
          ConstantWrite(V(), offset + ByteIndex(i, n, littleEndian), value, i, n);
          Write8Concrete(offset + ByteIndex(i, n, littleEndian), ExtractBits(value.value, 8 * i, 8));
        } else {
          Write8(offset + ByteIndex(i, n, littleEndian), ByteOf(value, i, n));
        }
      }
    }

    method ReadSymbolic(offset: Expr, n: nat, littleEndian: bool) returns (e: Expr)
      requires Valid() && 0 < n < Pow2(INT32) && WFOffset(offset)
      modifies Repr
      ensures Valid() && fresh(Repr - old(Repr)) && old(Repr) <= Repr && SameBytes(old(V()), V())
      ensures (e, V()) == GetWordAt(old(V()), offset, n, n, littleEndian)
      ensures copyOnWriteOwner == old(copyOnWriteOwner) && readOnly == old(readOnly)
    {
      hide WFView, Coherent, Byte, GetByteAt, AfterGetAt, ConcatCreate, WFWord, OffsetPlus;
      e := Constant(0, INT8);
      for i := 0 to n
        invariant Valid() && fresh(Repr - old(Repr)) && old(Repr) <= Repr
        invariant i == 0 ==> V() == old(V())
        invariant i > 0 ==> (e, V()) == GetWordAt(old(V()), offset, i, n, littleEndian)
        invariant copyOnWriteOwner == old(copyOnWriteOwner) && readOnly == old(readOnly)
      {
        var b := Read8At(OffsetPlus(offset, ByteIndex(i, n, littleEndian)));
        if i == 0 {
          e := b;
        } else {
          WordTyped(e, i);
          e := ConcatCreate(b, e);
        }
      }
    }

    method WriteSymbolic(offset: Expr, value: Expr, n: nat, littleEndian: bool)
      requires Valid() && WFOffset(offset) && WFWord(value, n) && n < Pow2(INT32)
      modifies Repr
      ensures Valid() && fresh(Repr - old(Repr)) && old(Repr) <= Repr
      ensures V() == PutWordAt(old(V()), offset, value, n, n, littleEndian)
      ensures copyOnWriteOwner == old(copyOnWriteOwner) && readOnly == old(readOnly)
    {
      hide WFView, Coherent, PutByteAt, ByteOf, WFWord, OffsetPlus, WF, Folded;
      for i := 0 to n
        invariant Valid() && fresh(Repr - old(Repr)) && old(Repr) <= Repr
        invariant V() == PutWordAt(old(V()), offset, value, i, n, littleEndian)
        invariant copyOnWriteOwner == old(copyOnWriteOwner) && readOnly == old(readOnly)
      {
        Write8At(OffsetPlus(offset, ByteIndex(i, n, littleEndian)), ByteOf(value, i, n));
      }
    }

    // ----- the entry points -----

    /** Reads `n` bytes at an offset expression, which is first truncated to 32 bits. Wherever the
        word lies inside the object, the result has the value its bytes hold. A constant offset
        must be inside, as the source's callers check. */
    method Read(offset: Expr, n: nat, littleEndian: bool) returns (e: Expr)
      requires Valid() && WF(offset) && Folded(offset) && 0 < n < Pow2(INT32)
      requires ZExtCreate(offset, INT32).Constant? ==> ZExtCreate(offset, INT32).value + n <= size
      modifies Repr
      ensures Valid() && fresh(Repr - old(Repr)) && old(Repr) <= Repr
      ensures WFWord(e, n) && WF(e) && SameBytes(old(V()), V())
      ensures Loads(old(V()), e, ZExtCreate(offset, INT32), n, littleEndian)
      ensures copyOnWriteOwner == old(copyOnWriteOwner) && readOnly == old(readOnly)
    {
      hide WFView, Coherent, Byte, Eval, ZExtCreate, GetWord, GetWordAt, WF, Folded, Loads;
      CastShape(offset, INT32);
      var o := ZExtCreate(offset, INT32);
      WordLoads(V(), o, n, littleEndian);
      if o.Constant? {
        e := ReadConst(o.value, n, littleEndian);
      } else {
        e := ReadSymbolic(o, n, littleEndian);
      }
    }

    /** Writes an `n`-byte value; wherever the word lies inside the object, exactly its bytes change,
        to the bytes of the value. */
    method Write(offset: Expr, value: Expr, n: nat, littleEndian: bool)
      requires Valid() && WF(offset) && Folded(offset) && WFWord(value, n) && WF(value) && n < Pow2(INT32)
      requires ZExtCreate(offset, INT32).Constant? ==> ZExtCreate(offset, INT32).value + n <= size
      modifies Repr
      ensures Valid() && fresh(Repr - old(Repr)) && old(Repr) <= Repr
      ensures Stores(old(V()), V(), ZExtCreate(offset, INT32), value, n, littleEndian)
      ensures copyOnWriteOwner == old(copyOnWriteOwner) && readOnly == old(readOnly)
    {
      hide WFView, Coherent, Byte, Eval, ZExtCreate, PutWord, PutWordAt, WF, Folded, Stores;
      CastShape(offset, INT32);
      var o := ZExtCreate(offset, INT32);
      WordStores(V(), o, value, n, littleEndian);
      if o.Constant? {
        WriteConst(o.value, value, n, littleEndian);
      } else {
        WriteSymbolic(o, value, n, littleEndian);
      }
    }
  }

  lemma {:induction false} LeadingUnique(ws: seq<(Expr, Expr)>, k: nat)
    requires k <= |ws| && (forall j :: 0 <= j < k ==> Concrete(ws[j])) && (k < |ws| ==> !Concrete(ws[k]))
    ensures LeadingConcrete(ws) == k
  {
    if k > 0 {
      assert Concrete(ws[0]);
      LeadingUnique(ws[1..], k - 1);
    }
  }

  lemma MaterialiseFields(v: View)
    requires WFView(v) && v.root.None?
    ensures Inside(OldestFirst(v.head), v.size)
    ensures var ws := OldestFirst(v.head);
            var k := LeadingConcrete(ws);
            Materialise(v) == v.(root := Some(Array(0, v.size, INT32, INT8, Contents(v.size, ws, k))),
                                 head := Extend(Null, ws[k..]))
  {
    InsideOldest(v.head, v.size);
  }

  lemma ListTyped(v: View)
    requires WFView(v) && v.root.Some?
    ensures WFList(UpdateList(v.root.value, v.head)) && v.root.value.domain == INT32 && Root(v) == v.root.value
  {
  }

  lemma OffsetBelow(v: View, i: nat)
    requires WFView(v) && i < v.size
    ensures WF(Constant(i, INT32)) && Width(Constant(i, INT32)) == INT32
  {
  }

  lemma WordTyped(e: Expr, n: nat)
    requires WFWord(e, n)
    ensures WF(e)
  {
  }

  lemma ConstantByte(x: Expr, j: nat, n: nat)
    requires WFWord(x, n) && j < n && x.Constant?
    ensures ByteOf(x, j, n).Constant? && ByteOf(x, j, n).value == ExtractBits(x.value, 8 * j, 8) < BYTE
  {
    hide Eval, FoldExtract;
    ByteOfValue(x, j, n, map[]);
    ConstValue(x, map[]);
    ConstValue(ByteOf(x, j, n), map[]);
    ByteBound(ByteOf(x, j, n), map[]);
  }

  lemma PutConstant(v: View, i: nat, e: Expr)
    requires WFView(v) && i < v.size && e.Constant?
    ensures PutByte(v, i, e) == PutConcrete(v, i, e.value)
  {
  }

  /** A byte of a constant word is the constant shifted and cut. */
  lemma ConstantWrite(v: View, i: nat, x: Expr, j: nat, n: nat)
    requires Inv(v) && i < v.size && WFWord(x, n) && j < n && x.Constant?
    ensures ExtractBits(x.value, 8 * j, 8) < BYTE
    ensures PutConcrete(v, i, ExtractBits(x.value, 8 * j, 8)) == PutByte(v, i, ByteOf(x, j, n))
            && Inv(PutByte(v, i, ByteOf(x, j, n)))
  {
    hide WFWord, ByteOf, PutConcrete, PutByte, ExtractBits, Coherent, WFView;
    ConstantByte(x, j, n);
    ByteOfTyped(x, j, n);
    PutByteExact(v, i, ByteOf(x, j, n));
    PutConstant(v, i, ByteOf(x, j, n));
  }

  lemma ByteOfTyped(x: Expr, j: nat, n: nat)
    requires WFWord(x, n) && j < n
    ensures WFByteExpr(ByteOf(x, j, n))
  {
  }

  lemma FlushedAlready(v: View, i: nat)
    requires WFView(v) && i < v.size && v.flushed[i]
    ensures FlushByteForRead(v, i) == v
  {
  }

  lemma FlushFields(v: View, i: nat)
    requires WFView(v) && i < v.size && (v.flushed[i] || v.concrete[i] || v.known[i].Some?)
    ensures var u := FlushByteForRead(v, i); u.concrete == v.concrete && u.known == v.known && u.store == v.store
  {
  }
}
