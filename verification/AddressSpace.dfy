/** Address spaces that share object states and copy them when one is written: an epoch number tells
    whether a space owns the state it has bound. */
module AddressSpaces {
  import opened Collections
  import opened Bits
  import opened Exprs
  import opened CreateShape
  import opened ObjectView
  import opened ObjectOps
  import opened ObjectStates

  datatype MemoryObject = MemoryObject(id: nat, address: nat, size: nat)

  /** The epoch counter is an unsigned 32-bit number. */
  const KEYS: nat := 0x1_0000_0000

  // ----- what an access does to the logical bytes -----

  /** One-byte accesses at constant and symbolic offsets. */
  datatype Access = Get(i: nat) | GetAt(o: Expr) | Put(i: nat, e: Expr) | PutAt(o: Expr, e: Expr)

  predicate IsWrite(acc: Access) { acc.Put? || acc.PutAt? }

  predicate Allowed(acc: Access, size: nat) {
    match acc
    case Get(i) => i < size
    case GetAt(o) => WFOffset(o)
    case Put(i, e) => i < size && WFByteExpr(e)
    case PutAt(o, e) => WFOffset(o) && WFByteExpr(e)
  }

  /** Reads change no logical byte. */
  function Apply(v: View, acc: Access): View
    requires Inv(v) && Allowed(acc, v.size)
  {
    match acc
    case Get(_) => v
    case GetAt(_) => v
    case Put(i, e) => PutByte(v, i, e)
    case PutAt(o, e) => PutByteAt(v, o, e)
  }

  lemma ApplyInv(v: View, acc: Access)
    requires Inv(v) && Allowed(acc, v.size)
    ensures Inv(Apply(v, acc)) && Apply(v, acc).size == v.size
  {
    hide WFView, Coherent, PutByte, PutByteAt, Byte;
    match acc
    case Put(i, e) => PutByteExact(v, i, e);
    case PutAt(o, e) => PutByteAtExact(v, o, e);
    case _ =>
  }

  /** Accesses to views of the same bytes leave views of the same bytes. */
  lemma ApplySame(v: View, v': View, acc: Access)
    requires Inv(v) && Inv(v') && SameBytes(v, v') && Allowed(acc, v.size)
    ensures Inv(Apply(v, acc)) && Inv(Apply(v', acc)) && SameBytes(Apply(v, acc), Apply(v', acc))
  {
    hide WFView, Coherent, PutByte, PutByteAt, Byte, WFByteExpr, WFOffset, Eval;
    match acc
    case Put(i, e) => PutByteExact(v, i, e); PutByteExact(v', i, e);
    case PutAt(o, e) => PutByteAtExact(v, o, e); PutByteAtExact(v', o, e);
    case _ =>
  }

  /** What a read returns has the value of the byte it is aimed at. */
  ghost predicate Answers(v: View, acc: Access, e: Expr)
    requires Inv(v) && Allowed(acc, v.size)
  {
    match acc
    case Get(i) => WFByteExpr(e) && forall a :: Eval(e, a) == Byte(v, i, a)
    case GetAt(o) => WFByteExpr(e) && forall a :: Eval(o, a) < v.size ==> Eval(e, a) == Byte(v, Eval(o, a), a)
    case _ => true
  }

  lemma AnswersSame(v: View, v': View, acc: Access, e: Expr)
    requires Inv(v) && Inv(v') && SameBytes(v, v') && Allowed(acc, v.size) && Answers(v', acc, e)
    ensures Answers(v, acc, e)
  {
    hide WFView, Coherent, Byte, WFByteExpr, WF, Folded, Eval;
  }

  lemma SameAsItself(v: View)
    requires Inv(v)
    ensures SameBytes(v, v)
  {
  }

  lemma SameSize(u: View, v: View)
    requires Inv(u) && Inv(v) && SameBytes(u, v)
    ensures WFView(u) && WFView(v) && u.size == v.size
  {
  }

  /** Nothing can be told apart by reading. */
  ghost predicate Unseen(v: View, w: View) { Inv(v) && Inv(w) && SameBytes(v, w) }

  lemma SameBoth(u: View, v: View, w: View)
    requires Inv(u) && Inv(v) && Inv(w) && SameBytes(u, v) && SameBytes(u, w)
    ensures Unseen(v, w)
  {
    hide WFView, Coherent, Byte;
  }

  lemma SameTransitive(u: View, v: View, w: View)
    requires Inv(u) && Inv(v) && Inv(w) && SameBytes(u, v) && SameBytes(v, w)
    ensures SameBytes(u, w)
  {
    hide WFView, Coherent, Byte;
  }

  /** Accesses to a state keep it in step with a private view of the same bytes. */
  lemma StepSame(u: View, v: View, acc: Access, v': View)
    requires Inv(u) && Inv(v) && SameBytes(u, v) && Allowed(acc, u.size)
    requires Inv(v') && Allowed(acc, v.size) && Inv(Apply(v, acc)) && SameBytes(Apply(v, acc), v')
    ensures Inv(Apply(u, acc)) && SameBytes(Apply(u, acc), v') && (IsWrite(acc) || Apply(u, acc) == u)
  {
    hide WFView, Coherent, Allowed, Byte;
    ApplySame(u, v, acc);
    SameTransitive(Apply(u, acc), Apply(v, acc), v');
  }

  // ----- spaces -----

  /** A private memory for each space: what a program that never shared anything would hold. The states
      the spaces belong to may be keys as well, so that no bound memory contains them. */
  type Model = map<object, map<MemoryObject, View>>

  /** A bound state is coherent, no younger than its space, and holds none of the spaces. */
  ghost predicate Fits(s: AddressSpace, mo: MemoryObject, spaces: set<object>)
    reads *
  {
    mo in s.objects ==>
      && s.objects[mo].Valid()
      && s.objects[mo].copyOnWriteOwner <= s.cowKey
      && spaces !! s.objects[mo].Repr
  }

  /** If two spaces share a state, it is bound to the same object in both, and older than both; two
      different states have no memory in common. */
  ghost predicate Apart(s: AddressSpace, mo: MemoryObject, t: AddressSpace, mo': MemoryObject)
    reads *
  {
    mo in s.objects && mo' in t.objects ==>
      var os, os' := s.objects[mo], t.objects[mo'];
      && (os == os' ==> mo == mo' && (s != t ==> os.copyOnWriteOwner < s.cowKey && os.copyOnWriteOwner < t.cowKey))
      && (os != os' ==> os.Repr !! os'.Repr)
  }

  ghost predicate Isolated(spaces: set<object>)
    reads *
  {
    && (forall s: AddressSpace, mo :: s in spaces ==> Fits(s, mo, spaces))
    && (forall s: AddressSpace, mo, t: AddressSpace, mo' :: s in spaces && t in spaces ==> Apart(s, mo, t, mo'))
  }

  /** The bytes a space has for an object are those of the private memory. */
  ghost predicate Agrees(s: AddressSpace, mo: MemoryObject, m: map<MemoryObject, View>)
    reads *
  {
    && (mo in s.objects <==> mo in m)
    && (mo in m ==> Inv(m[mo]) && s.objects[mo].Valid() && SameBytes(m[mo], s.objects[mo].V()))
  }

  /** The spaces of the model are isolated, and hold what the model holds. */
  ghost predicate Refines(model: Model)
    reads *
  {
    && Isolated(model.Keys)
    && forall s: AddressSpace, mo :: s in model ==> Agrees(s, mo, model[s])
  }

  /** The state has no memory in common with a binding. */
  ghost predicate Clear(os: ObjectState, s: AddressSpace, mo: MemoryObject)
    reads *
  {
    mo in s.objects ==> s.objects[mo] != os && s.objects[mo].Repr !! os.Repr
  }

  /** A state that no space has bound, and that could be bound. */
  ghost predicate Unbound(os: ObjectState, spaces: set<object>)
    reads *
  {
    && os.Valid() && spaces !! os.Repr
    && forall s: AddressSpace, mo :: s in spaces ==> Clear(os, s, mo)
  }

  class AddressSpace {
    var cowKey: nat
    var objects: map<MemoryObject, ObjectState>

    constructor ()
      ensures cowKey == 1 && objects == map[]
    {
      cowKey := 1;
      objects := map[];
    }

    /** A copy shares every state, and takes the same new epoch as its original. This keeps the
        spaces isolated exactly if the epoch counter does not wrap around, or there is nothing to
        share. */
    constructor Copy(b: AddressSpace, ghost model: Model)
      requires b.cowKey < KEYS
      modifies b`cowKey
      ensures objects == b.objects == old(b.objects) && cowKey == b.cowKey == (old(b.cowKey) + 1) % KEYS
      ensures this !in model
      ensures old(b in model && Refines(model)) ==>
                && (Isolated(model.Keys + {this}) <==> old(b.cowKey) + 1 < KEYS || b.objects == map[])
                && (old(b.cowKey) + 1 < KEYS || b.objects == map[] ==> Refines(model[this := model[b]]))
      ensures forall s: AddressSpace :: s in model && s != b ==> s.cowKey == old(s.cowKey)
    {
      hide ObjectState.Valid, ObjectState.Shape, ObjectState.V, Inv, SameBytes;
      b.cowKey := (b.cowKey + 1) % KEYS;
      cowKey, objects := b.cowKey, b.objects;
      new;
      if old(b in model && Refines(model)) {
        ghost var all := model.Keys + {this};
        ghost var model' := model[this := model[b]];
        assert model'.Keys == all;
        if old(b.cowKey) + 1 < KEYS || b.objects == map[] {
          forall s: AddressSpace, mo | s in all
            ensures Fits(s, mo, all)
          {
            assert old(Fits(if s == this then b else s, mo, model.Keys));
          }
          forall s: AddressSpace, mo, t: AddressSpace, mo' | s in all && t in all
            ensures Apart(s, mo, t, mo')
          {
            var s': AddressSpace, t': AddressSpace := if s == this then b else s, if t == this then b else t;
            assert old(Apart(s', mo, t', mo'));
            assert old(Fits(s', mo, model.Keys));
            assert old(Fits(t', mo', model.Keys));
          }
          forall s: AddressSpace, mo | s in all
            ensures Agrees(s, mo, model'[s])
          {
            var s': AddressSpace := if s == this then b else s;
            assert old(Fits(s', mo, model.Keys));
            assert old(Agrees(s', mo, model[s']));
          }
        } else {
          var mo :| mo in b.objects;
          assert b in all && this in all && !Apart(b, mo, this, mo);
        }
      }
    }

    method BindObject(mo: MemoryObject, os: ObjectState, ghost model: Model)
      requires this in model && Refines(model) && Unbound(os, model.Keys) && os.copyOnWriteOwner == 0
      modifies `objects, os`copyOnWriteOwner
      ensures os.Shape() && os.V() == old(os.V()) && os.Repr == old(os.Repr)
      ensures objects == old(objects)[mo := os] && os.copyOnWriteOwner == cowKey
      ensures Refines(model[this := model[this][mo := os.V()]])
    {
      hide ObjectState.Shape, ObjectState.V, Inv, SameBytes;
      Claim(os, model);
      SameAsItself(os.V());
      Rebind(mo, os, os.V(), model);
    }

    /** The owner of a state that is not bound can be set without any space noticing. */
    method Claim(os: ObjectState, ghost model: Model)
      requires this in model && Refines(model) && Unbound(os, model.Keys)
      modifies os`copyOnWriteOwner
      ensures Refines(model) && Unbound(os, model.Keys) && os.copyOnWriteOwner == cowKey
      ensures os.V() == old(os.V()) && os.Repr == old(os.Repr) && Inv(os.V())
    {
      hide ObjectState.Shape, ObjectState.V;
      assert Inv(os.V());
      hide ObjectState.Valid, Inv, SameBytes;
      os.SetOwner(cowKey);
      ghost var spaces := model.Keys;
      forall s: AddressSpace, m | s in spaces
        ensures Fits(s, m, spaces)
        ensures Agrees(s, m, model[s])
        ensures Clear(os, s, m)
      {
        assert old(Fits(s, m, spaces));
        assert old(Agrees(s, m, model[s]));
        assert old(Clear(os, s, m));
      }
      forall s: AddressSpace, m, t: AddressSpace, m' | s in spaces && t in spaces
        ensures Apart(s, m, t, m')
      {
        assert old(Apart(s, m, t, m'));
        assert old(Clear(os, s, m));
        assert old(Clear(os, t, m'));
      }
    }

    /** A state no space has bound, owned by this one, with the bytes `v`. */
    ghost predicate Claimed(os: ObjectState, v: View, spaces: set<object>)
      reads *
    {
      && Unbound(os, spaces) && os.copyOnWriteOwner == cowKey
      && Inv(v) && os.Shape() && Inv(os.V()) && SameBytes(v, os.V())
    }

    /** A binding to a state this space has claimed. */
    method Rebind(mo: MemoryObject, os: ObjectState, ghost v: View, ghost model: Model)
      requires this in model && Refines(model) ==> Claimed(os, v, model.Keys)
      modifies `objects
      ensures objects == old(objects)[mo := os]
      ensures this in model && old(Refines(model)) ==> Refines(model[this := model[this][mo := v]])
    {
      hide ObjectState.Shape, ObjectState.V, ObjectState.Valid, Inv, SameBytes;
      objects := objects[mo := os];
      if this in model && old(Refines(model)) {
        ghost var spaces := model.Keys;
        ghost var model' := model[this := model[this][mo := v]];
        assert model'.Keys == spaces;
        forall s: AddressSpace, m | s in spaces
          ensures Fits(s, m, spaces)
          ensures Agrees(s, m, model'[s])
        {
          assert old(Fits(s, m, spaces));
          assert old(Agrees(s, m, model[s]));
        }
        forall s: AddressSpace, m, t: AddressSpace, m' | s in spaces && t in spaces
          ensures Apart(s, m, t, m')
        {
          assert old(Apart(s, m, t, m'));
          assert old(Clear(os, s, m));
          assert old(Clear(os, t, m'));
        }
      }
    }

    method UnbindObject(mo: MemoryObject, ghost model: Model)
      requires this in model && Refines(model)
      modifies `objects
      ensures objects == old(objects) - {mo}
      ensures Refines(model[this := model[this] - {mo}])
    {
      hide ObjectState.Valid, ObjectState.Shape, ObjectState.V, Inv, SameBytes;
      objects := objects - {mo};
      ghost var spaces := model.Keys;
      ghost var model' := model[this := model[this] - {mo}];
      assert model'.Keys == spaces;
      forall s: AddressSpace, m | s in spaces
        ensures Fits(s, m, spaces)
      {
        assert old(Fits(s, m, spaces));
      }
      forall s: AddressSpace, m, t: AddressSpace, m' | s in spaces && t in spaces
        ensures Apart(s, m, t, m')
      {
        assert old(Apart(s, m, t, m'));
      }
      forall s: AddressSpace, m | s in spaces
        ensures Agrees(s, m, model'[s])
      {
        assert old(Fits(s, m, spaces));
        assert old(Agrees(s, m, model[s]));
      }
    }

    method FreshCopy(mo: MemoryObject, os: ObjectState, ghost model: Model) returns (wos: ObjectState)
      requires mo in objects && objects[mo] == os && os.Valid() && !os.readOnly
      modifies `objects
      ensures this in model && old(Refines(model)) ==> Refines(model)
      ensures objects == old(objects)[mo := wos] && wos.copyOnWriteOwner == cowKey && !wos.readOnly
      ensures wos.Valid() && fresh(wos.Repr)
    {
      hide ObjectState.Shape, ObjectState.V, Inv, SameBytes;
      ghost var spaces := model.Keys;
      wos := new ObjectState.Copy(os);
      wos.SetOwner(cowKey);
      ghost var v := wos.V();
      if this in model && old(Refines(model)) {
        assert old(Fits(this, mo, spaces) && Agrees(this, mo, model[this]));
        v := model[this][mo];
        forall s: AddressSpace, m | s in spaces
          ensures Fits(s, m, spaces)
          ensures Agrees(s, m, model[s])
          ensures Clear(wos, s, m)
        {
          assert old(Fits(s, m, spaces));
          assert old(Agrees(s, m, model[s]));
        }
        forall s: AddressSpace, m, t: AddressSpace, m' | s in spaces && t in spaces
          ensures Apart(s, m, t, m')
        {
          assert old(Apart(s, m, t, m'));
          assert old(Fits(s, m, spaces));
          assert old(Fits(t, m', spaces));
        }
        assert model[this][mo := v] == model[this];
        assert model[this := model[this]] == model;
      }
      Rebind(mo, wos, v, model);
    }

    /** The state itself if this space owns it, otherwise a copy bound in its place; no other binding
        has it. */
    method GetWriteable(mo: MemoryObject, os: ObjectState, ghost model: Model) returns (wos: ObjectState)
      requires mo in objects && objects[mo] == os && os.Valid() && !os.readOnly
      modifies `objects
      ensures objects == old(objects)[mo := wos] && wos.copyOnWriteOwner == cowKey && !wos.readOnly && wos.Valid()
      ensures if cowKey == old(os.copyOnWriteOwner) then wos == os else fresh(wos.Repr)
      ensures this in model && old(Refines(model)) ==>
                && Refines(model)
                && forall s: AddressSpace, m :: s in model && m in s.objects && s.objects[m] == wos ==>
                   s == this && m == mo
    {
      hide ObjectState.Shape, ObjectState.V, Inv, SameBytes;
      if cowKey == os.copyOnWriteOwner {
        wos := os;
      } else {
        wos := FreshCopy(mo, os, model);
      }
      if this in model && old(Refines(model)) {
        forall s: AddressSpace, m | s in model && m in s.objects && s.objects[m] == wos
          ensures s == this && m == mo
        {
          assert Apart(s, m, this, mo);
        }
      }
    }

    /** One access to a bound object: reads go to the state even if it is shared, writes to a state
        that is not. In the model only this space's object changes. */
    method DoAccess(mo: MemoryObject, acc: Access, ghost model: Model) returns (e: Expr)
      requires this in model && Refines(model) && mo in objects && mo in model[this]
      requires Inv(model[this][mo]) && Allowed(acc, model[this][mo].size)
      requires IsWrite(acc) ==> !objects[mo].readOnly
      modifies `objects, objects[mo].Repr
      ensures Refines(model[this := model[this][mo := Apply(model[this][mo], acc)]])
      ensures Answers(model[this][mo], acc, e)
      ensures objects.Keys == old(objects.Keys)
      ensures forall s: AddressSpace, m :: s in model && (s != this || m != mo) && m in old(s.objects) ==>
                m in s.objects && old(s.objects[m].Shape()) && s.objects[m].Shape() &&
                Unseen(old(s.objects[m].V()), s.objects[m].V())
    {
      hide ObjectState.Shape, ObjectState.V, Inv, SameBytes, Answers, Apply, Allowed;
      assert Fits(this, mo, model.Keys);
      assert Agrees(this, mo, model[this]);
      var os := objects[mo];
      if IsWrite(acc) {
        os := GetWriteable(mo, os, model);
      }
      e := AccessState(mo, os, acc, model);
      ghost var model' := model[this := model[this][mo := Apply(model[this][mo], acc)]];
      hide Unseen;
      forall s: AddressSpace, m | s in model && (s != this || m != mo) && m in old(s.objects)
        ensures m in s.objects && old(s.objects[m].Shape()) && s.objects[m].Shape()
        ensures Unseen(old(s.objects[m].V()), s.objects[m].V())
      {
        assert old(Agrees(s, m, model[s]));
        assert Agrees(s, m, model'[s]) && model'[s][m] == model[s][m];
        SameBoth(model[s][m], old(s.objects[m].V()), s.objects[m].V());
      }
    }

    /** A byte read from a bound state, shared or not, leaves the model as it is. */
    method ReadByte(mo: MemoryObject, os: ObjectState, i: nat, ghost model: Model) returns (e: Expr)
      requires this in model && Refines(model) && mo in objects && objects[mo] == os && mo in model[this]
      requires Inv(model[this][mo]) && i < model[this][mo].size
      modifies os.Repr
      ensures Refines(model) && WFByteExpr(e) && forall a :: Eval(e, a) == Byte(model[this][mo], i, a)
      ensures fresh(os.Repr - old(os.Repr))
      ensures forall s: AddressSpace :: s in model ==> s.objects == old(s.objects) && s.cowKey == old(s.cowKey)
    {
      hide ObjectState.Shape, ObjectState.V, ObjectState.Valid, Inv, SameBytes, Eval, Byte, WFByteExpr, Refines;
      e := AccessState(mo, os, Get(i), model);
      assert model[this][mo := model[this][mo]] == model[this];
      assert model[this := model[this]] == model;
    }

    /** The access itself, on a state that only this binding has if it is to be written. */
    method AccessState(mo: MemoryObject, os: ObjectState, acc: Access, ghost model: Model) returns (e: Expr)
      requires this in model && Refines(model) && mo in objects && objects[mo] == os && mo in model[this]
      requires Inv(model[this][mo]) && Allowed(acc, model[this][mo].size)
      requires IsWrite(acc) ==> forall s: AddressSpace, m :: s in model && m in s.objects && s.objects[m] == os ==>
               s == this && m == mo
      modifies os.Repr
      ensures Refines(model[this := model[this][mo := Apply(model[this][mo], acc)]])
      ensures Answers(model[this][mo], acc, e) && fresh(os.Repr - old(os.Repr))
      ensures forall s: AddressSpace :: s in model ==> s.objects == old(s.objects) && s.cowKey == old(s.cowKey)
    {
      hide ObjectState.Shape, Inv, SameBytes, Apply, Allowed, Answers, WFView;
      ghost var spaces := model.Keys;
      assert Fits(this, mo, spaces);
      assert Agrees(this, mo, model[this]);
      assert Inv(os.V());
      ghost var v := os.V();
      SameSize(model[this][mo], v);
      e := PerformAccess(os, acc, v);
      AnswersSame(model[this][mo], v, acc, e);
      hide ObjectState.Valid, ObjectState.V;
      ghost var model' := model[this := model[this][mo := Apply(model[this][mo], acc)]];
      assert model'.Keys == spaces;
      forall s: AddressSpace, m | s in spaces
        ensures Fits(s, m, spaces)
      {
        assert old(Fits(s, m, spaces));
        assert old(Apart(s, m, this, mo));
      }
      forall s: AddressSpace, m, t: AddressSpace, m' | s in spaces && t in spaces
        ensures Apart(s, m, t, m')
      {
        assert old(Apart(s, m, t, m'));
        assert old(Fits(s, m, spaces));
        assert old(Fits(t, m', spaces));
        assert old(Apart(s, m, this, mo));
        assert old(Apart(t, m', this, mo));
      }
      forall s: AddressSpace, m | s in spaces
        ensures Agrees(s, m, model'[s])
      {
        assert old(Fits(s, m, spaces));
        assert old(Agrees(s, m, model[s]));
        assert old(Apart(s, m, this, mo));
        if m in s.objects && s.objects[m] == os {
          SameSize(model[s][m], v);
          StepSame(model[s][m], v, acc, os.V());
        }
      }
    }
  }

  // ----- after the epoch counter has wrapped around -----

  /** A space binds an object and is copied 2^32 times: then it takes the state it shares with the first
      copy, all zero so far, for its own. */
  method TakenForOwn(mo: MemoryObject) returns (s: AddressSpace, c: AddressSpace)
    requires mo.size < Pow2(INT32)
    ensures s != c && fresh(s) && fresh(c) && s.objects == c.objects && s.objects.Keys == {mo}
    ensures var os := c.objects[mo];
            && os.Valid() && fresh(os.Repr) && s !in os.Repr && c !in os.Repr && !os.readOnly
            && os.copyOnWriteOwner == s.cowKey && os.V().size == os.size == mo.size
            && forall i, a :: 0 <= i < mo.size ==> Byte(os.V(), i, a) == 0
  {
    hide WFByteArray, Byte, WFView, Coherent, Refines, FilledView, ObjectState.Shape, ObjectState.V;
    var os;
    s, os := BoundAtStart(mo);
    c := CopyOften(s);
    BaseArrayWF(mo.size);
    ZeroInv(mo.size, None);
  }

  /** When the space writes to a state that it takes for its own and another shares, the other sees it. */
  method SharedWrite(s: AddressSpace, c: AddressSpace, mo: MemoryObject, i: nat, b: nat)
    requires s != c && mo in s.objects && mo in c.objects && s.objects[mo] == c.objects[mo]
    requires var os := s.objects[mo];
             && os.Valid() && s !in os.Repr && c !in os.Repr && !os.readOnly && os.copyOnWriteOwner == s.cowKey
             && i < os.V().size == os.size
    requires b < BYTE
    modifies s`objects, s.objects[mo].Repr
    ensures s.objects == old(s.objects) && c.objects == old(c.objects)
    ensures c.objects[mo].Valid() && c.objects[mo].V().size == old(c.objects[mo].V().size)
    ensures forall a :: Byte(c.objects[mo].V(), i, a) == b
  {
    hide WFByteArray, Byte, WFView, Coherent, Refines, ObjectState.Shape, ObjectState.V, PutByte, WFByteExpr, Eval;
    var wos := s.GetWriteable(mo, s.objects[mo], map[]);
    var e := ByteConstant(b);
    ByteWritten(wos.V(), i, e, b);
    wos.Write8(i, e);
  }

  /** From the start: a byte of the copy, zero before, is what the space has written to the state of its own. */
  method WriteSeen(mo: MemoryObject, i: nat, b: nat) returns (s: AddressSpace, c: AddressSpace, ghost was: View)
    requires i < mo.size < Pow2(INT32) && 0 < b < BYTE
    ensures s != c && s.objects == c.objects && mo in c.objects && c.objects[mo].Valid()
    ensures Inv(was) && i < was.size == c.objects[mo].V().size
    ensures forall a :: Byte(was, i, a) == 0 && Byte(c.objects[mo].V(), i, a) == b
  {
    hide WFByteArray, Byte, WFView, Coherent, Refines, ObjectState.Shape, ObjectState.V;
    s, c := TakenForOwn(mo);
    was := c.objects[mo].V();
    SharedWrite(s, c, mo, i, b);
  }

  lemma ByteWritten(v: View, i: nat, e: Expr, b: nat)
    requires Inv(v) && i < v.size && WFByteExpr(e) && forall a :: Eval(e, a) == b
    ensures Inv(PutByte(v, i, e)) && PutByte(v, i, e).size == v.size && forall a :: Byte(PutByte(v, i, e), i, a) == b
  {
    hide WFView, Coherent, Byte, PutByte, WFByteExpr, Eval;
    PutByteExact(v, i, e);
  }

  /** The first of as many copies as there are epochs. */
  method CopyOften(s: AddressSpace) returns (c: AddressSpace)
    requires s.cowKey == 1
    modifies s`cowKey
    ensures s.cowKey == 1 && fresh(c) && c.objects == s.objects
  {
    hide Refines;
    c := new AddressSpace.Copy(s, map[]);
    for k := 1 to KEYS
      invariant s.cowKey == (1 + k) % KEYS && c.objects == s.objects
    {
      var d := new AddressSpace.Copy(s, map[]);
    }
  }

  method BoundAtStart(mo: MemoryObject) returns (s: AddressSpace, os: ObjectState)
    requires mo.size < Pow2(INT32)
    ensures s.cowKey == 1 && s.objects == map[mo := os] && fresh(s) && fresh(os.Repr)
    ensures os.Valid() && os.V() == FilledView(mo.size, 0, None, Null) && os.copyOnWriteOwner == 1 && !os.readOnly
    ensures os.V().size == os.size == mo.size && s !in os.Repr
  {
    BaseArrayWF(mo.size);
    hide WFByteArray, WFView, Coherent, SameBytes, Pow2, Zeros;
    s := new AddressSpace();
    os := new ObjectState(mo.size, None);
    s.BindObject(mo, os, map[s := map[]]);
  }

  function ByteConstant(b: nat): (e: Expr)
    requires b < BYTE
    ensures WFByteExpr(e) && forall a :: Eval(e, a) == b
  {
    Pow2Eight();
    FoldedConst(Constant(b, INT8));
    Constant(b, INT8)
  }

  method PerformAccess(os: ObjectState, acc: Access, ghost v: View) returns (e: Expr)
    requires os.Valid() && v == os.V() && Allowed(acc, v.size)
    modifies os.Repr
    ensures os.Valid() && fresh(os.Repr - old(os.Repr)) && old(os.Repr) <= os.Repr
    ensures Inv(Apply(v, acc)) && SameBytes(Apply(v, acc), os.V())
    ensures Answers(v, acc, e)
    ensures os.copyOnWriteOwner == old(os.copyOnWriteOwner) && os.readOnly == old(os.readOnly)
  {
    hide WFView, Coherent, PutByte, PutByteAt, Byte, WFByteExpr, WFOffset, Eval;
    ApplyInv(v, acc);
    SameAsItself(Apply(v, acc));
    match acc
    case Get(i) =>
      GetByteExact(v, i);
      e := os.Read8(i);
    case GetAt(o) =>
      GetByteAtExact(v, o);
      e := os.Read8At(o);
    case Put(i, x) =>
      os.Write8(i, x);
      e := x;
    case PutAt(o, x) =>
      os.Write8At(o, x);
      e := x;
  }
}
