/** The deterministic allocator: objects are laid out upwards, aligned and with a red zone after each. */
module MemoryManagement {
  import opened Collections
  import opened Bits
  import opened AddressSpaces
  import opened Resolution

  predicate IsPowerOf2(n: nat) { n == 1 || (n > 0 && n % 2 == 0 && IsPowerOf2(n / 2)) }

  /** The next multiple of `a`. */
  function AlignTo(v: nat, a: nat): (r: nat)
    requires a > 0
    ensures r % a == 0 && v <= r < v + a
  {
    AlignExact(v, a);
    (v + a - 1) / a * a
  }

  lemma AlignExact(v: nat, a: nat)
    requires a > 0
    ensures var r := (v + a - 1) / a * a; r >= 0 && r % a == 0 && v <= r < v + a
  {
    var q, m := (v + a - 1) / a, (v + a - 1) % a;
    assert v + a - 1 == q * a + m;
    ModUnique(q * a, q, 0, a);
  }

  /** An empty object takes one byte, so that it lies between red zones of its own. */
  function Reserved(mo: MemoryObject): nat { if mo.size == 0 then 1 else mo.size }

  class MemoryManager {
    const deterministicSpace: nat
    const spaceSize: nat
    const redzoneSize: nat
    const nullOnZero: bool
    var nextFreeSlot: nat
    var nextId: nat
    /** In the order of allocation. */
    var objects: seq<MemoryObject>

    /** Every object lies in the space, below the next free slot, and a red zone before the next one. */
    ghost predicate Valid()
      reads this
    {
      && deterministicSpace <= nextFreeSlot
      && (forall i :: 0 <= i < |objects| ==>
            && deterministicSpace <= objects[i].address
            && objects[i].address + Reserved(objects[i]) < deterministicSpace + spaceSize
            && objects[i].address + Reserved(objects[i]) + redzoneSize <= nextFreeSlot)
      && forall i, j :: 0 <= i < j < |objects| ==>
           objects[i].address + Reserved(objects[i]) + redzoneSize <= objects[j].address
    }

    constructor (start: nat, spaceSize: nat, redzoneSize: nat, nullOnZero: bool)
      ensures Valid() && objects == [] && deterministicSpace == start && this.spaceSize == spaceSize
      ensures this.redzoneSize == redzoneSize && this.nullOnZero == nullOnZero
    {
      deterministicSpace, this.spaceSize, this.redzoneSize, this.nullOnZero := start, spaceSize, redzoneSize,
        nullOnZero;
      nextFreeSlot, nextId, objects := start, 0, [];
    }

    /** `None` for a refused size or alignment, for address zero, or when the space is used up. The size of
        an object is a 32-bit number. */
    method Allocate(size: nat, alignment: nat) returns (r: Option<MemoryObject>)
      requires Valid()
      modifies `nextFreeSlot, `nextId, `objects
      ensures Valid()
      ensures r.Some? ==>
                && objects == old(objects) + [r.value] && r.value.size == Wrap(size, 32)
                && IsPowerOf2(alignment) && r.value.address % alignment == 0
                && forall mo :: mo in old(objects) ==> mo.address + Reserved(mo) + redzoneSize <= r.value.address
      ensures r.None? ==> objects == old(objects)
      ensures r.None? <==>
                || (nullOnZero && size == 0) || !IsPowerOf2(alignment)
                || (var a := AlignTo(old(nextFreeSlot) + alignment - 1, alignment);
                    a == 0 || a + (if size == 0 then 1 else size) >= deterministicSpace + spaceSize)
    {
      if (nullOnZero && size == 0) || !IsPowerOf2(alignment) {
        return None;
      }
      var address := AlignTo(nextFreeSlot + alignment - 1, alignment);
      var allocSize := if size == 0 then 1 else size;
      if address + allocSize < deterministicSpace + spaceSize {
        nextFreeSlot := address + allocSize + redzoneSize;
      } else {
        address := 0;
      }
      if address == 0 {
        return None;
      }
      var mo := MemoryObject(nextId, address, Wrap(size, 32));
      Truncated(size);
      nextId := nextId + 1;
      objects := objects + [mo];
      r := Some(mo);
    }

    /** A freed object leaves its gap behind. */
    method MarkFreed(mo: MemoryObject)
      requires Valid() && mo in objects
      modifies `objects
      ensures Valid() && forall x :: x in objects <==> x in old(objects) && x != mo
    {
      hide Reserved, Pow2;
      var i := IndexOf(objects, mo);
      FreedApart(i);
      WithoutExact(objects, i);
      objects := Without(objects, i);
    }

    lemma FreedApart(i: nat)
      requires Valid() && i < |objects|
      ensures forall j :: 0 <= j < |objects| && j != i ==> objects[j] != objects[i]
    {
    }

    /** What the search for a pointer's objects needs. */
    lemma LaidOut(w: nat)
      requires Valid() && deterministicSpace + spaceSize <= Pow2(w)
      ensures Layout(objects, w)
    {
    }
  }

  method IndexOf(s: seq<MemoryObject>, mo: MemoryObject) returns (i: nat)
    requires mo in s
    ensures i < |s| && s[i] == mo
  {
    i := 0;
    while s[i] != mo
      invariant i < |s| && forall j :: 0 <= j < i ==> s[j] != mo
      decreases |s| - i
    {
      i := i + 1;
    }
  }

  function Without(s: seq<MemoryObject>, i: nat): (t: seq<MemoryObject>)
    requires i < |s|
    ensures |t| == |s| - 1 && forall j :: 0 <= j < |t| ==> t[j] == if j < i then s[j] else s[j + 1]
  {
    s[..i] + s[i + 1..]
  }

  lemma WithoutExact(s: seq<MemoryObject>, i: nat)
    requires i < |s| && forall j :: 0 <= j < |s| && j != i ==> s[j] != s[i]
    ensures forall x :: x in Without(s, i) <==> x in s && x != s[i]
  {
    var t := Without(s, i);
    forall x | x in s && x != s[i]
      ensures x in t
    {
      var j :| 0 <= j < |s| && s[j] == x;
      assert t[if j < i then j else j - 1] == x;
    }
  }

  lemma Truncated(size: nat)
    ensures Wrap(size, 32) <= size
  {
    DivMod(size, Pow2(32));
  }
}
