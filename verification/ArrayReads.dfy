/** Reads from an array behind a list of updates: rolling the list back at construction. */
module ArrayReads {
  import opened Bits
  import opened Exprs
  import opened Create
  import opened CreateSound
  import opened CreateShape

  /** What a walk from the newest write finds: a write that must be to the index, or the node
      (or the end of the list) where it has to stop. */
  datatype Scanned = Found(value: Expr) | Stopped(at: UpdateNode)

  function Scan(root: Array, n: UpdateNode, index: Expr): (s: Scanned)
    requires WFNodes(root, n) && WF(index) && Width(index) == root.domain
    ensures s.Found? ==> WF(s.value) && Width(s.value) == root.range
    ensures s.Stopped? ==> WFNodes(root, s.at)
    decreases n
  {
    match n
    case Null => Stopped(Null)
    case Node(ui, uv, next) =>
      var cond := EqCreate(index, ui);
      if !cond.Constant? then Stopped(n)
      else if cond.value == 1 then Found(uv)
      else Scan(root, next, index)
  }

  /** The read that is allocated once the walk has stopped at `un`. */
  function ReadFrom(ul: UpdateList, un: UpdateNode, index: Expr): (e: Expr)
    requires WFList(ul) && WFNodes(ul.root, un) && WF(index) && Width(index) == ul.root.domain
    ensures WF(e) && Width(e) == ul.root.range
  {
    if IsConstantArray(ul.root) && un.Null? && index.Constant? && index.value < ul.root.size then
      Constant(ul.root.values[index.value], ul.root.range)
    else if index.Constant? && index.value < ul.root.size then
      Read(UpdateList(ul.root, un), index)
    else
      Read(ul, index)
  }

  function ReadCreate(ul: UpdateList, index: Expr): (e: Expr)
    requires WFList(ul) && WF(index) && Width(index) == ul.root.domain
    ensures WF(e) && Width(e) == ul.root.range
  {
    match Scan(ul.root, ul.head, index)
    case Found(v) => v
    case Stopped(un) => ReadFrom(ul, un, index)
  }

  /** The constructor as its loop runs: from the newest write to the oldest. */
  method ReadCreateLoop(ul: UpdateList, index: Expr) returns (e: Expr)
    requires WFList(ul) && WF(index) && Width(index) == ul.root.domain
    ensures e == ReadCreate(ul, index)
  {
    var un := ul.head;
    var updateListHasSymbolicWrites := false;
    while un != Null
      invariant WFNodes(ul.root, un)
      invariant Scan(ul.root, un, index) == Scan(ul.root, ul.head, index)
      invariant !updateListHasSymbolicWrites
      decreases un
    {
      var cond := EqCreate(index, un.index);
      if cond.Constant? {
        if cond.value == 1 {
          return un.value;
        }
      } else {
        updateListHasSymbolicWrites := true;
        break;
      }
      un := un.next;
    }
    if IsConstantArray(ul.root) && !updateListHasSymbolicWrites {
      if index.Constant? {
        var concreteIndex := index.value;
        if concreteIndex < ul.root.size {
          return Constant(ul.root.values[concreteIndex], ul.root.range);
        }
      }
    }
    if index.Constant? {
      var concreteIndex := index.value;
      if concreteIndex < ul.root.size {
        return Read(UpdateList(ul.root, un), index);
      }
    }
    return Read(ul, index);
  }

  // ----- the value of a read -----

  lemma {:induction false} ScanSound(root: Array, n: UpdateNode, index: Expr, a: Assignment)
    requires WFNodes(root, n) && WF(index) && Width(index) == root.domain
    ensures match Scan(root, n, index)
            case Found(v) => Lookup(root, n, Eval(index, a), a) == Eval(v, a)
            case Stopped(un) => Lookup(root, n, Eval(index, a), a) == Lookup(root, un, Eval(index, a), a)
    decreases n
  {
    hide Eval, EqCreate;
    match n
    case Null =>
    case Node(ui, uv, next) =>
      var cond := EqCreate(index, ui);
      EqSound(index, ui, a);
      if cond.Constant? {
        ConstValue(cond, a);
        if cond.value != 1 {
          ScanSound(root, next, index, a);
        }
      }
  }

  lemma ReadValue(ul: UpdateList, index: Expr, a: Assignment)
    requires WFList(ul) && WF(index) && Width(index) == ul.root.domain
    ensures WF(Read(ul, index)) && Eval(Read(ul, index), a) == Lookup(ul.root, ul.head, Eval(index, a), a)
  {
  }

  /** A read built with its list rolled back has the value of the plain newest-first lookup in the
      whole list. */
  lemma ReadSound(ul: UpdateList, index: Expr, a: Assignment)
    requires WFList(ul) && WF(index) && Width(index) == ul.root.domain
    ensures Eval(ReadCreate(ul, index), a) == Lookup(ul.root, ul.head, Eval(index, a), a)
  {
    hide Eval, Scan;
    ScanSound(ul.root, ul.head, index, a);
    ReadValue(ul, index, a);
    match Scan(ul.root, ul.head, index)
    case Found(v) =>
    case Stopped(un) =>
      ReadValue(UpdateList(ul.root, un), index, a);
      if index.Constant? && index.value < ul.root.size && IsConstantArray(ul.root) && un.Null? {
        ConstValue(index, a);
        ConstValue(Constant(ul.root.values[index.value], ul.root.range), a);
      }
  }

  // ----- the shape of a read -----

  lemma {:induction false} ScanShape(root: Array, n: UpdateNode, index: Expr)
    requires WFNodes(root, n) && WF(index) && Width(index) == root.domain && FoldedNodes(n)
    ensures match Scan(root, n, index)
            case Found(v) => Compact(v, NodeReads(n))
            case Stopped(un) => FoldedNodes(un) && NodeReads(un) <= NodeReads(n)
    decreases n
  {
    match n
    case Null =>
    case Node(ui, uv, next) => ScanShape(root, next, index);
  }

  lemma ReadShape(ul: UpdateList, index: Expr)
    requires WFList(ul) && WF(index) && Width(index) == ul.root.domain && FoldedNodes(ul.head) && Folded(index)
    ensures Compact(ReadCreate(ul, index), 1 + NodeReads(ul.head) + Reads(index))
  {
    hide Scan;
    ScanShape(ul.root, ul.head, index);
  }

  // ----- constant arrays made from the oldest writes -----

  /** The list from its oldest write: `OldestFirst(n)[0]` was made first. */
  function OldestFirst(n: UpdateNode): seq<(Expr, Expr)> {
    match n
    case Null => []
    case Node(i, v, next) => OldestFirst(next) + [(i, v)]
  }

  /** `extend` applied to the writes of `ws` in turn, on top of `n`. */
  function Extend(n: UpdateNode, ws: seq<(Expr, Expr)>): UpdateNode
    decreases |ws|
  {
    if ws == [] then n else Extend(Node(ws[0].0, ws[0].1, n), ws[1..])
  }

  predicate WFWrites(root: Array, ws: seq<(Expr, Expr)>) {
    forall k :: 0 <= k < |ws| ==>
      WF(ws[k].0) && WF(ws[k].1) && Width(ws[k].0) == root.domain && Width(ws[k].1) == root.range
  }

  lemma {:induction false} OldestFirstTyped(root: Array, n: UpdateNode)
    requires WFNodes(root, n)
    ensures WFWrites(root, OldestFirst(n))
    decreases n
  {
    match n
    case Null =>
    case Node(_, _, next) => OldestFirstTyped(root, next);
  }

  lemma {:induction false} ExtendTyped(root: Array, n: UpdateNode, ws: seq<(Expr, Expr)>)
    requires WFNodes(root, n) && WFWrites(root, ws)
    ensures WFNodes(root, Extend(n, ws))
    decreases |ws|
  {
    if ws != [] {
      ExtendTyped(root, Node(ws[0].0, ws[0].1, n), ws[1..]);
    }
  }

  lemma {:induction false} ExtendSnoc(n: UpdateNode, ws: seq<(Expr, Expr)>, w: (Expr, Expr))
    ensures Extend(n, ws + [w]) == Node(w.0, w.1, Extend(n, ws))
    decreases |ws|
  {
    if ws == [] {
      assert ws + [w] == [w];
      assert Extend(Node(w.0, w.1, n), []) == Node(w.0, w.1, n);
      assert [w][1..] == [];
    } else {
      assert (ws + [w])[1..] == ws[1..] + [w];
      ExtendSnoc(Node(ws[0].0, ws[0].1, n), ws[1..], w);
    }
  }

  lemma {:induction false} ExtendOldest(n: UpdateNode)
    ensures Extend(Null, OldestFirst(n)) == n
  {
    match n
    case Null =>
    case Node(i, v, next) =>
      ExtendOldest(next);
      ExtendSnoc(Null, OldestFirst(next), (i, v));
  }

  /** A write of a constant at a constant index. */
  predicate Concrete(w: (Expr, Expr)) { w.0.Constant? && w.1.Constant? }

  /** Looking up in a list extended with equal writes depends only on what lies below them. */
  lemma {:induction false} ExtendCongruent(root: Array, root': Array, n: UpdateNode, n': UpdateNode,
                                           ws: seq<(Expr, Expr)>, i: nat, a: Assignment)
    requires root.domain == root'.domain && root.range == root'.range
    requires WFNodes(root, n) && WFNodes(root', n') && WFWrites(root, ws)
    requires Lookup(root, n, i, a) == Lookup(root', n', i, a)
    ensures WFNodes(root, Extend(n, ws)) && WFNodes(root', Extend(n', ws))
    ensures Lookup(root, Extend(n, ws), i, a) == Lookup(root', Extend(n', ws), i, a)
    decreases |ws|
  {
    hide Eval;
    if ws != [] {
      var m, m' := Node(ws[0].0, ws[0].1, n), Node(ws[0].0, ws[0].1, n');
      ExtendCongruent(root, root', m, m', ws[1..], i, a);
    }
  }
}
