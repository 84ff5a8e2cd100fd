/** The process tree: live states at its leaves, changed in place when states fork and end, and the random
    descent that picks a state. */
module ProcessTree {
  import opened Collections

  /** -1 is the null pointer. */
  datatype PTreeNode = PTreeNode(parent: int, left: int, right: int, state: Option<int>)

  predicate IsLeaf(n: PTreeNode) { n.left == -1 && n.right == -1 }

  /** Where each state sits. */
  type Tree = map<int, PTreeNode>

  const ROOT := 0

  /** Pointers go both ways, and children were made after their parents. */
  predicate Linked(nodes: Tree, id: int)
    requires id in nodes
  {
    var n := nodes[id];
    && id >= ROOT && (id == ROOT <==> n.parent == -1)
    && (n.left != -1 ==> n.left in nodes && n.left > id && nodes[n.left].parent == id)
    && (n.right != -1 ==> n.right in nodes && n.right > id && nodes[n.right].parent == id)
    && (n.left != -1 ==> n.left != n.right)
    && (id != ROOT ==>
       n.parent in nodes && n.parent < id && (nodes[n.parent].left == id || nodes[n.parent].right == id))
  }

  /** The node has a state exactly if it is a leaf, and the state points back to it. */
  predicate StateOk(n: PTreeNode, id: int, leafOf: map<int, int>) {
    && (IsLeaf(n) <==> n.state.Some?)
    && (n.state.Some? ==> n.state.value in leafOf && leafOf[n.state.value] == id)
  }

  predicate Seated(nodes: Tree, leafOf: map<int, int>, s: int)
    requires s in leafOf
  {
    leafOf[s] in nodes && nodes[leafOf[s]].state == Some(s)
  }

  /** Exactly the leaves have states, each state one leaf; `hole` is a leaf that has lost its state. */
  ghost predicate Shaped(nodes: Tree, leafOf: map<int, int>, hole: int) {
    && ROOT in nodes
    && (forall id :: id in nodes ==> Linked(nodes, id))
    && (forall id :: id in nodes && id != hole ==> StateOk(nodes[id], id, leafOf))
    && (forall s :: s in leafOf ==> leafOf[s] != hole && Seated(nodes, leafOf, s))
    && (hole in nodes ==> IsLeaf(nodes[hole]))
  }

  // ----- the descent -----

  /** With these flips, one for each choice on the way, the descent from `n` ends at `leaf`. */
  predicate Descends(nodes: Tree, n: int, flips: seq<bool>, leaf: int)
    requires n in nodes && forall id :: id in nodes ==> Linked(nodes, id)
    decreases |nodes.Keys - (set id | id in nodes && id < n)|, |flips|
  {
    assert Linked(nodes, n);
    if IsLeaf(nodes[n]) then n == leaf && flips == []
    else if nodes[n].left == -1 then Further(nodes, n, nodes[n].right); Descends(nodes, nodes[n].right, flips, leaf)
    else if nodes[n].right == -1 then Further(nodes, n, nodes[n].left); Descends(nodes, nodes[n].left, flips, leaf)
    else
      flips != [] &&
      var next := if flips[0] then nodes[n].left else nodes[n].right;
      Further(nodes, n, next);
      Descends(nodes, next, flips[1..], leaf)
  }

  /** Going down leaves fewer nodes ahead. */
  lemma Further(nodes: Tree, n: int, child: int)
    requires n in nodes && child in nodes && child > n
    ensures |nodes.Keys - (set id | id in nodes && id < child)| < |nodes.Keys - (set id | id in nodes && id < n)|
  {
    var a, b := nodes.Keys - (set id | id in nodes && id < child), nodes.Keys - (set id | id in nodes && id < n);
    assert n in b && n !in a;
    forall x | x in a
      ensures x in b
    {
    }
    SmallerSet(a, b, n);
  }

  lemma SmallerSet(a: set<int>, b: set<int>, x: int)
    requires a <= b && x in b && x !in a
    ensures |a| < |b|
  {
    assert b == a + (b - a);
    assert |b| == |a| + |b - a|;
    assert x in b - a;
  }

  /** Every leaf is reached from every node above it, hence from the root, by some flips. */
  lemma {:induction false} ReachedFrom(nodes: Tree, n: int, flips: seq<bool>, leaf: int) returns (more: seq<bool>)
    requires n in nodes && (forall id :: id in nodes ==> Linked(nodes, id)) && ROOT in nodes
    requires Descends(nodes, n, flips, leaf)
    ensures Descends(nodes, ROOT, more, leaf)
    decreases n
  {
    assert Linked(nodes, n);
    if n == ROOT {
      more := flips;
    } else {
      var p := nodes[n].parent;
      assert Linked(nodes, p);
      var up := if nodes[p].left != -1 && nodes[p].right != -1 then [nodes[p].left == n] + flips else flips;
      assert up != flips ==> up[1..] == flips;
      assert Descends(nodes, p, up, leaf);
      more := ReachedFrom(nodes, p, up, leaf);
    }
  }

  ghost predicate AllLinked(nodes: Tree) { ROOT in nodes && forall id :: id in nodes ==> Linked(nodes, id) }

  /** The coin falls as the flips say. */
  predicate Falls(flip: nat -> bool, flips: seq<bool>) { forall k :: 0 <= k < |flips| ==> flips[k] == flip(k) }

  /** Flips that agree as far as both go lead to the same leaf. */
  lemma {:induction false} DescentUnique(nodes: Tree, n: int, flips: seq<bool>, leaf: int, flips': seq<bool>,
                                         leaf': int)
    requires AllLinked(nodes) && n in nodes && Descends(nodes, n, flips, leaf) && Descends(nodes, n, flips', leaf')
    requires forall k :: 0 <= k < |flips| && k < |flips'| ==> flips[k] == flips'[k]
    ensures leaf == leaf'
    decreases |nodes.Keys - (set id | id in nodes && id < n)|, |flips|
  {
    assert Linked(nodes, n);
    var node := nodes[n];
    if IsLeaf(node) {
    } else if node.left == -1 {
      Further(nodes, n, node.right);
      DescentUnique(nodes, node.right, flips, leaf, flips', leaf');
    } else if node.right == -1 {
      Further(nodes, n, node.left);
      DescentUnique(nodes, node.left, flips, leaf, flips', leaf');
    } else {
      Further(nodes, n, node.left);
      Further(nodes, n, node.right);
      assert flips[0] == flips'[0];
      DescentUnique(nodes, if flips[0] then node.left else node.right, flips[1..], leaf, flips'[1..], leaf');
    }
  }

  /** After these flips the descent from the root is at `n`. */
  ghost predicate Leads(nodes: Tree, taken: seq<bool>, n: int)
    requires AllLinked(nodes) && n in nodes
  {
    forall flips, leaf :: Descends(nodes, n, flips, leaf) ==> Descends(nodes, ROOT, taken + flips, leaf)
  }

  lemma LeadsNowhere(nodes: Tree)
    requires AllLinked(nodes)
    ensures Leads(nodes, [], ROOT)
  {
    hide Descends;
    assert forall flips: seq<bool> :: [] + flips == flips;
  }

  function Next(node: PTreeNode, flip: bool): int {
    if node.left == -1 then node.right else if node.right ==
      -1 then node.left else if flip then node.left else node.right
  }

  function Flipped(node: PTreeNode, flip: bool): seq<bool> {
    if node.left == -1 || node.right == -1 then [] else [flip]
  }

  /** One step down; only a node with two children takes a flip. */
  lemma LeadsOn(nodes: Tree, taken: seq<bool>, n: int, flip: bool)
    requires AllLinked(nodes) && n in nodes && !IsLeaf(nodes[n]) && Leads(nodes, taken, n)
    ensures Next(nodes[n], flip) in nodes
    ensures Leads(nodes, taken + Flipped(nodes[n], flip), Next(nodes[n], flip))
  {
    assert Linked(nodes, n);
    var m, f := Next(nodes[n], flip), Flipped(nodes[n], flip);
    hide Linked, Descends, Next, Flipped;
    forall flips, leaf | Descends(nodes, m, flips, leaf)
      ensures Descends(nodes, ROOT, taken + f + flips, leaf)
    {
      DescendsOn(nodes, n, flip, flips, leaf);
      assert taken + f + flips == taken + (f + flips);
    }
  }

  lemma DescendsOn(nodes: Tree, n: int, flip: bool, flips: seq<bool>, leaf: int)
    requires AllLinked(nodes) && n in nodes && !IsLeaf(nodes[n])
    requires Descends(nodes, Next(nodes[n], flip), flips, leaf)
    ensures Descends(nodes, n, Flipped(nodes[n], flip) + flips, leaf)
  {
    assert Linked(nodes, n);
    var f := Flipped(nodes[n], flip);
    assert f != [] ==> (f + flips)[1..] == flips;
    assert f == [] ==> f + flips == flips;
  }

  lemma FallsOn(node: PTreeNode, flip: nat -> bool, taken: seq<bool>)
    requires Falls(flip, taken)
    ensures var f := Flipped(node, flip(|taken|));
      Falls(flip, taken + f) && |f| == if node.left == -1 || node.right == -1 then 0 else 1
  {
  }

  lemma NoFlips(flip: nat -> bool)
    ensures Falls(flip, [])
  {
  }

  lemma FallAlike(flip: nat -> bool, flips: seq<bool>, flips': seq<bool>)
    requires Falls(flip, flips) && Falls(flip, flips')
    ensures forall k :: 0 <= k < |flips| && k < |flips'| ==> flips[k] == flips'[k]
  {
  }

  lemma LeadsToLeaf(nodes: Tree, taken: seq<bool>, n: int)
    requires AllLinked(nodes) && n in nodes && IsLeaf(nodes[n]) && Leads(nodes, taken, n)
    ensures Descends(nodes, ROOT, taken, n)
  {
    assert Descends(nodes, n, [], n);
    assert taken + [] == taken;
  }

  lemma EveryLeafReached(nodes: Tree, leafOf: map<int, int>, s: int)
    requires Shaped(nodes, leafOf, -1) && s in leafOf
    ensures exists flips :: Descends(nodes, ROOT, flips, leafOf[s])
  {
    assert Descends(nodes, leafOf[s], [], leafOf[s]);
    var flips := ReachedFrom(nodes, leafOf[s], [], leafOf[s]);
  }

  /** A tree whose root is a leaf has no other node. */
  lemma {:induction false} OnlyRoot(nodes: Tree, id: int)
    requires (forall i :: i in nodes ==> Linked(nodes, i)) && ROOT in nodes && IsLeaf(nodes[ROOT]) && id in nodes
    ensures id == ROOT
    decreases id
  {
    assert Linked(nodes, id);
    if id != ROOT {
      OnlyRoot(nodes, nodes[id].parent);
    }
  }

  function Attached(nodes: Tree, next: int, node: int, leftState: int, rightState: int): Tree
    requires node in nodes
  {
    nodes[node := nodes[node].(state := None, left := next, right := next + 1)]
         [next := PTreeNode(node, -1, -1, Some(leftState))]
         [next + 1 := PTreeNode(node, -1, -1, Some(rightState))]
  }

  lemma AttachedAt(nodes: Tree, next: int, node: int, leftState: int, rightState: int)
    requires node in nodes && forall i :: i in nodes ==> i < next
    ensures var nodes' := Attached(nodes, next, node, leftState, rightState);
            && nodes'.Keys == nodes.Keys + {next, next + 1}
            && (forall id :: id in nodes && id != node ==> nodes'[id] == nodes[id])
            && nodes'[node] == PTreeNode(nodes[node].parent, next, next + 1, None)
            && nodes'[next] == PTreeNode(node, -1, -1, Some(leftState))
            && nodes'[next + 1] == PTreeNode(node, -1, -1, Some(rightState))
  {
  }

  lemma AttachedLinked(nodes: Tree, next: int, node: int, leftState: int, rightState: int, id: int)
    requires (forall i :: i in nodes ==> Linked(nodes, i) && i < next) && ROOT in nodes && -1 !in nodes
    requires node in nodes && IsLeaf(nodes[node])
    requires id in Attached(nodes, next, node, leftState, rightState)
    ensures Linked(Attached(nodes, next, node, leftState, rightState), id)
  {
    AttachedAt(nodes, next, node, leftState, rightState);
    hide Attached;
    assert Linked(nodes, node) && ROOT < next;
    if id in nodes {
      assert Linked(nodes, id);
      var n := nodes[id];
      assert n.left == -1 || Linked(nodes, n.left);
      assert n.right == -1 || Linked(nodes, n.right);
    }
  }

  lemma AttachedSeats(nodes: Tree, leafOf: map<int, int>, next: int, node: int, leftState: int, rightState: int)
    requires Shaped(nodes, leafOf, -1) && (forall i :: i in nodes ==> i < next) && -1 !in nodes
    requires node in nodes && IsLeaf(nodes[node]) && leftState !in leafOf && nodes[node].state == Some(rightState)
    ensures var nodes', leafOf' := Attached(nodes, next, node, leftState, rightState),
            leafOf[leftState := next][rightState := next + 1];
            && rightState in leafOf && leafOf[rightState] == node
            && (forall id :: id in nodes' ==> StateOk(nodes'[id], id, leafOf'))
            && forall s :: s in leafOf' ==> leafOf'[s] != -1 && Seated(nodes', leafOf', s)
  {
    var nodes', leafOf' := Attached(nodes, next, node, leftState, rightState),
      leafOf[leftState := next][rightState := next + 1];
    AttachedAt(nodes, next, node, leftState, rightState);
    assert ROOT in nodes && ROOT < next;
    hide Attached, Linked;
    assert StateOk(nodes[node], node, leafOf);
    forall id | id in nodes'
      ensures StateOk(nodes'[id], id, leafOf')
    {
      if id in nodes && id != node {
        assert StateOk(nodes[id], id, leafOf);
      }
    }
    forall s | s in leafOf'
      ensures leafOf'[s] != -1 && Seated(nodes', leafOf', s)
    {
      if s in leafOf && s != rightState {
        assert Seated(nodes, leafOf, s);
      }
    }
  }

  lemma AttachedShaped(nodes: Tree, leafOf: map<int, int>, next: int, node: int, leftState: int, rightState: int)
    requires Shaped(nodes, leafOf, -1) && (forall i :: i in nodes ==> i < next) && -1 !in nodes
    requires node in nodes && IsLeaf(nodes[node]) && leftState !in leafOf && nodes[node].state == Some(rightState)
    ensures var nodes' := Attached(nodes, next, node, leftState, rightState);
            && Shaped(nodes', leafOf[leftState := next][rightState := next + 1], -1) && rightState in leafOf
            && -1 !in nodes' && (forall i :: i in nodes' ==> i < next + 2)
            && next in nodes' && next + 1 in nodes' && nodes'[next].parent == nodes'[next + 1].parent == node
  {
    var nodes' := Attached(nodes, next, node, leftState, rightState);
    AttachedAt(nodes, next, node, leftState, rightState);
    AttachedSeats(nodes, leafOf, next, node, leftState, rightState);
    assert ROOT < next;
    hide Attached;
    forall id | id in nodes'
      ensures Linked(nodes', id)
    {
      AttachedLinked(nodes, next, node, leftState, rightState, id);
    }
    hide Linked, StateOk, Seated;
  }

  /** The node is unlinked from its parent and goes. */
  function Unlinked(nodes: Tree, n: int): Tree
    requires n in nodes && nodes[n].parent in nodes
  {
    var p := nodes[n].parent;
    var q := if nodes[p].left == n then nodes[p].(left := -1) else nodes[p].(right := -1);
    nodes[p := q] - {n}
  }

  lemma UnlinkedAt(nodes: Tree, n: int)
    requires n in nodes && nodes[n].parent in nodes && nodes[n].parent != n
    ensures var nodes', p := Unlinked(nodes, n), nodes[n].parent;
            && nodes'.Keys == nodes.Keys - {n} && (forall id :: id in nodes' && id != p ==> nodes'[id] == nodes[id])
            && nodes'[p] == if nodes[p].left == n then nodes[p].(left := -1) else nodes[p].(right := -1)
  {
  }

  lemma UnlinkedLinked(nodes: Tree, n: int, id: int)
    requires (forall i :: i in nodes ==> Linked(nodes, i)) && n in nodes && n != ROOT && IsLeaf(nodes[n])
             && -1 !in nodes
    requires nodes[n].parent in nodes && id in nodes && id != n
    ensures Linked(Unlinked(nodes, n), id)
  {
    var p := nodes[n].parent;
    assert Linked(nodes, n) && Linked(nodes, p) && Linked(nodes, id);
    UnlinkedAt(nodes, n);
    hide Unlinked;
    var x := nodes[id];
    assert x.left == -1 || Linked(nodes, x.left);
    assert x.right == -1 || Linked(nodes, x.right);
    assert id == ROOT || Linked(nodes, x.parent);
  }

  /** Without the hole the tree is whole again, or the hole is now at the parent. */
  lemma UnlinkedShaped(nodes: Tree, leafOf: map<int, int>, n: int)
    requires Shaped(nodes, leafOf, n) && n in nodes && n != ROOT && -1 !in nodes
    ensures var p := nodes[n].parent;
            && p in nodes && p < n && p in Unlinked(nodes, n) && Unlinked(nodes, n).Keys == nodes.Keys - {n}
            && Shaped(Unlinked(nodes, n), leafOf, if IsLeaf(Unlinked(nodes, n)[p]) then p else -1)
  {
    var p := nodes[n].parent;
    assert Linked(nodes, n) && Linked(nodes, p);
    assert StateOk(nodes[p], p, leafOf);
    UnlinkedAt(nodes, n);
    var nodes' := Unlinked(nodes, n);
    hide Unlinked;
    forall id | id in nodes'
      ensures Linked(nodes', id)
    {
      UnlinkedLinked(nodes, n, id);
    }
    hide Linked;
    forall s | s in leafOf
      ensures leafOf[s] != p && leafOf[s] != -1 && Seated(nodes', leafOf, s)
    {
      assert Seated(nodes, leafOf, s);
    }
    forall id | id in nodes' && id != p
      ensures StateOk(nodes'[id], id, leafOf)
    {
      assert StateOk(nodes[id], id, leafOf);
    }
  }

  /** A leaf that has lost its state. */
  lemma HoleMade(nodes: Tree, leafOf: map<int, int>, s: int)
    requires Shaped(nodes, leafOf, -1) && s in leafOf
    ensures leafOf[s] in nodes && Shaped(nodes, leafOf - {s}, leafOf[s])
  {
    var n := leafOf[s];
    assert Seated(nodes, leafOf, s) && StateOk(nodes[n], n, leafOf);
    hide Linked;
    forall t | t in leafOf - {s}
      ensures (leafOf - {s})[t] != n && Seated(nodes, leafOf - {s}, t)
    {
      assert Seated(nodes, leafOf, t);
    }
    forall id | id in nodes && id != n
      ensures StateOk(nodes[id], id, leafOf - {s})
    {
      assert StateOk(nodes[id], id, leafOf);
    }
  }

  lemma SeatsKnown(nodes: Tree, leafOf: map<int, int>, hole: int)
    requires Shaped(nodes, leafOf, hole)
    ensures forall s :: s in leafOf ==> leafOf[s] in nodes && leafOf[s] != hole
  {
    forall s | s in leafOf
      ensures leafOf[s] in nodes
    {
      assert Seated(nodes, leafOf, s);
    }
  }

  /** If the root is the hole there is nothing else. */
  lemma HoleAtRoot(nodes: Tree, leafOf: map<int, int>)
    requires Shaped(nodes, leafOf, ROOT)
    ensures leafOf == map[] && nodes.Keys == {ROOT}
  {
    SeatsKnown(nodes, leafOf, ROOT);
    hide Seated;
    forall id | id in nodes
      ensures id == ROOT
    {
      OnlyRoot(nodes, id);
    }
    forall s
      ensures s !in leafOf
    {
    }
  }

  class PTree {
    var nodes: Tree
    /** The node each state points to. */
    var leafOf: map<int, int>
    var next: int

    ghost predicate Valid()
      reads this
    {
      Shaped(nodes, leafOf, -1) && -1 !in nodes && forall id :: id in nodes ==> id < next
    }

    constructor (initialState: int)
      ensures Valid() && leafOf.Keys == {initialState}
    {
      nodes := map[ROOT := PTreeNode(-1, -1, -1, Some(initialState))];
      leafOf := map[initialState := ROOT];
      next := 1;
    }

    /** A leaf becomes an inner node over its state and a new one. */
    method Attach(node: int, leftState: int, rightState: int)
      requires Valid() && node in nodes && IsLeaf(nodes[node])
      requires leftState !in leafOf && nodes[node].state == Some(rightState)
      modifies this
      ensures Valid() && leafOf.Keys == old(leafOf.Keys) + {leftState}
      ensures forall s :: s in old(leafOf) && s != rightState ==> leafOf[s] == old(leafOf)[s]
      ensures nodes[leafOf[leftState]].parent == nodes[leafOf[rightState]].parent == node
    {
      hide Shaped, Attached;
      AttachedShaped(nodes, leafOf, next, node, leftState, rightState);
      nodes := Attached(nodes, next, node, leftState, rightState);
      leafOf := leafOf[leftState := next][rightState := next + 1];
      next := next + 2;
    }

    /** The state's leaf goes, and with it every node above that has no child left. When the last state goes
        the bare root stays behind. */
    method Remove(state: int)
      requires Valid() && state in leafOf
      modifies this
      ensures leafOf == old(leafOf) - {state}
      ensures if leafOf == map[] then nodes.Keys == {ROOT} else Valid()
    {
      hide Shaped, Unlinked, Linked;
      HoleMade(nodes, leafOf, state);
      var n := leafOf[state];
      leafOf := leafOf - {state};
      var childless := true;
      while childless
        invariant n in nodes && Shaped(nodes, leafOf, if childless then n else -1)
        invariant -1 !in nodes && forall id :: id in nodes ==> id < next
        invariant leafOf == old(leafOf) - {state}
        decreases n, childless
      {
        RootLinked(nodes, leafOf, n);
        if nodes[n].parent == -1 {
          HoleAtRoot(nodes, leafOf);
          return;
        }
        UnlinkedShaped(nodes, leafOf, n);
        var p := nodes[n].parent;
        nodes := Unlinked(nodes, n);
        n := p;
        childless := IsLeaf(nodes[n]);
      }
      WholeNotEmpty(nodes, leafOf, n);
    }

    /** The descent always ends at a live state, the one its flips lead to. */
    method SelectState(flip: nat -> bool) returns (state: int)
      requires Valid()
      ensures state in leafOf && AllLinked(nodes)
      ensures forall flips, leaf :: Descends(nodes, ROOT, flips, leaf) && Falls(flip, flips) ==> leaf == leafOf[state]
    {
      hide Descends, Leads, Falls, Flipped;
      var n := ROOT;
      var bits := 0;
      ghost var taken: seq<bool> := [];
      LeadsNowhere(nodes);
      NoFlips(flip);
      while nodes[n].state.None?
        invariant n in nodes && Leads(nodes, taken, n) && Falls(flip, taken) && |taken| == bits
        decreases next - n
      {
        assert StateOk(nodes[n], n, leafOf) && Linked(nodes, n);
        LeadsOn(nodes, taken, n, flip(bits));
        FallsOn(nodes[n], flip, taken);
        taken := taken + Flipped(nodes[n], flip(bits));
        if nodes[n].left == -1 {
          n := nodes[n].right;
        } else if nodes[n].right == -1 {
          n := nodes[n].left;
        } else {
          n := if flip(bits) then nodes[n].left else nodes[n].right;
          bits := bits + 1;
        }
      }
      assert StateOk(nodes[n], n, leafOf);
      state := nodes[n].state.value;
      LeadsToLeaf(nodes, taken, n);
      forall flips, leaf | Descends(nodes, ROOT, flips, leaf) && Falls(flip, flips)
        ensures leaf == n
      {
        FallAlike(flip, flips, taken);
        DescentUnique(nodes, ROOT, flips, leaf, taken, n);
      }
    }
  }

  lemma RootLinked(nodes: Tree, leafOf: map<int, int>, n: int)
    requires n in nodes && Shaped(nodes, leafOf, n)
    ensures nodes[n].parent == -1 <==> n == ROOT
    ensures n >= ROOT
  {
    assert Linked(nodes, n);
  }

  /** A whole tree has a live state. */
  lemma WholeNotEmpty(nodes: Tree, leafOf: map<int, int>, n: int)
    requires Shaped(nodes, leafOf, -1) && n in nodes
    ensures leafOf != map[]
  {
    var leaf := SomeLeaf(nodes, n);
    assert StateOk(nodes[leaf], leaf, leafOf);
    assert nodes[leaf].state.value in leafOf;
  }

  lemma {:induction false} SomeLeaf(nodes: Tree, n: int) returns (leaf: int)
    requires n in nodes && forall id :: id in nodes ==> Linked(nodes, id)
    ensures leaf in nodes && IsLeaf(nodes[leaf]) && leaf != -1
    decreases |nodes.Keys - (set id | id in nodes && id < n)|
  {
    assert Linked(nodes, n);
    if IsLeaf(nodes[n]) {
      leaf := n;
    } else {
      var child := if nodes[n].left != -1 then nodes[n].left else nodes[n].right;
      Further(nodes, n, child);
      leaf := SomeLeaf(nodes, child);
    }
  }
}
