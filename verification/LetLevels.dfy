/** Printing a query with let bindings for the expressions that occur more than once: the bindings are put
    into levels, each of which may use the ones before it. */
module LetLevels {
  import opened Collections
  import opened Exprs
  import opened Visitor

  // ----- printed terms -----

  /** A printed expression: a name stands for a binding. */
  datatype Text =
    | Name(n: int)
    | ConstantText(value: nat, width: nat)
    | ReadText(root: Array, writes: WritesText, index: Text)
    | SelectText(cond: Text, trueText: Text, falseText: Text)
    | ConcatText(left: Text, right: Text)
    | ExtractText(text: Text, offset: nat, width: nat)
    | ZExtText(text: Text, width: nat)
    | SExtText(text: Text, width: nat)
    | NotText(text: Text)
    | BinaryText(kind: Kind, left: Text, right: Text)
  datatype WritesText = NoWrites | Store(index: Text, value: Text, inner: WritesText)

  type Bindings = map<Expr, int>

  /** A bound expression is printed as its name, any other in full, the writes behind a read included. */
  function Print(e: Expr, b: Bindings): Text
    decreases e, 1
  {
    if e in b then Name(b[e]) else PrintFull(e, b)
  }

  function PrintFull(e: Expr, b: Bindings): Text
    decreases e, 0
  {
    match e
    case Constant(v, w) => ConstantText(v, w)
    case Read(ul, i) => ReadText(ul.root, PrintWrites(ul.head, b), Print(i, b))
    case Select(c, t, f) => SelectText(Print(c, b), Print(t, b), Print(f, b))
    case Concat(l, r) => ConcatText(Print(l, b), Print(r, b))
    case Extract(x, off, w) => ExtractText(Print(x, b), off, w)
    case ZExt(x, w) => ZExtText(Print(x, b), w)
    case SExt(x, w) => SExtText(Print(x, b), w)
    case Not(x) => NotText(Print(x, b))
    case Binary(k, l, r) => BinaryText(k, Print(l, b), Print(r, b))
  }

  function PrintWrites(n: UpdateNode, b: Bindings): WritesText
    decreases n, 1
  {
    match n
    case Null => NoWrites
    case Node(i, v, next) => Store(Print(i, b), Print(v, b), PrintWrites(next, b))
  }

  /** The names a text uses are all bound. */
  predicate Bound(t: Text, env: map<int, Expr>)
    decreases t
  {
    match t
    case Name(n) => n in env
    case ConstantText(_, _) => true
    case ReadText(_, w, i) => BoundWrites(w, env) && Bound(i, env)
    case SelectText(c, x, y) => Bound(c, env) && Bound(x, env) && Bound(y, env)
    case ConcatText(l, r) => Bound(l, env) && Bound(r, env)
    case ExtractText(x, _, _) => Bound(x, env)
    case ZExtText(x, _) => Bound(x, env)
    case SExtText(x, _) => Bound(x, env)
    case NotText(x) => Bound(x, env)
    case BinaryText(_, l, r) => Bound(l, env) && Bound(r, env)
  }

  predicate BoundWrites(w: WritesText, env: map<int, Expr>)
    decreases w
  {
    match w
    case NoWrites => true
    case Store(i, v, inner) => Bound(i, env) && Bound(v, env) && BoundWrites(inner, env)
  }

  /** The expression a text stands for when names stand for the expressions they are bound to. */
  function Expand(t: Text, env: map<int, Expr>): Expr
    requires Bound(t, env)
    decreases t
  {
    match t
    case Name(n) => env[n]
    case ConstantText(v, w) => Constant(v, w)
    case ReadText(r, w, i) => Read(UpdateList(r, ExpandWrites(w, env)), Expand(i, env))
    case SelectText(c, x, y) => Select(Expand(c, env), Expand(x, env), Expand(y, env))
    case ConcatText(l, r) => Concat(Expand(l, env), Expand(r, env))
    case ExtractText(x, off, w) => Extract(Expand(x, env), off, w)
    case ZExtText(x, w) => ZExt(Expand(x, env), w)
    case SExtText(x, w) => SExt(Expand(x, env), w)
    case NotText(x) => Not(Expand(x, env))
    case BinaryText(k, l, r) => Binary(k, Expand(l, env), Expand(r, env))
  }

  function ExpandWrites(w: WritesText, env: map<int, Expr>): UpdateNode
    requires BoundWrites(w, env)
    decreases w
  {
    match w
    case NoWrites => Null
    case Store(i, v, inner) => Node(Expand(i, env), Expand(v, env), ExpandWrites(inner, env))
  }

  /** Every name stands for its expression. */
  predicate Inverse(b: Bindings, env: map<int, Expr>) { forall x :: x in b ==> b[x] in env && env[b[x]] == x }

  lemma {:induction false} PrintExact(e: Expr, b: Bindings, env: map<int, Expr>)
    requires Inverse(b, env)
    ensures Bound(Print(e, b), env) && Expand(Print(e, b), env) == e
    decreases e, 1
  {
    if e !in b {
      PrintFullExact(e, b, env);
    }
  }

  lemma {:induction false} PrintFullExact(e: Expr, b: Bindings, env: map<int, Expr>)
    requires Inverse(b, env)
    ensures Bound(PrintFull(e, b), env) && Expand(PrintFull(e, b), env) == e
    decreases e, 0
  {
    match e
    case Constant(_, _) =>
    case Read(ul, i) => PrintWritesExact(ul.head, b, env); PrintExact(i, b, env);
    case Select(c, t, f) => PrintExact(c, b, env); PrintExact(t, b, env); PrintExact(f, b, env);
    case Concat(l, r) => PrintExact(l, b, env); PrintExact(r, b, env);
    case Extract(x, _, _) => PrintExact(x, b, env);
    case ZExt(x, _) => PrintExact(x, b, env);
    case SExt(x, _) => PrintExact(x, b, env);
    case Not(x) => PrintExact(x, b, env);
    case Binary(_, l, r) => PrintExact(l, b, env); PrintExact(r, b, env);
  }

  lemma {:induction false} PrintWritesExact(n: UpdateNode, b: Bindings, env: map<int, Expr>)
    requires Inverse(b, env)
    ensures BoundWrites(PrintWrites(n, b), env) && ExpandWrites(PrintWrites(n, b), env) == n
    decreases n, 1
  {
    match n
    case Null =>
    case Node(i, v, next) => PrintExact(i, b, env); PrintExact(v, b, env); PrintWritesExact(next, b, env);
  }

  // ----- nested lets -----

  /** The values of one level see the levels outside only. */
  ghost predicate LetsBound(lets: seq<map<int, Text>>, body: Text, env: map<int, Expr>) {
    if lets == [] then Bound(body, env)
    else (forall n :: n in lets[0] ==> Bound(lets[0][n], env)) && LetsBound(lets[1..], body, Extended(lets[0], env))
  }

  /** A parallel let (section 3.6 of The SMT-LIB Standard, version 2.6): all values in the outer scope. */
  function Extended(level: map<int, Text>, env: map<int, Expr>): map<int, Expr> {
    env + map n | n in level :: if Bound(level[n], env) then Expand(level[n], env) else Constant(0, 1)
  }

  function ExpandLets(lets: seq<map<int, Text>>, body: Text, env: map<int, Expr>): Expr
    requires LetsBound(lets, body, env)
  {
    if lets == [] then Expand(body, env) else ExpandLets(lets[1..], body, Extended(lets[0], env))
  }

  /** Levels that bind different expressions to different numbers. */
  ghost predicate Separate(levels: seq<Bindings>) {
    && (forall i, x, y :: 0 <= i < |levels| && x in levels[i] && y in levels[i] && x != y ==>
       levels[i][x] != levels[i][y])
    && (forall i, j, x, y :: 0 <= i < j < |levels| && x in levels[i] && y in levels[j] ==>
       levels[i][x] != levels[j][y] && x != y)
  }

  /** The levels bind no expression and no number again. */
  ghost predicate Apart(b: Bindings, levels: seq<Bindings>) {
    forall i, x, y :: x in b && 0 <= i < |levels| && y in levels[i] ==> b[x] != levels[i][y] && x != y
  }

  /** One level as it is printed after the bindings `b`. */
  ghost predicate LevelText(level: Bindings, b: Bindings, text: map<int, Text>) {
    && (forall x :: x in level ==> level[x] in text && text[level[x]] == Print(x, b))
    && forall n :: n in text ==> exists x :: x in level && level[x] == n
  }

  ghost predicate LetsText(levels: seq<Bindings>, e: Expr, b: Bindings, lets: seq<map<int, Text>>, body: Text) {
    if levels == [] then lets == [] && body == Print(e, b)
    else lets != [] && LevelText(levels[0], b, lets[0]) && LetsText(levels[1..], e, b + levels[0], lets[1..], body)
  }

  lemma LevelExact(level: Bindings, b: Bindings, text: map<int, Text>, env: map<int, Expr>)
    requires Separate([level]) && Apart(b, [level]) && Inverse(b, env) && LevelText(level, b, text)
    ensures forall n :: n in text ==> Bound(text[n], env)
    ensures Inverse(b + level, Extended(text, env))
  {
    hide Print;
    forall x | x in level
      ensures text[level[x]] == Print(x, b) && Bound(Print(x, b), env) && Expand(Print(x, b), env) == x
    {
      PrintExact(x, b, env);
    }
    forall x, y | x in b && y in level
      ensures b[x] != level[y]
    {
      assert y in [level][0];
    }
    forall n | n in text
      ensures forall x :: x in b ==> b[x] != n
    {
      var y :| y in level && level[y] == n;
    }
    var now := Extended(text, env);
    forall x | x in b + level
      ensures (b + level)[x] in now && now[(b + level)[x]] == x
    {
      if x in level {
        assert level[x] in text;
      }
    }
  }

  lemma SeparateRest(levels: seq<Bindings>, b: Bindings)
    requires Separate(levels) && levels != [] && Apart(b, levels)
    ensures Separate([levels[0]]) && Separate(levels[1..]) && Apart(b, [levels[0]]) && Apart(b + levels[0], levels[1..])
  {
    forall i, x, y | x in b + levels[0] && 0 <= i < |levels[1..]| && y in levels[1..][i]
      ensures (b + levels[0])[x] != levels[1..][i][y] && x != y
    {
      assert levels[1..][i] == levels[i + 1];
      if x in levels[0] {
        assert levels[0][x] != levels[i + 1][y];
      } else {
        assert b[x] != levels[i + 1][y];
      }
    }
    forall i, j, x, y | 0 <= i < j < |levels[1..]| && x in levels[1..][i] && y in levels[1..][j]
      ensures levels[1..][i][x] != levels[1..][j][y] && x != y
    {
      assert levels[1..][i] == levels[i + 1] && levels[1..][j] == levels[j + 1];
    }
  }

  /** Whatever the levels, the nested lets use bound names only and stand for the original expression. */
  lemma {:induction false} LetsExact(levels: seq<Bindings>, e: Expr, b: Bindings, lets: seq<map<int, Text>>,
                                     body: Text, env: map<int, Expr>)
    requires Separate(levels) && Apart(b, levels) && Inverse(b, env) && LetsText(levels, e, b, lets, body)
    ensures LetsBound(lets, body, env) && ExpandLets(lets, body, env) == e
    decreases |levels|
  {
    if levels == [] {
      PrintExact(e, b, env);
    } else {
      SeparateRest(levels, b);
      LevelExact(levels[0], b, lets[0], env);
      LetsExact(levels[1..], e, b + levels[0], lets[1..], body, Extended(lets[0], env));
    }
  }

  lemma {:induction false} LetsSnoc(levels: seq<Bindings>, level: Bindings, e: Expr, b: Bindings, b': Bindings,
                                    lets: seq<map<int, Text>>, text: map<int, Text>)
    requires LetsText(levels, e, b, lets, Print(e, b')) && b' == All(b, levels) && LevelText(level, b', text)
    ensures LetsText(levels + [level], e, b, lets + [text], Print(e, b' + level))
            && All(b, levels + [level]) == b' + level
    decreases |levels|
  {
    if levels == [] {
      assert ([] + [level])[0] == level && ([] + [level])[1..] == [] && ([] + [text])[1..] == [];
      assert lets + [text] == [text];
    } else {
      assert (levels + [level])[1..] == levels[1..] + [level] && (lets + [text])[1..] == lets[1..] + [text];
      LetsSnoc(levels[1..], level, e, b + levels[0], b', lets[1..], text);
    }
  }

  function All(b: Bindings, levels: seq<Bindings>): Bindings
    decreases |levels|
  {
    if levels == [] then b else All(b + levels[0], levels[1..])
  }

  /** Prints the levels one inside the other, and the expression innermost. */
  method PrintAssert(levels: seq<Bindings>, e: Expr) returns (lets: seq<map<int, Text>>, body: Text)
    requires Separate(levels)
    ensures LetsBound(lets, body, map[]) && ExpandLets(lets, body, map[]) == e
  {
    hide Print, LetsBound, ExpandLets;
    var bindings: Bindings := map[];
    lets := [];
    for i := 0 to |levels|
      invariant bindings == All(map[], levels[..i]) && LetsText(levels[..i], e, map[], lets, Print(e, bindings))
    {
      var levelBindings := levels[i];
      var text: map<int, Text> := map[];
      var todo := levelBindings.Keys;
      while todo != {}
        invariant todo <= levelBindings.Keys
        invariant forall x :: x in levelBindings && x !in todo ==>
                  levelBindings[x] in text && text[levelBindings[x]] == Print(x, bindings)
        invariant forall n :: n in text ==> exists x :: x in levelBindings && x !in todo && levelBindings[x] == n
      {
        var x :| x in todo;
        assert forall y :: y in levelBindings && y != x ==> levelBindings[y] != levelBindings[x];
        ghost var before, had := text, todo;
        text := text[levelBindings[x] := Print(x, bindings)];
        todo := todo - {x};
        forall n | n in text
          ensures exists y :: y in levelBindings && y !in todo && levelBindings[y] == n
        {
          if n == levelBindings[x] {
            assert x in levelBindings && x !in todo;
          } else {
            var y :| y in levelBindings && y !in had && levelBindings[y] == n;
            assert y !in todo;
          }
        }
      }
      LetsSnoc(levels[..i], levelBindings, e, map[], bindings, lets, text);
      assert levels[..i + 1] == levels[..i] + [levels[i]];
      lets := lets + [text];
      bindings := bindings + levelBindings;
    }
    assert levels[..|levels|] == levels;
    body := Print(e, bindings);
    LetsExact(levels, e, map[], lets, body, map[]);
  }

  // ----- which bindings a binding uses -----

  /** The bound expressions met first on the way down through the kids; what lies below them is theirs. */
  function Uses(e: Expr, b: set<Expr>): set<Expr>
    decreases e, 0
  {
    match e
    case Constant(_, _) => {}
    case Read(_, i) => UsesAt(i, b)
    case Select(c, t, f) => UsesAt(c, b) + UsesAt(t, b) + UsesAt(f, b)
    case Concat(l, r) => UsesAt(l, b) + UsesAt(r, b)
    case Extract(x, _, _) => UsesAt(x, b)
    case ZExt(x, _) => UsesAt(x, b)
    case SExt(x, _) => UsesAt(x, b)
    case Not(x) => UsesAt(x, b)
    case Binary(_, l, r) => UsesAt(l, b) + UsesAt(r, b)
  }

  function UsesAt(k: Expr, b: set<Expr>): set<Expr>
    decreases k, 1
  {
    if k.Constant? then {} else if k in b then {k} else Uses(k, b)
  }

  lemma {:induction false} UsesSmaller(e: Expr, b: set<Expr>)
    ensures forall x :: x in Uses(e, b) ==> x in b && !x.Constant? && Size(x) < Size(e)
    decreases e, 0
  {
    match e
    case Constant(_, _) =>
    case Read(_, i) => UsesAtSmaller(i, b);
    case Select(c, t, f) => UsesAtSmaller(c, b); UsesAtSmaller(t, b); UsesAtSmaller(f, b);
    case Concat(l, r) => UsesAtSmaller(l, b); UsesAtSmaller(r, b);
    case Extract(x, _, _) => UsesAtSmaller(x, b);
    case ZExt(x, _) => UsesAtSmaller(x, b);
    case SExt(x, _) => UsesAtSmaller(x, b);
    case Not(x) => UsesAtSmaller(x, b);
    case Binary(_, l, r) => UsesAtSmaller(l, b); UsesAtSmaller(r, b);
  }

  lemma {:induction false} UsesAtSmaller(k: Expr, b: set<Expr>)
    ensures forall x :: x in UsesAt(k, b) ==> x in b && !x.Constant? && Size(x) <= Size(k)
    decreases k, 1
  {
    if !k.Constant? && k !in b {
      UsesSmaller(k, b);
    }
  }

  function UsesOfKids(ks: seq<Expr>, b: set<Expr>): set<Expr> {
    if ks == [] then {} else UsesOfKids(ks[..|ks| - 1], b) + UsesAt(ks[|ks| - 1], b)
  }

  function UsesOfAll(es: seq<Expr>, b: set<Expr>): set<Expr> {
    if es == [] then {} else UsesOfAll(es[..|es| - 1], b) + Uses(es[|es| - 1], b)
  }

  function TotalSize(es: seq<Expr>): nat {
    if es == [] then 0 else TotalSize(es[..|es| - 1]) + Size(es[|es| - 1])
  }

  lemma UsesOne(k: Expr, b: set<Expr>)
    ensures UsesOfKids([k], b) == UsesAt(k, b) && TotalSize([k]) == Size(k)
  {
    assert [k][..0] == [];
  }

  lemma UsesTwo(k: Expr, l: Expr, b: set<Expr>)
    ensures UsesOfKids([k, l], b) == UsesAt(k, b) + UsesAt(l, b) && TotalSize([k, l]) == Size(k) + Size(l)
  {
    assert [k, l][..1] == [k];
    UsesOne(k, b);
  }

  lemma KidsUses(e: Expr, b: set<Expr>)
    ensures Uses(e, b) == UsesOfKids(Kids(e), b) && TotalSize(Kids(e)) < Size(e)
  {
    match e
    case Constant(_, _) =>
    case Read(_, i) => UsesOne(i, b);
    case Select(c, t, f) =>
      assert [c, t, f][..2] == [c, t];
      UsesTwo(c, t, b);
    case Concat(l, r) => UsesTwo(l, r, b);
    case Extract(x, _, _) => UsesOne(x, b);
    case ZExt(x, _) => UsesOne(x, b);
    case SExt(x, _) => UsesOne(x, b);
    case Not(x) => UsesOne(x, b);
    case Binary(_, l, r) => UsesTwo(l, r, b);
  }

  lemma AllSnoc(es: seq<Expr>, e: Expr, b: set<Expr>)
    ensures UsesOfAll(es + [e], b) == UsesOfAll(es, b) + Uses(e, b) && TotalSize(es + [e]) == TotalSize(es) + Size(e)
  {
    assert (es + [e])[..|es|] == es;
  }

  lemma KidsSnoc(ks: seq<Expr>, i: nat, b: set<Expr>)
    requires i < |ks|
    ensures UsesOfKids(ks[..i + 1], b) == UsesOfKids(ks[..i], b) + UsesAt(ks[i], b)
    ensures TotalSize(ks[..i + 1]) == TotalSize(ks[..i]) + Size(ks[i])
  {
    assert ks[..i + 1][..i] == ks[..i];
  }

  /** Walks down with a stack, not past bound expressions. */
  method CollectUses(e: Expr, b: set<Expr>) returns (deps: set<Expr>)
    ensures deps == Uses(e, b)
  {
    hide Uses, UsesAt, Kids;
    deps := {};
    var childQueue := [e];
    AllSnoc([], e, b);
    assert [] + [e] == [e];
    while childQueue != []
      invariant deps + UsesOfAll(childQueue, b) == Uses(e, b)
      decreases TotalSize(childQueue)
    {
      var n := |childQueue| - 1;
      var ep, rest := childQueue[n], childQueue[..n];
      ghost var found := deps;
      KidsUses(ep, b);
      childQueue := rest;
      var ks := Kids(ep);
      KidsStep(ks, rest, b);
      for i := 0 to |ks|
        invariant deps + UsesOfAll(childQueue, b) == found + UsesOfAll(rest, b) + UsesOfKids(ks[..i], b)
        invariant TotalSize(childQueue) <= TotalSize(rest) + TotalSize(ks[..i])
      {
        var k := ks[i];
        KidsSnoc(ks, i, b);
        AllSnoc(childQueue, k, b);
        AtStep(k, b);
        if k.Constant? {
          continue;
        }
        if k in b {
          deps := deps + {k};
        } else {
          childQueue := childQueue + [k];
        }
      }
      assert ks[..|ks|] == ks;
    }
    NothingQueued(b);
  }

  lemma AtStep(k: Expr, b: set<Expr>)
    ensures UsesAt(k, b) == if k.Constant? then {} else if k in b then {k} else Uses(k, b)
  {
  }

  lemma KidsStep(ks: seq<Expr>, rest: seq<Expr>, b: set<Expr>)
    ensures UsesOfKids(ks[..0], b) == {} && TotalSize(ks[..0]) == 0
  {
  }

  lemma NothingQueued(b: set<Expr>)
    ensures UsesOfAll([], b) == {}
  {
  }

  // ----- the levels -----

  function AllKeys(levels: seq<Bindings>): set<Expr> {
    if levels == [] then {} else AllKeys(levels[..|levels| - 1]) + levels[|levels| - 1].Keys
  }

  /** What can be bound next: all it uses is bound. */
  ghost predicate Free(x: Expr, b: set<Expr>, gone: set<Expr>) { x in b && x !in gone && Uses(x, b) <= gone }

  ghost predicate FreeLevel(level: Bindings, b: set<Expr>, gone: set<Expr>) {
    forall x :: x in level <==> Free(x, b, gone)
  }

  /** Every level holds exactly what the levels before it allow. */
  ghost predicate Layered(levels: seq<Bindings>, b: set<Expr>) {
    forall i, x :: 0 <= i < |levels| ==> (x in levels[i] <==> Free(x, b, AllKeys(levels[..i])))
  }

  ghost predicate NumberedBelow(levels: seq<Bindings>, counter: int) {
    forall i, x :: 0 <= i < |levels| && x in levels[i] ==> 1 <= levels[i][x] < counter
  }

  function Parents(subExprOf: map<Expr, set<Expr>>, d: Expr): set<Expr> { if d in subExprOf then subExprOf[d] else {} }

  /** Which bindings a binding uses, and which use it. */
  datatype DependencyGraph = DependencyGraph(uses: map<Expr, set<Expr>>, subExprOf: map<Expr, set<Expr>>)

  /** The edges that are left once `gone` is bound. */
  ghost predicate Edges(graph: DependencyGraph, b: set<Expr>, gone: set<Expr>) {
    && (forall x :: x in graph.uses <==> x in b && Uses(x, b) != {})
    && (forall x :: x in graph.uses ==> graph.uses[x] == Uses(x, b) - gone)
    && forall d, x :: d !in gone ==> (x in Parents(graph.subExprOf, d) <==> x in b && d in Uses(x, b))
  }

  /** The work list holds everything free, once. */
  ghost predicate Queue(q: seq<Expr>, b: set<Expr>, gone: set<Expr>) {
    Distinct(q) && forall x :: x in q <==> Free(x, b, gone)
  }

  ghost predicate Closed(gone: set<Expr>, b: set<Expr>) { forall x :: x in gone ==> x in b && Uses(x, b) <= gone }

  /** Who used `x` and nothing else unbound. */
  ghost predicate FreedBy(freed: seq<Expr>, x: Expr, b: set<Expr>, gone: set<Expr>) {
    Distinct(freed) && forall p :: p in freed <==> p in b && x in Uses(p, b) && Uses(p, b) <= gone + {x}
  }

  /** Uses get smaller, so a closed set with nothing left to bind holds all bindings. */
  lemma {:induction false} NothingLeft(x: Expr, b: set<Expr>, gone: set<Expr>)
    requires Queue([], b, gone) && x in b
    ensures x in gone
    decreases Size(x)
  {
    hide Uses;
    UsesSmaller(x, b);
    forall y | y in Uses(x, b)
      ensures y in gone
    {
      NothingLeft(y, b, gone);
    }
    assert !Free(x, b, gone);
  }

  lemma FreedNext(x: Expr, rest: seq<Expr>, freed: seq<Expr>, b: set<Expr>, gone: set<Expr>)
    requires Queue([x] + rest, b, gone) && Closed(gone, b) && FreedBy(freed, x, b, gone)
    ensures Queue(rest + freed, b, gone + {x}) && Closed(gone + {x}, b)
  {
    hide Uses;
    var q := [x] + rest;
    assert x in q && Free(x, b, gone) && q[0] == x;
    assert Distinct(rest) by {
      assert forall i :: 0 <= i < |rest| ==> rest[i] == q[i + 1];
    }
    assert x !in rest by {
      assert forall i :: 0 <= i < |rest| ==> rest[i] == q[i + 1] != q[0];
    }
    forall p | p in freed
      ensures Free(p, b, gone + {x}) && p !in rest
    {
      assert p !in q by {
        assert !Free(p, b, gone);
      }
      assert p in rest ==> p in q;
      assert p != x;
    }
    forall p | p in rest
      ensures Free(p, b, gone + {x})
    {
      assert p in q && Free(p, b, gone);
    }
    forall p | Free(p, b, gone + {x})
      ensures p in rest + freed
    {
      if x !in Uses(p, b) {
        assert Free(p, b, gone);
        assert p in q;
      }
    }
    forall i, j | 0 <= i < j < |rest + freed|
      ensures (rest + freed)[i] != (rest + freed)[j]
    {
      if i < |rest| <= j {
        assert (rest + freed)[i] in rest && (rest + freed)[j] in freed;
      }
    }
  }

  /** Takes the edges to `x` away and collects those who had no other edge left. */
  method Release(x: Expr, graph: DependencyGraph, ghost b: set<Expr>, ghost gone: set<Expr>)
    returns (graph': DependencyGraph, freed: seq<Expr>)
    requires Edges(graph, b, gone) && x !in gone
    ensures Edges(graph', b, gone + {x}) && FreedBy(freed, x, b, gone)
  {
    hide Uses;
    var uses, subExprOf := graph.uses, graph.subExprOf;
    var uses', subExprOf' := uses, subExprOf;
    freed := [];
    var todo := Parents(subExprOf, x);
    while todo != {}
      invariant todo <= Parents(subExprOf, x)
      invariant uses'.Keys == uses.Keys
      invariant forall p :: p in uses ==>
                uses'[p] == if p in Parents(subExprOf, x) && p !in todo then uses[p] - {x} else uses[p]
      invariant forall d :: d != x ==> Parents(subExprOf', d) == Parents(subExprOf, d)
      invariant Distinct(freed) && forall p :: p in freed <==>
                p in Parents(subExprOf, x) && p !in todo && uses[p] - {x} == {}
    {
      var p :| p in todo;
      todo := todo - {p};
      assert p in uses' && x in uses'[p];
      uses' := uses'[p := uses'[p] - {x}];
      if uses'[p] == {} {
        freed := freed + [p];
        subExprOf' := subExprOf'[x := Parents(subExprOf', x) - {p}];
      }
    }
    forall p | p in uses
      ensures uses'[p] == Uses(p, b) - (gone + {x})
    {
      assert p !in Parents(subExprOf, x) ==> x !in Uses(p, b);
    }
    forall p
      ensures p in freed <==> p in b && x in Uses(p, b) && Uses(p, b) <= gone + {x}
    {
      if p in b && x in Uses(p, b) {
        assert p in uses;
        NoneBut(Uses(p, b), gone, x);
      }
    }
    graph' := DependencyGraph(uses', subExprOf');
  }

  lemma NoneBut(s: set<Expr>, gone: set<Expr>, x: Expr)
    ensures s - gone - {x} == {} <==> s <= gone + {x}
  {
    if s - gone - {x} == {} {
      forall y | y in s
        ensures y in gone + {x}
      {
        assert y !in s - gone - {x};
      }
    }
  }

  /** The edges between the bindings, and the bindings that use no other. */
  method Dependencies(bindings: Bindings)
    returns (graph: DependencyGraph, free: seq<Expr>)
    ensures Edges(graph, bindings.Keys, {}) && Queue(free, bindings.Keys, {})
  {
    hide Uses, UsesOf, ParentsOf, FreeOf, Edges, Queue;
    ghost var b := bindings.Keys;
    var uses: map<Expr, set<Expr>>, subExprOf: map<Expr, set<Expr>> := map[], map[];
    free := [];
    NothingLookedAt(b);
    var todo := bindings.Keys;
    while todo != {}
      invariant todo <= b
      invariant UsesOf(uses, b, todo) && ParentsOf(subExprOf, b, todo) && FreeOf(free, b, todo)
    {
      var x :| x in todo;
      var deps := CollectUses(x, bindings.Keys);
      UsesOfNext(uses, b, todo, x);
      FreeOfNext(free, b, todo, x);
      subExprOf := Record(x, deps, subExprOf, b, todo);
      todo := todo - {x};
      if deps != {} {
        uses := uses[x := deps];
      } else {
        free := free + [x];
      }
    }
    graph := DependencyGraph(uses, subExprOf);
    AllLookedAt(graph, free, b);
  }

  lemma AllLookedAt(graph: DependencyGraph, free: seq<Expr>, b: set<Expr>)
    requires UsesOf(graph.uses, b, {}) && ParentsOf(graph.subExprOf, b, {}) && FreeOf(free, b, {})
    ensures Edges(graph, b, {}) && Queue(free, b, {})
  {
    hide Uses;
    forall x | x in b
      ensures Uses(x, b) - {} == Uses(x, b) && (Uses(x, b) <= {} <==> Uses(x, b) == {})
    {
    }
  }

  lemma NothingLookedAt(b: set<Expr>)
    ensures UsesOf(map[], b, b) && ParentsOf(map[], b, b) && FreeOf([], b, b)
  {
    var none: map<Expr, set<Expr>> := map[];
    forall d
      ensures Parents(none, d) == {}
    {
    }
  }

  /** The three collections once all but `todo` has been looked at. */
  ghost predicate UsesOf(uses: map<Expr, set<Expr>>, b: set<Expr>, todo: set<Expr>) {
    && (forall x :: x in uses <==> x in b && x !in todo && Uses(x, b) != {})
    && forall x :: x in uses ==> uses[x] == Uses(x, b)
  }

  ghost predicate ParentsOf(subExprOf: map<Expr, set<Expr>>, b: set<Expr>, todo: set<Expr>) {
    forall d, x :: x in Parents(subExprOf, d) <==> x in b && x !in todo && d in Uses(x, b)
  }

  ghost predicate FreeOf(free: seq<Expr>, b: set<Expr>, todo: set<Expr>) {
    Distinct(free) && forall x :: x in free <==> x in b && x !in todo && Uses(x, b) == {}
  }

  lemma UsesOfNext(uses: map<Expr, set<Expr>>, b: set<Expr>, todo: set<Expr>, x: Expr)
    requires UsesOf(uses, b, todo) && x in todo && x in b
    ensures UsesOf(if Uses(x, b) != {} then uses[x := Uses(x, b)] else uses, b, todo - {x})
  {
    hide Uses;
  }

  lemma FreeOfNext(free: seq<Expr>, b: set<Expr>, todo: set<Expr>, x: Expr)
    requires FreeOf(free, b, todo) && x in todo && x in b
    ensures FreeOf(if Uses(x, b) != {} then free else free + [x], b, todo - {x})
  {
    hide Uses;
  }

  method Record(x: Expr, deps: set<Expr>, subExprOf: map<Expr, set<Expr>>, ghost b: set<Expr>, ghost rest: set<Expr>)
    returns (subExprOf': map<Expr, set<Expr>>)
    requires ParentsOf(subExprOf, b, rest) && x in rest && x in b && deps == Uses(x, b)
    ensures ParentsOf(subExprOf', b, rest - {x})
  {
    hide Uses;
    subExprOf' := subExprOf;
    var todo := deps;
    while todo != {}
      invariant todo <= deps
      invariant forall d ::
        Parents(subExprOf', d) == Parents(subExprOf, d) + if d in deps && d !in todo then {x} else {}
    {
      var d :| d in todo;
      todo := todo - {d};
      subExprOf' := subExprOf'[d := Parents(subExprOf', d) + {x}];
    }
  }

  lemma LevelSnoc(levels: seq<Bindings>, level: Bindings, b: set<Expr>, from: int, counter: int)
    requires Separate(levels) && Layered(levels, b) && NumberedBelow(levels, from) && 1 <= from <= counter
    requires FreeLevel(level, b, AllKeys(levels))
    requires Numbered(level, from, counter)
    ensures Separate(levels + [level]) && Layered(levels + [level], b) && NumberedBelow(levels + [level], counter)
    ensures AllKeys(levels + [level]) == AllKeys(levels) + level.Keys
  {
    hide Uses, FreeLevel, Separate, Free, AllKeys;
    var all := levels + [level];
    assert all[..|levels|] == levels;
    forall i | 0 <= i < |levels|
      ensures all[i] == levels[i] && all[..i] == levels[..i]
    {
    }
    LayerNext(level, b, AllKeys(levels));
    KeysSnoc(levels, level);
    SeparateSnoc(levels, level, from, counter);
  }

  lemma LayerNext(level: Bindings, b: set<Expr>, gone: set<Expr>)
    requires FreeLevel(level, b, gone)
    ensures forall x :: x in level <==> Free(x, b, gone)
    ensures forall x :: x in level ==> x !in gone
  {
  }

  lemma KeysSnoc(levels: seq<Bindings>, level: Bindings)
    ensures AllKeys(levels + [level]) == AllKeys(levels) + level.Keys
  {
    assert (levels + [level])[..|levels|] == levels;
  }

  lemma SeparateSnoc(levels: seq<Bindings>, level: Bindings, from: int, counter: int)
    requires Separate(levels) && NumberedBelow(levels, from)
    requires (forall x :: x in level ==> x !in AllKeys(levels)) && Numbered(level, from, counter)
    ensures Separate(levels + [level])
  {
    hide AllKeys;
    var all := levels + [level];
    forall i, x | 0 <= i < |levels| && x in levels[i]
      ensures x in AllKeys(levels)
    {
      InAllKeys(levels, i, x);
    }
    forall i, j, x, y | 0 <= i < j < |all| && x in all[i] && y in all[j]
      ensures all[i][x] != all[j][y] && x != y
    {
      assert all[i] == levels[i];
      if j == |levels| {
        assert x in AllKeys(levels) && levels[i][x] < from <= level[y];
      }
    }
  }

  lemma {:induction false} InAllKeys(levels: seq<Bindings>, i: nat, x: Expr)
    requires i < |levels| && x in levels[i]
    ensures x in AllKeys(levels)
    decreases |levels|
  {
    if i < |levels| - 1 {
      InAllKeys(levels[..|levels| - 1], i, x);
    }
  }

  /** Takes the `k`th of the work list out of the graph. */
  method ReleaseNext(tmp: seq<Expr>, k: nat, graph: DependencyGraph, next: seq<Expr>, ghost b: set<Expr>,
                     ghost gone: set<Expr>)
    returns (graph': DependencyGraph, next': seq<Expr>)
    requires k < |tmp| && Edges(graph, b, gone) && Queue(Pending(tmp, k, next), b, gone) && Closed(gone, b)
    ensures Edges(graph', b, With(gone, tmp[k])) && Closed(With(gone, tmp[k]), b)
    ensures Queue(Pending(tmp, k + 1, next'), b, With(gone, tmp[k])) && |With(gone, tmp[k])| == |gone| + 1
  {
    hide Uses, Edges, Queue, Closed, FreedBy, Pending;
    QueueHead(tmp, k, next, b, gone);
    var freed;
    graph', freed := Release(tmp[k], graph, b, gone);
    LevelQueue(tmp, k, next, freed, b, gone);
    next' := next + freed;
  }

  /** Binds all that is on the work list, and collects what becomes free for the next level. */
  method Level(graph: DependencyGraph, tmp: seq<Expr>, counter: int, ghost b: set<Expr>, ghost gone: set<Expr>)
    returns (graph': DependencyGraph, next: seq<Expr>, level: Bindings, counter': int, ghost now: set<Expr>)
    requires Edges(graph, b, gone) && Queue(tmp, b, gone) && Closed(gone, b) && counter == |gone| + 1
    ensures Edges(graph', b, now) && Queue(Pending(tmp, |tmp|, next), b, now) && Closed(now, b)
    ensures BoundSoFar(level, tmp, |tmp|, gone, now) && Numbered(level, counter, counter')
    ensures counter <= counter' == |now| + 1
  {
    hide Uses, Edges, Queue, Closed, Numbered, BoundSoFar, FreedBy, Pending, With;
    graph', next, level, counter', now := graph, [], map[], counter, gone;
    NothingBound(tmp, counter, gone);
    for k := 0 to |tmp|
      invariant Edges(graph', b, now) && Closed(now, b)
      invariant Queue(Pending(tmp, k, next), b, now)
      invariant BoundSoFar(level, tmp, k, gone, now) && Numbered(level, counter, counter')
      invariant counter <= counter' == |now| + 1
    {
      BindNext(level, tmp, k, counter, counter', gone, now);
      level := level[tmp[k] := counter'];
      counter' := counter' + 1;
      graph', next := ReleaseNext(tmp, k, graph', next, b, now);
      now := With(now, tmp[k]);
    }
  }

  /** Numbers of its own for every binding, from `low` to below `high`. */
  ghost predicate Numbered(level: Bindings, low: int, high: int) {
    && (forall x :: x in level ==> low <= level[x] < high)
    && forall x, y :: x in level && y in level && x != y ==> level[x] != level[y]
  }

  ghost predicate BoundSoFar(level: Bindings, tmp: seq<Expr>, k: int, gone: set<Expr>, now: set<Expr>) {
    0 <= k <= |tmp| && (forall x :: x in level <==> x in tmp[..k]) && now == gone + level.Keys
  }

  /** The rest of the work list, and what waits for the next level. */
  function Pending(tmp: seq<Expr>, k: nat, next: seq<Expr>): seq<Expr>
    requires k <= |tmp|
  {
    tmp[k..] + next
  }

  lemma NothingBound(tmp: seq<Expr>, counter: int, gone: set<Expr>)
    ensures Pending(tmp, 0, []) == tmp
    ensures BoundSoFar(map[], tmp, 0, gone, gone) && Numbered(map[], counter, counter)
  {
  }

  lemma BindNext(level: Bindings, tmp: seq<Expr>, k: nat, low: int, counter: int, gone: set<Expr>, now: set<Expr>)
    requires k < |tmp| && BoundSoFar(level, tmp, k, gone, now) && Numbered(level, low, counter) && low <= counter
    ensures BoundSoFar(level[tmp[k] := counter], tmp, k + 1, gone, With(now, tmp[k]))
    ensures Numbered(level[tmp[k] := counter], low, counter + 1)
  {
    hide Numbered;
    assert tmp[..k + 1] == tmp[..k] + [tmp[k]];
    assert gone + level[tmp[k] := counter].Keys == gone + level.Keys + {tmp[k]};
    NumberNext(level, tmp[k], low, counter);
  }

  lemma NumberNext(level: Bindings, x: Expr, low: int, counter: int)
    requires Numbered(level, low, counter) && low <= counter
    ensures Numbered(level[x := counter], low, counter + 1)
  {
  }

  lemma LevelBound(level: Bindings, tmp: seq<Expr>, next: seq<Expr>, b: set<Expr>, gone: set<Expr>, now: set<Expr>)
    requires BoundSoFar(level, tmp, |tmp|, gone, now) && Queue(tmp, b, gone)
    ensures FreeLevel(level, b, gone) && now == gone + level.Keys && Pending(tmp, |tmp|, next) == next
  {
    hide Uses;
    assert tmp[..|tmp|] == tmp;
  }

  lemma QueueHead(tmp: seq<Expr>, k: nat, next: seq<Expr>, b: set<Expr>, gone: set<Expr>)
    requires k < |tmp| && Queue(Pending(tmp, k, next), b, gone)
    ensures tmp[k] !in gone
  {
    hide Uses;
    assert tmp[k] == (tmp[k..] + next)[0] && tmp[k] in tmp[k..] + next;
  }

  lemma LevelQueue(tmp: seq<Expr>, k: nat, next: seq<Expr>, freed: seq<Expr>, b: set<Expr>, gone: set<Expr>)
    requires k < |tmp| && Queue(Pending(tmp, k, next), b, gone) && Closed(gone, b) && FreedBy(freed, tmp[k], b, gone)
    ensures Queue(Pending(tmp, k + 1, next + freed), b, gone + {tmp[k]}) && Closed(gone + {tmp[k]}, b)
  {
    hide Uses, Queue, Closed, FreedBy;
    assert tmp[k..] + next == [tmp[k]] + (tmp[k + 1..] + next);
    FreedNext(tmp[k], tmp[k + 1..] + next, freed, b, gone);
    assert tmp[k + 1..] + next + freed == tmp[k + 1..] + (next + freed);
  }

  lemma NoLevels(b: set<Expr>)
    ensures AllKeys([]) == {} && Separate([]) && Layered([], b) && forall c :: NumberedBelow([], c)
    ensures Closed({}, b)
  {
  }

  lemma AllLevels(levels: seq<Bindings>, b: set<Expr>)
    requires Queue([], b, AllKeys(levels)) && Closed(AllKeys(levels), b)
    ensures AllKeys(levels) == b
  {
    hide Uses, Queue;
    forall x | x in b
      ensures x in AllKeys(levels)
    {
      NothingLeft(x, b, AllKeys(levels));
    }
  }

  /** A nonempty work list binds something new. */
  lemma LevelGrows(nonDep: seq<Expr>, level: Bindings, b: set<Expr>, gone: set<Expr>)
    requires Queue(nonDep, b, gone) && nonDep != [] && Closed(gone + level.Keys, b)
    requires FreeLevel(level, b, gone)
    ensures |gone| < |gone + level.Keys| <= |b|
  {
    hide Uses;
    assert nonDep[0] in nonDep;
    Larger(gone, nonDep[0], gone + level.Keys, b);
  }

  lemma Larger(s: set<Expr>, x: Expr, t: set<Expr>, u: set<Expr>)
    requires s <= t <= u && x in t && x !in s
    ensures |s| < |t| <= |u|
  {
    assert t == s + (t - s) && u == t + (u - t);
    assert x in t - s;
  }

  /** Peels the bindings off level by level. Every binding gets one level, the first that has all it uses
      before it, and a number of its own. */
  method ScanBindingExprDeps(bindings: Bindings) returns (levels: seq<Bindings>)
    ensures Separate(levels) && AllKeys(levels) == bindings.Keys && NumberedBelow(levels, |bindings| + 1)
    ensures Layered(levels, bindings.Keys)
  {
    hide Uses, Edges, Queue, Closed, Separate, Layered, NumberedBelow, AllKeys, Numbered, FreeLevel, BoundSoFar,
         Pending;
    levels := [];
    ghost var b := bindings.Keys;
    NoLevels(b);
    if |bindings| == 0 {
      return;
    }
    var graph, nonDep := Dependencies(bindings);
    var counter := 1;
    while nonDep != []
      invariant Edges(graph, b, AllKeys(levels)) && Queue(nonDep, b, AllKeys(levels)) && Closed(AllKeys(levels), b)
      invariant Separate(levels) && Layered(levels, b) && NumberedBelow(levels, counter)
                && counter == |AllKeys(levels)| + 1
      decreases |b| - |AllKeys(levels)|
    {
      ghost var gone, q := AllKeys(levels), nonDep;
      var level: Bindings;
      ghost var now;
      graph, nonDep, level, counter, now := Level(graph, nonDep, counter, b, gone);
      LevelBound(level, q, nonDep, b, gone, now);
      LevelGrows(q, level, b, gone);
      LevelSnoc(levels, level, b, |gone| + 1, counter);
      levels := levels + [level];
    }
    AllLevels(levels, b);
  }

  /** Whatever the bindings, the query is printed so that expanding its lets gives it back. */
  method PrintAbbreviated(bindings: Bindings, e: Expr) returns (lets: seq<map<int, Text>>, body: Text)
    ensures LetsBound(lets, body, map[]) && ExpandLets(lets, body, map[]) == e
  {
    var levels := ScanBindingExprDeps(bindings);
    lets, body := PrintAssert(levels, e);
  }
}
