/** The path conditions of a run: those of the live states, and those with which states have ended. Steps
    narrow, split or end paths; no input ever lies on two of them. */
module PathPool {
  import opened Exprs
  import opened Constraints

  /** Two paths that no input takes both. */
  ghost predicate Disjoint(cs: seq<Expr>, ds: seq<Expr>)
    requires WFSet(cs) && WFSet(ds)
  {
    forall a :: !(AllHold(cs, a) && AllHold(ds, a))
  }

  /** Every input of the first path takes the second. */
  ghost predicate Within(cs: seq<Expr>, ds: seq<Expr>)
    requires WFSet(cs) && WFSet(ds)
  {
    forall a :: AllHold(cs, a) ==> AllHold(ds, a)
  }

  datatype Pool<!S(==)> = Pool(live: map<S, seq<Expr>>, ended: seq<seq<Expr>>)

  ghost predicate WFPool<S>(p: Pool<S>) {
    && (forall s :: s in p.live ==> WFSet(p.live[s]))
    && forall i :: 0 <= i < |p.ended| ==> WFSet(p.ended[i])
  }

  /** Some path of the run takes the input. */
  ghost predicate Covers<S>(p: Pool<S>, a: Assignment)
    requires WFPool(p)
  {
    || (exists s :: s in p.live && AllHold(p.live[s], a))
    || exists i :: 0 <= i < |p.ended| && AllHold(p.ended[i], a)
  }

  /** Every live path has an input, and no two paths, live or ended, have one in common. */
  ghost predicate Sound<S>(p: Pool<S>) {
    && WFPool(p)
    && (forall s :: s in p.live ==> Satisfiable(p.live[s]))
    && (forall s, t :: s in p.live && t in p.live && s != t ==> Disjoint(p.live[s], p.live[t]))
    && (forall s, i :: s in p.live && 0 <= i < |p.ended| ==> Disjoint(p.live[s], p.ended[i]))
    && forall i, j :: 0 <= i < j < |p.ended| ==> Disjoint(p.ended[i], p.ended[j])
  }

  /** The same inputs are covered. */
  ghost predicate SameCover<S>(p: Pool<S>, q: Pool<S>)
    requires WFPool(p) && WFPool(q)
  {
    forall a :: Covers(p, a) <==> Covers(q, a)
  }

  /** The path of `s` replaced by those of the distinct states in `rs`, of which only `s` was live. */
  ghost predicate Replaced<S>(p: Pool<S>, s: S, rs: seq<S>, css: seq<seq<Expr>>, q: Pool<S>) {
    && s in p.live && |rs| == |css| && rs != [] && rs[0] == s && q.ended == p.ended
    && (forall i, j :: 0 <= i < j < |rs| ==> rs[i] != rs[j])
    && (forall i :: 0 < i < |rs| ==> rs[i] !in p.live)
    && (forall i :: 0 <= i < |rs| ==> rs[i] in q.live && q.live[rs[i]] == css[i])
    && (forall t :: t in p.live && t != s ==> t in q.live && q.live[t] == p.live[t])
    && forall t :: t in q.live ==> t in p.live || t in rs
  }

  /** Parts of a path that have inputs and none in common. */
  ghost predicate Parts(cs: seq<Expr>, css: seq<seq<Expr>>)
    requires WFSet(cs)
  {
    && (forall i :: 0 <= i < |css| ==> WFSet(css[i]) && Satisfiable(css[i]) && Within(css[i], cs))
    && forall i, j :: 0 <= i < j < |css| ==> Disjoint(css[i], css[j])
  }

  /** Every input of the path is in one of the parts. */
  ghost predicate Whole(cs: seq<Expr>, css: seq<seq<Expr>>)
    requires WFSet(cs) && Parts(cs, css)
  {
    forall a :: AllHold(cs, a) ==> exists i :: 0 <= i < |css| && AllHold(css[i], a)
  }

  /** Replacing a path by parts of it keeps the run sound and covers no new input; if the parts make up
      the whole path, it loses none. */
  lemma SplitKeeps<S>(p: Pool<S>, s: S, rs: seq<S>, css: seq<seq<Expr>>, q: Pool<S>)
    requires Sound(p) && Replaced(p, s, rs, css, q) && Parts(p.live[s], css)
    ensures Sound(q)
    ensures forall a :: Covers(q, a) ==> Covers(p, a)
    ensures Whole(p.live[s], css) ==> SameCover(p, q)
  {
    hide AllHold, WFSet, Satisfiable;
    forall t, u | t in q.live && u in q.live && t != u
      ensures Disjoint(q.live[t], q.live[u])
    {
      SplitDisjoint(p, s, rs, css, q, t, u);
    }
    forall t, i | t in q.live && 0 <= i < |q.ended|
      ensures Disjoint(q.live[t], q.ended[i])
    {
      if t in rs {
        var k :| 0 <= k < |rs| && rs[k] == t;
        assert Within(css[k], p.live[s]) && Disjoint(p.live[s], p.ended[i]);
      } else {
        assert Disjoint(p.live[t], p.ended[i]);
      }
    }
    forall t | t in q.live
      ensures WFSet(q.live[t]) && Satisfiable(q.live[t])
    {
      if t in rs {
        var k :| 0 <= k < |rs| && rs[k] == t;
        assert Within(css[k], p.live[s]);
      }
    }
    forall a
      ensures Covers(q, a) ==> Covers(p, a)
      ensures Whole(p.live[s], css) && Covers(p, a) ==> Covers(q, a)
    {
      SplitCovers(p, s, rs, css, q, a);
    }
  }

  lemma SplitDisjoint<S>(p: Pool<S>, s: S, rs: seq<S>, css: seq<seq<Expr>>, q: Pool<S>, t: S, u: S)
    requires Sound(p) && Replaced(p, s, rs, css, q) && Parts(p.live[s], css)
    requires t in q.live && u in q.live && t != u
    ensures WFSet(q.live[t]) && WFSet(q.live[u]) && Disjoint(q.live[t], q.live[u])
  {
    hide AllHold, WFSet, Satisfiable;
    if t in rs {
      var k :| 0 <= k < |rs| && rs[k] == t;
      assert Within(css[k], p.live[s]);
      if u in rs {
        var l :| 0 <= l < |rs| && rs[l] == u;
        assert Within(css[l], p.live[s]);
        assert if k < l then Disjoint(css[k], css[l]) else Disjoint(css[l], css[k]);
      } else {
        assert Disjoint(p.live[s], p.live[u]);
      }
    } else if u in rs {
      var l :| 0 <= l < |rs| && rs[l] == u;
      assert Within(css[l], p.live[s]);
      assert Disjoint(p.live[s], p.live[t]);
    } else {
      assert Disjoint(p.live[t], p.live[u]);
    }
  }

  lemma SplitCovers<S>(p: Pool<S>, s: S, rs: seq<S>, css: seq<seq<Expr>>, q: Pool<S>, a: Assignment)
    requires WFPool(p) && WFPool(q) && Replaced(p, s, rs, css, q) && Parts(p.live[s], css)
    ensures Covers(q, a) ==> Covers(p, a)
    ensures Whole(p.live[s], css) && Covers(p, a) ==> Covers(q, a)
  {
    hide AllHold, WFSet, Satisfiable;
    if t :| t in q.live && AllHold(q.live[t], a) {
      if t in rs {
        var k :| 0 <= k < |rs| && rs[k] == t;
        assert Within(css[k], p.live[s]);
        assert AllHold(p.live[s], a);
      } else {
        assert t in p.live && AllHold(p.live[t], a);
      }
    }
    if t :| t in p.live && AllHold(p.live[t], a) {
      if t != s {
        assert t in q.live && AllHold(q.live[t], a);
      } else if Whole(p.live[s], css) {
        var k :| 0 <= k < |css| && AllHold(css[k], a);
        assert rs[k] in q.live && AllHold(q.live[rs[k]], a);
      }
    }
  }

  /** Ending a path keeps the run sound and covers the same inputs. */
  lemma EndKeeps<S>(p: Pool<S>, s: S, q: Pool<S>)
    requires Sound(p) && s in p.live && q == Pool(p.live - {s}, p.ended + [p.live[s]])
    ensures Sound(q) && SameCover(p, q)
  {
    hide AllHold, WFSet, Satisfiable;
    var n := |p.ended|;
    assert q.ended[n] == p.live[s] && forall i :: 0 <= i < n ==> q.ended[i] == p.ended[i];
    forall i, j | 0 <= i < j < |q.ended|
      ensures Disjoint(q.ended[i], q.ended[j])
    {
      if j == n {
        assert Disjoint(p.live[s], p.ended[i]);
      }
    }
    forall t, i | t in q.live && 0 <= i < |q.ended|
      ensures Disjoint(q.live[t], q.ended[i])
    {
      if i == n {
        assert Disjoint(p.live[t], p.live[s]);
      }
    }
    forall a
      ensures Covers(p, a) <==> Covers(q, a)
    {
      if t :| t in p.live && AllHold(p.live[t], a) {
        if t == s {
          assert AllHold(q.ended[n], a);
        } else {
          assert t in q.live && AllHold(q.live[t], a);
        }
      }
      if i :| 0 <= i < |p.ended| && AllHold(p.ended[i], a) {
        assert AllHold(q.ended[i], a);
      }
      if i :| 0 <= i < |q.ended| && AllHold(q.ended[i], a) {
        if i == n {
          assert s in p.live && AllHold(p.live[s], a);
        } else {
          assert AllHold(p.ended[i], a);
        }
      }
      if t :| t in q.live && AllHold(q.live[t], a) {
        assert t in p.live && AllHold(p.live[t], a);
      }
    }
  }

  /** A run starts with one path that takes every input. */
  lemma StartSound<S>(s: S)
    ensures Sound(Pool(map[s := []], [])) && forall a :: Covers(Pool(map[s := []], []), a)
  {
    var p := Pool(map[s := []], []);
    assert AllHold([], map[]);
    assert Satisfiable([]);
    forall a ensures Covers(p, a) {
      assert s in p.live && AllHold(p.live[s], a);
    }
  }
}
