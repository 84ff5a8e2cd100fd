/** The protocol by which states wait for each other at the end of a merge region: a handler for each
    region opened, the states that still hold it, and the states paused until all of those have come. */
module MergeProtocol {
  import opened Collections

  /** The last element takes the place of the one that goes. */
  function SwapPop<T(==)>(s: seq<T>, i: nat): (t: seq<T>)
    requires i < |s| && Distinct(s)
    ensures Distinct(t) && |t| == |s| - 1
    ensures (forall x :: x in t ==> x in s && x != s[i]) && forall x :: x in s && x != s[i] ==> x in t
  {
    var n := |s| - 1;
    var t := s[i := s[n]][..n];
    assert forall k :: 0 <= k < n ==> t[k] == if k == i then s[n] else s[k];
    assert forall x :: x in s && x != s[i] ==> x in t by {
      forall x | x in s && x != s[i] ensures x in t {
        var k :| 0 <= k < |s| && s[k] == x;
        assert if k == n then t[i] == x else t[k] == x;
      }
    }
    t
  }

  /** The elements after the one that goes move up. */
  function Erase<T(==)>(s: seq<T>, i: nat): (t: seq<T>)
    requires i < |s| && Distinct(s)
    ensures Distinct(t) && |t| == |s| - 1
    ensures (forall x :: x in t ==> x in s && x != s[i]) && forall x :: x in s && x != s[i] ==> x in t
  {
    s[..i] + s[i + 1..]
  }

  method Find<T(==)>(s: seq<T>, x: T) returns (i: nat)
    requires x in s
    ensures i < |s| && s[i] == x
  {
    i := 0;
    while s[i] != x
      invariant i < |s| && x in s[i..]
      decreases |s| - i
    {
      i := i + 1;
    }
  }

  /** States and handlers are known by number, handlers in the order of their creation. */
  type StateId = int
  type HandlerId = int
  type Instruction = nat

  datatype ExecutionState = ExecutionState(openMergeStack: seq<HandlerId>, steppedInstructions: nat)

  /** `reachedCloseMerge` has the states that wait, by the instruction they reached. */
  datatype MergeHandler = MergeHandler(
    openInstruction: nat,
    openStates: seq<StateId>,
    reachedCloseMerge: map<Instruction, seq<StateId>>,
    closedMean: real,
    closedStateCount: nat)

  lemma MeanStep(mean: real, d: real, n: real)
    requires n >= 1.0
    ensures (mean + (d - mean) / n) * n == mean * (n - 1.0) + d
  {
    assert (d - mean) / n * n == d - mean;
  }

  // ----- the invariants -----

  /** The open states of a handler are exactly the states that have it on their stack. */
  ghost predicate HoldersExact(h: HandlerId, open: seq<StateId>, all: map<StateId, ExecutionState>) {
    Distinct(open) && forall s :: s in open <==> s in all && h in all[s].openMergeStack
  }

  /** Handlers lie on a stack in the order of creation. */
  ghost predicate StackOk(stack: seq<HandlerId>, alive: set<HandlerId>) {
    (forall i, j :: 0 <= i < j < |stack| ==> stack[i] < stack[j]) && forall h :: h in stack ==> h in alive
  }

  /** The states in the groups of a handler wait there and nowhere else. */
  ghost predicate GroupsOk(h: HandlerId, groups: map<Instruction, seq<StateId>>,
                           home: map<StateId, (HandlerId, Instruction)>) {
    forall mp :: mp in groups ==> Distinct(groups[mp]) && forall s :: s in groups[mp] ==>
      s in home && home[s] == (h, mp)
  }

  /** A waiting state is in the group it waits in, and holds only handlers older than the one it waits
      for. */
  ghost predicate HomeOk(s: StateId, at: (HandlerId, Instruction), handlers: map<HandlerId, MergeHandler>,
                         all: map<StateId, ExecutionState>) {
    && s in all && at.0 in handlers
    && at.1 in handlers[at.0].reachedCloseMerge && s in handlers[at.0].reachedCloseMerge[at.1]
    && forall h :: h in all[s].openMergeStack ==> h < at.0
  }

  /** The paused states are those in close merge, which are the waiting ones; none of them has ended. */
  ghost predicate Waits(paused: seq<StateId>, inCloseMerge: set<StateId>, waiting: set<StateId>,
                        scheduled: set<StateId>) {
    Distinct(paused) && inCloseMerge == waiting == Elems(paused) && waiting <= scheduled
  }

  ghost predicate Holders(handlers: map<HandlerId, MergeHandler>, all: map<StateId, ExecutionState>) {
    forall h :: h in handlers ==> HoldersExact(h, handlers[h].openStates, all)
  }

  ghost predicate Stacks(all: map<StateId, ExecutionState>, alive: set<HandlerId>) {
    forall s :: s in all ==> StackOk(all[s].openMergeStack, alive)
  }

  ghost predicate Groups(handlers: map<HandlerId, MergeHandler>, home: map<StateId, (HandlerId, Instruction)>) {
    forall h :: h in handlers ==> GroupsOk(h, handlers[h].reachedCloseMerge, home)
  }

  ghost predicate Homes(home: map<StateId, (HandlerId, Instruction)>, handlers: map<HandlerId, MergeHandler>,
                        all: map<StateId, ExecutionState>) {
    forall s :: s in home ==> HomeOk(s, home[s], handlers, all)
  }

  ghost predicate Below(alive: set<HandlerId>, next: int) { forall h :: h in alive ==> h < next }

  ghost predicate StatesBelow(all: set<StateId>, next: int) { forall s :: s in all ==> s < next }

  ghost predicate MeanOk(mean: real, count: nat, sum: real) { mean * count as real == sum }

  /** The travelling mean of a handler is the mean of all distances so far. */
  ghost predicate Means(handlers: map<HandlerId, MergeHandler>, sums: map<HandlerId, real>) {
    forall h :: h in handlers ==> h in sums && MeanOk(handlers[h].closedMean, handlers[h].closedStateCount, sums[h])
  }

  /** Everything about the handlers, but that each is held. */
  ghost predicate Kept(handlers: map<HandlerId, MergeHandler>, all: map<StateId, ExecutionState>,
                       home: map<StateId, (HandlerId, Instruction)>, sums: map<HandlerId, real>) {
    && Holders(handlers, all) && Stacks(all, handlers.Keys) && Groups(handlers, home) && Homes(home, handlers, all)
    && Means(handlers, sums)
  }

  /** A state is in the executor's set or still to be added to it; ended ones are in it until the next
      update. */
  ghost predicate Sets(all: set<StateId>, states: set<StateId>, added: set<StateId>, removed: set<StateId>, next: int) {
    all == states + added && added !! states && removed <= states && StatesBelow(all, next)
  }

  ghost predicate CoreOf(all: map<StateId, ExecutionState>, handlers: map<HandlerId, MergeHandler>,
                         states: set<StateId>, added: set<StateId>, removed: set<StateId>, paused: seq<StateId>,
                         closing: set<StateId>, nextState: int, nextHandler: int,
                         home: map<StateId, (HandlerId, Instruction)>, sums: map<HandlerId, real>) {
    && Sets(all.Keys, states, added, removed, nextState) && Below(handlers.Keys, nextHandler)
    && Waits(paused, closing, home.Keys, all.Keys - removed)
    && Kept(handlers, all, home, sums)
  }

  /** Every handler that is alive is among the merge groups. */
  ghost predicate Listed(groups: seq<HandlerId>, alive: set<HandlerId>) { Distinct(groups) && Elems(groups) == alive }

  /** What pausing and going on change. */
  datatype Schedule = Schedule(base: set<StateId>, closing: set<StateId>, misused: bool)

  /** The base searcher has the states that do not wait, and maybe new ones. */
  ghost predicate InStepOf(base: set<StateId>, states: set<StateId>, added: set<StateId>, closing: set<StateId>) {
    states - closing <= base <= states + added && base !! closing
  }

  ghost predicate AllHeld(handlers: map<HandlerId, MergeHandler>) {
    forall h :: h in handlers ==> handlers[h].openStates != []
  }

  /** The executor's states and its merging searcher. */
  class Executor {
    /** Every state that has not been deleted, and every handler that is alive. */
    var all: map<StateId, ExecutionState>
    var handlers: map<HandlerId, MergeHandler>
    var states: set<StateId>
    var addedStates: set<StateId>
    var removedStates: set<StateId>
    var pausedStates: seq<StateId>
    var inCloseMerge: set<StateId>
    var mergeGroups: seq<HandlerId>
    /** The states the base searcher schedules. */
    var base: set<StateId>
    var nextState: int
    var nextHandler: int
    /** The base searcher was asked to take in a state it had, or to take out one it had not. */
    ghost var misused: bool
    /** Where each waiting state waits, and the sum of the distances each handler has seen. */
    ghost var home: map<StateId, (HandlerId, Instruction)>
    ghost var sums: map<HandlerId, real>

    /** What holds also while a handler no state holds is still about. */
    ghost predicate Core()
      reads this
    {
      CoreOf(all, handlers, states, addedStates, removedStates, pausedStates, inCloseMerge, nextState, nextHandler,
             home, sums)
    }

    ghost predicate Registered()
      reads this
    {
      Listed(mergeGroups, handlers.Keys)
    }

    /** No handler outlives the states that hold it. */
    ghost predicate Valid()
      reads this
    {
      Core() && Registered() && AllHeld(handlers)
    }

    /** The base searcher has the states that do not wait. */
    ghost predicate Synced()
      reads this
    {
      base == states - inCloseMerge
    }

    /** Within a step it may have some of the new states already: those that have waited and gone on. */
    ghost predicate InStep()
      reads this
    {
      InStepOf(base, states, addedStates, inCloseMerge)
    }

    ghost function Scheduled(): Schedule
      reads this
    {
      Schedule(base, inCloseMerge, misused)
    }

    /** The state waits for a handler that a state which has not ended holds. */
    ghost predicate Lingers(s: StateId)
      reads this
    {
      s in home && exists t :: t in all && t !in removedStates && home[s].0 in all[t].openMergeStack
    }

    constructor ()
      ensures Valid() && Synced() && states == base == {0} && addedStates == removedStates == inCloseMerge == {}
      ensures all == map[0 := ExecutionState([], 0)] && handlers == map[] && home == map[] && pausedStates == []
      ensures nextState == 1 && nextHandler == 0 && !misused
    {
      all, handlers := map[0 := ExecutionState([], 0)], map[];
      states, addedStates, removedStates := {0}, {}, {};
      pausedStates, inCloseMerge, mergeGroups, base := [], {}, [], {0};
      nextState, nextHandler, misused := 1, 0, false;
      home, sums := map[], map[];
    }

    lemma {:induction false} Youngest(w: seq<StateId>) returns (s: StateId)
      requires w != [] && forall s :: s in w ==> s in home
      ensures s in w && forall t :: t in w ==> home[t].0 <= home[s].0
    {
      s := w[0];
      if |w| > 1 {
        var t := Youngest(w[1..]);
        if home[t].0 > home[s].0 {
          s := t;
        }
        assert forall x :: x in w ==> x == w[0] || x in w[1..];
      }
    }

    lemma OlderThanHome(t: StateId, h: HandlerId)
      requires Valid() && t in home && t in all && h in all[t].openMergeStack
      ensures h < home[t].0
    {
      assert HomeOk(t, home[t], handlers, all);
    }

    /** After an update the base searcher is never empty while there are states. */
    lemma NeverStuck()
      requires Valid() && Synced() && addedStates == {} && removedStates == {} && states != {}
      ensures base != {}
    {
      if states <= inCloseMerge {
        assert forall s :: s in pausedStates <==> s in Elems(pausedStates);
        var s := Youngest(pausedStates);
        var h := home[s].0;
        assert HomeOk(s, home[s], handlers, all);
        assert HoldersExact(h, handlers[h].openStates, all);
        var t := handlers[h].openStates[0];
        assert t in handlers[h].openStates;
        OlderThanHome(t, h);
      }
    }

    /** The state is in a group of the handler. */
    ghost predicate InGroup(s: StateId, h: HandlerId, mp: Instruction)
      reads this
    {
      h in handlers && mp in handlers[h].reachedCloseMerge && s in handlers[h].reachedCloseMerge[mp]
    }

    /** A state is paused exactly if it is in a group of some handler; it is in one group only, and that
        handler is held by a state that has yet to close it. */
    lemma PausedExact(s: StateId)
      requires Valid()
      ensures s in pausedStates <==> s in inCloseMerge
      ensures s in pausedStates <==> exists h: HandlerId, mp: Instruction :: InGroup(s, h, mp)
      ensures forall h: HandlerId, h': HandlerId, mp: Instruction, mp': Instruction ::
                InGroup(s, h, mp) && InGroup(s, h', mp') ==> h == h' && mp == mp'
      ensures forall h: HandlerId, mp: Instruction :: InGroup(s, h, mp) ==>
                exists t :: t in handlers[h].openStates && t in all && h in all[t].openMergeStack
    {
      assert s in pausedStates <==> s in home;
      if s in home {
        assert HomeOk(s, home[s], handlers, all);
        assert InGroup(s, home[s].0, home[s].1);
      }
      forall h: HandlerId, mp: Instruction | InGroup(s, h, mp)
        ensures s in home && home[s] == (h, mp)
        ensures exists t :: t in handlers[h].openStates && t in all && h in all[t].openMergeStack
      {
        assert GroupsOk(h, handlers[h].reachedCloseMerge, home) && HoldersExact(h, handlers[h].openStates, all);
        var t := handlers[h].openStates[0];
        assert t in handlers[h].openStates && t in all && h in all[t].openMergeStack;
      }
    }

    /** After states have been deleted those go on waiting whose handler a state that is left holds. */
    lemma WaitersLinger(home': map<StateId, (HandlerId, Instruction)>, all': map<StateId, ExecutionState>,
                        removed: set<StateId>)
      requires Valid() && all == all' - removed && Thinned(home, home') && Freed(home', home, handlers.Keys)
      ensures forall s :: s in inCloseMerge <==>
                s in home' && exists t :: t in all' && t !in removed && home'[s].0 in all'[t].openMergeStack
    {
      hide Means, Sets, Below, Listed, Groups;
      forall s | s in home
        ensures exists t :: t in all && home[s].0 in all[t].openMergeStack
      {
        assert HomeOk(s, home[s], handlers, all);
        var h := home[s].0;
        assert HoldersExact(h, handlers[h].openStates, all);
        var t := handlers[h].openStates[0];
        assert t in handlers[h].openStates;
        assert t in all && h in all[t].openMergeStack;
      }
      forall s, t | s in home' && t in all' && t !in removed && home'[s].0 in all'[t].openMergeStack
        ensures s in home
      {
        assert t in all;
        var h := home'[s].0;
        assert StackOk(all[t].openMergeStack, handlers.Keys) && h in all[t].openMergeStack;
        assert h in handlers.Keys;
      }
      forall s
        ensures s in inCloseMerge <==>
                s in home' && exists t :: t in all' && t !in removed && home'[s].0 in all'[t].openMergeStack
      {
        if s in home {
          var t :| t in all && home[s].0 in all[t].openMergeStack;
          assert t in all' && t !in removed && home'[s].0 in all'[t].openMergeStack;
        }
      }
    }

    /** While nothing has ended in the step the states that linger are those in close merge: an update that
        tells the base searcher comes out in step exactly if no new state is in close merge. */
    lemma LingersExact(s: StateId)
      requires Valid() && removedStates == {}
      ensures Lingers(s) <==> s in inCloseMerge
    {
      ThinnedSelf(home, handlers.Keys);
      WaitersLinger(home, all, {});
    }

    // ----- pausing and going on -----

    method PauseState(state: StateId)
      requires state !in pausedStates && Distinct(pausedStates)
      modifies `pausedStates, `base, `misused
      ensures pausedStates == old(pausedStates) + [state] && base == old(base) - {state}
      ensures Distinct(pausedStates) && Elems(pausedStates) == old(Elems(pausedStates)) + {state}
      ensures misused == (old(misused) || state !in old(base))
    {
      pausedStates := pausedStates + [state];
      misused := misused || state !in base;
      base := base - {state};
    }

    method ContinueState(state: StateId)
      requires state in pausedStates && Distinct(pausedStates)
      modifies `pausedStates, `base, `misused
      ensures base == old(base) + {state}
      ensures Distinct(pausedStates) && Elems(pausedStates) == old(Elems(pausedStates)) - {state}
      ensures misused == (old(misused) || state in old(base))
    {
      var it := Find(pausedStates, state);
      pausedStates := Erase(pausedStates, it);
      misused := misused || state in base;
      base := base + {state};
    }

    /** The states of one group go on. */
    method ReleaseGroup(group: seq<StateId>)
      requires Distinct(group) && Distinct(pausedStates) && Elems(group) <= Elems(pausedStates)
      modifies `pausedStates, `base, `inCloseMerge, `misused
      ensures Distinct(pausedStates) && Elems(pausedStates) == old(Elems(pausedStates)) - Elems(group)
      ensures base == old(base) + Elems(group) && inCloseMerge == old(inCloseMerge) - Elems(group)
      ensures misused == (old(misused) || !(old(base) !! Elems(group)))
    {
      for i := 0 to |group|
        invariant misused == (old(misused) || !(old(base) !! Elems(group[..i])))
        invariant Distinct(pausedStates) && base == old(base) + Elems(group[..i])
        invariant Elems(pausedStates) == old(Elems(pausedStates)) - Elems(group[..i])
        invariant inCloseMerge == old(inCloseMerge) - Elems(group[..i])
      {
        assert group[i] in Elems(group) && group[i] !in Elems(group[..i]);
        assert group[..i + 1] == group[..i] + [group[i]];
        assert group[i] in Elems(pausedStates);
        ElemsPush(group[..i], group[i]);
        MetSnoc(old(base), Elems(group[..i]), group[i]);
        ContinueState(group[i]);
        inCloseMerge := inCloseMerge - {group[i]};
      }
      assert group[..|group|] == group;
    }

    /** The loops over the groups, before the groups are cleared. */
    method ReleaseGroups(h: HandlerId) returns (ghost gone: set<StateId>)
      requires h in handlers && Groups(handlers, home) && Homes(home, handlers, all)
      requires Distinct(pausedStates) && Elems(pausedStates) == home.Keys
      modifies `pausedStates, `base, `inCloseMerge, `misused
      ensures Released(h, {}, home, gone) && gone <= home.Keys && base == old(base) + gone
      ensures misused == (old(misused) || !(old(base) !! gone))
      ensures Distinct(pausedStates) && Elems(pausedStates) == home.Keys - gone
              && inCloseMerge == old(inCloseMerge) - gone
    {
      var groups := handlers[h].reachedCloseMerge;
      var todo := groups.Keys;
      gone := {};
      ReleasedNone(h, handlers, home, all);
      hide Distinct, Elems, Groups, Homes, Released;
      while todo != {}
        invariant todo <= groups.Keys && Released(h, todo, home, gone) && gone <= home.Keys
        invariant Distinct(pausedStates) && Elems(pausedStates) == home.Keys - gone
        invariant base == old(base) + gone && inCloseMerge == old(inCloseMerge) - gone
        invariant misused == (old(misused) || !(old(base) !! gone))
      {
        var mp :| mp in todo;
        ReleasedMore(h, handlers, todo, home, all, gone, mp);
        MetMore(old(base), gone, Elems(groups[mp]));
        ReleaseGroup(groups[mp]);
        gone := gone + Elems(groups[mp]);
        todo := todo - {mp};
      }
    }

    /** Everything that waits for the handler goes on. */
    method ReleaseStates(h: HandlerId)
      requires Core() && h in handlers
      modifies `pausedStates, `base, `inCloseMerge, `misused, `home, `handlers
      ensures Core() && handlers == Cleared(old(handlers), h)
      ensures Thinned(home, old(home)) && Freed(old(home), home, handlers.Keys - {h})
      ensures Resumed(old(Scheduled()), Scheduled())
    {
      hide Distinct, Elems, Holders, Stacks, Groups, Homes, Means, Released, Below, Sets;
      ghost var gone := ReleaseGroups(h);
      ReleasedAll(h, handlers, home, all, sums, gone);
      ReleasedFreed(h, handlers.Keys, home, gone);
      ReleasedResumed(old(Scheduled()), Scheduled(), gone);
      assert (home - gone).Keys == home.Keys - gone;
      home := home - gone;
      handlers := Cleared(handlers, h);
    }

    // ----- the life of a handler -----

    method DropHandler(h: HandlerId)
      requires Core() && h in handlers && handlers[h].openStates == [] && handlers[h].reachedCloseMerge == map[]
      modifies `handlers
      ensures Core() && handlers == old(handlers) - {h}
    {
      HandlerDropped(h, handlers, all, home, sums);
      BelowLess(handlers.Keys, h, nextHandler);
      hide Holders, Stacks, Groups, Homes, Means, Waits, Below, Sets;
      handlers := handlers - {h};
    }

    /** Leaves the list of merge groups. */
    method Unlist(h: HandlerId)
      requires Registered() && h in handlers
      modifies `mergeGroups
      ensures Listed(mergeGroups, handlers.Keys - {h})
    {
      assert h in mergeGroups by { assert h in Elems(mergeGroups); }
      hide Distinct, Elems, Listed;
      var it := Find(mergeGroups, h);
      ListedLess(mergeGroups, handlers.Keys, it);
      mergeGroups := SwapPop(mergeGroups, it);
    }

    /** Everything that waits for a handler goes on when the handler does. */
    method Destroy(h: HandlerId)
      requires Core() && Registered() && h in handlers && handlers[h].openStates == []
      modifies `pausedStates, `base, `inCloseMerge, `misused, `home, `handlers, `mergeGroups
      ensures Core() && Registered() && handlers == old(handlers) - {h}
      ensures Thinned(home, old(home)) && Freed(old(home), home, handlers.Keys)
      ensures Resumed(old(Scheduled()), Scheduled())
    {
      hide Holders, Stacks, Groups, Homes, Means, Waits, Distinct, Elems, Below, Sets, Listed, Thinned, Freed,
           Resumed;
      Unlist(h);
      ClearedDropped(handlers, h);
      ReleaseStates(h);
      DropHandler(h);
    }

    /** A handler is destroyed when the last state that held it lets go. */
    method Collect(h: HandlerId)
      requires Core() && Registered() && h in handlers
      modifies `pausedStates, `base, `inCloseMerge, `misused, `home, `handlers, `mergeGroups
      ensures Core() && Registered()
      ensures handlers == if old(handlers)[h].openStates == [] then old(handlers) - {h} else old(handlers)
      ensures Thinned(home, old(home)) && Freed(old(home), home, handlers.Keys)
      ensures old(handlers)[h].openStates != [] ==> home == old(home) && inCloseMerge == old(inCloseMerge)
      ensures Resumed(old(Scheduled()), Scheduled())
    {
      assert HoldersExact(h, handlers[h].openStates, all);
      var open := handlers[h].openStates;
      if open != [] {
        var t := open[0];
        assert t in open && t in all && h in all[t].openMergeStack;
      }
      hide Holders, Stacks, Groups, Homes, Means, Waits, Distinct, Elems;
      if forall s :: s in all.Keys ==> h !in all[s].openMergeStack {
        Destroy(h);
      }
    }

    method RemoveOpenState(h: HandlerId, es: StateId)
      requires h in handlers && es in handlers[h].openStates && Distinct(handlers[h].openStates)
      modifies `handlers
      ensures OpenDropped(old(handlers), handlers, {h}, es)
    {
      var it := Find(handlers[h].openStates, es);
      handlers := handlers[h := handlers[h].(openStates := SwapPop(handlers[h].openStates, it))];
    }

    /** The state opens a merge region. */
    method OpenMerge(s: StateId)
      requires Valid() && s in all && s !in inCloseMerge && s !in removedStates
      modifies `all, `handlers, `sums, `nextHandler, `mergeGroups
      ensures Valid() && (old(Synced()) ==> Synced()) && (old(InStep()) ==> InStep())
      ensures all == Pushed(old(all), s, old(nextHandler)) && nextHandler == old(nextHandler) + 1
      ensures handlers == Opening(old(handlers), old(all), s, old(nextHandler))
    {
      assert s !in home;
      hide Holders, Stacks, Groups, Homes, Means, Waits, Distinct, Elems, Below, Opening, Pushed, Sets, Listed, AllHeld;
      var h := nextHandler;
      Opened(s, h, handlers, all, home, sums);
      ListedMore(mergeGroups, handlers.Keys, h);
      handlers := Opening(handlers, all, s, h);
      all := Pushed(all, s, h);
      sums, nextHandler, mergeGroups := sums[h := 0.0], nextHandler + 1, mergeGroups + [h];
    }

    /** Registers a state with every handler on the stack. */
    method Register(stack: seq<HandlerId>, n: StateId)
      requires StackOk(stack, handlers.Keys)
      modifies `handlers
      ensures handlers == AddedTo(old(handlers), Elems(stack), n)
    {
      hide StackOk, AddedTo, Elems;
      AddedNone(handlers, n);
      for i := 0 to |stack|
        invariant handlers == AddedTo(old(handlers), Elems(stack[..i]), n)
      {
        AddedMore(old(handlers), stack, i, n);
        handlers := handlers[stack[i] := handlers[stack[i]].(openStates := handlers[stack[i]].openStates + [n])];
      }
      assert stack[..|stack|] == stack;
    }

    /** A copy of the state, which is registered with every handler on its stack. */
    method Fork(s: StateId) returns (n: StateId)
      requires Valid() && s in all && s !in inCloseMerge && s !in removedStates
      modifies `handlers, `all, `addedStates, `nextState
      ensures Valid() && (old(Synced()) ==> Synced()) && (old(InStep()) ==> InStep()) && nextState == old(nextState) + 1
      ensures n == old(nextState) && all == old(all)[n := old(all)[s]] && addedStates == old(addedStates) + {n}
      ensures handlers == AddedTo(old(handlers), Elems(old(all)[s].openMergeStack), n)
    {
      assert s !in home;
      n := nextState;
      assert StackOk(all[s].openMergeStack, handlers.Keys);
      hide Holders, Stacks, Groups, Homes, Means, Waits, Distinct, Below, Sets, Listed, AllHeld, AddedTo, Elems,
           StackOk;
      Forked(s, n, handlers, all, home, sums, states, addedStates, removedStates);
      Register(all[s].openMergeStack, n);
      all := all[n := all[s]];
      addedStates, nextState := addedStates + {n}, nextState + 1;
    }

    /** One more instruction of the state. */
    method StepInstruction(s: StateId)
      requires Valid() && s in all
      modifies `all
      ensures Valid() && (old(Synced()) ==> Synced()) && (old(InStep()) ==> InStep())
      ensures all == old(all)[s := old(all)[s].(steppedInstructions := old(all)[s].steppedInstructions + 1)]
    {
      Stepped(s, handlers, all, home, sums);
      hide Kept, Waits, Below, Sets, Listed, AllHeld, InStepOf;
      all := all[s := all[s].(steppedInstructions := all[s].steppedInstructions + 1)];
    }

    // ----- closing a region -----

    /** One more state has closed. */
    method CountClosed(h: HandlerId, es: StateId)
      requires h in handlers && es in all && Means(handlers, sums)
      modifies `handlers, `sums
      ensures handlers == CountedIn(old(handlers), h, Distance(old(handlers)[h], all[es]))
      ensures Means(handlers, sums)
      ensures sums == old(sums)[h := old(sums)[h] + Distance(old(handlers)[h], all[es])]
    {
      ghost var d := Distance(handlers[h], all[es]);
      CountedMeans(handlers, sums, h, d);
      hide Means;
      handlers := CountedIn(handlers, h, Distance(handlers[h], all[es]));
      sums := sums[h := sums[h] + d];
    }

    /** The state leaves the open states, and is merged into one that waits at the same instruction or
        waits there itself. A merged state that was new is deleted at once, while the handler is still on its
        stack: leaving the handler again is the assertion failure. */
    method AddClosedState(h: HandlerId, es: StateId, mp: Instruction, merges: (StateId, StateId) -> bool)
      returns (ok: bool, merged: bool, ghost mid: map<HandlerId, MergeHandler>)
      requires h in handlers && es in all && Means(handlers, sums) && Holders(handlers, all)
      requires StackOk(all[es].openMergeStack, handlers.Keys) && h in all[es].openMergeStack
      requires es in handlers[h].openStates && Distinct(pausedStates) && es !in Elems(pausedStates)
      modifies `handlers, `sums, `pausedStates, `base, `misused, `inCloseMerge, `addedStates, `removedStates
      ensures merged <==> CanMerge(old(handlers)[h].reachedCloseMerge, mp, merges, es)
      ensures ok <==> !(merged && es in old(addedStates))
      ensures ok ==>
                && OpenDropped(CountedIn(old(handlers), h, Distance(old(handlers)[h], all[es])), mid, {h}, es)
                && Means(mid, sums) && addedStates == old(addedStates)
                && mid.Keys == old(handlers).Keys && handlers == if merged then mid else Grown(mid, h, mp, es)
      ensures ok && merged ==>
                && removedStates == With(old(removedStates), es) && inCloseMerge == old(inCloseMerge) - {es}
                && pausedStates == old(pausedStates) && base == old(base) && misused == old(misused)
      ensures ok && !merged ==>
                && removedStates == old(removedStates) && inCloseMerge == old(inCloseMerge) && base == old(base) - {es}
                && Distinct(pausedStates) && Elems(pausedStates) == With(old(Elems(pausedStates)), es)
                && misused == (old(misused) || es !in old(base))
    {
      assert HoldersExact(h, handlers[h].openStates, all);
      AllDistinct(handlers, all);
      CountedKeeps(handlers, h, Distance(handlers[h], all[es]));
      assert forall x :: x in pausedStates <==> x in Elems(pausedStates);
      hide Means, Holders, HoldersExact, CountedIn, Distance, OpenDropped, Distinct, Elems, StackOk;
      CountClosed(h, es);
      ghost var counted := handlers;
      RemoveOpenState(h, es);
      mid := handlers;
      DroppedKeeps(counted, mid, h, es, sums);
      var groups := handlers[h].reachedCloseMerge;
      if mp in groups {
        var cpv := groups[mp];
        var taker := Taker(cpv, es, merges);
        if taker.Some? {
          var t := taker.value;
          assert t in groups[mp] && merges(t, es);
          merged := true;
          if es in addedStates {
            addedStates := addedStates - {es};
            LeftOnce(old(handlers), counted, mid, h, Distance(old(handlers)[h], all[es]), all[es].openMergeStack, es);
            ok := LeaveAll(all[es].openMergeStack, es);
            return;
          }
          removedStates := With(removedStates, es);
          inCloseMerge := inCloseMerge - {es};
          return true, true, mid;
        }
      }
      handlers := Grown(handlers, h, mp, es);
      PauseState(es);
      ok, merged := true, false;
    }

    /** The first state that can take the other in. */
    method Taker(cpv: seq<StateId>, es: StateId, merges: (StateId, StateId) -> bool) returns (r: Option<StateId>)
      ensures r.Some? ==> r.value in cpv && merges(r.value, es)
      ensures r.None? ==> forall t :: t in cpv ==> !merges(t, es)
    {
      for i := 0 to |cpv|
        invariant forall j :: 0 <= j < i ==> !merges(cpv[j], es)
      {
        if merges(cpv[i], es) {
          return Some(cpv[i]);
        }
      }
      r := None;
      forall t | t in cpv
        ensures !merges(t, es)
      {
        var j :| 0 <= j < |cpv| && cpv[j] == t;
      }
    }

    lemma MayClose(s: StateId, h: HandlerId)
      requires Core() && s in all && s !in inCloseMerge && all[s].openMergeStack != []
               && h == Top(all[s].openMergeStack)
      ensures StackOk(all[s].openMergeStack, handlers.Keys) && h in handlers
              && HoldersExact(h, handlers[h].openStates, all)
      ensures s !in home && s in handlers[h].openStates && s !in Elems(pausedStates) && Distinct(pausedStates)
    {
      assert StackOk(all[s].openMergeStack, handlers.Keys);
      hide Groups, Homes, Means, Sets, Below, Listed;
    }

    /** The state enters close merge, which it leaves again if it is merged. */
    method EnterClose(s: StateId, h: HandlerId, mp: Instruction, merges: (StateId, StateId) -> bool)
      returns (ok: bool, merged: bool, ghost mid: map<HandlerId, MergeHandler>)
      requires Core() && s !in inCloseMerge && s !in removedStates
      requires s in all && all[s].openMergeStack != [] && h == Top(all[s].openMergeStack)
      modifies `handlers, `sums, `pausedStates, `base, `misused, `inCloseMerge, `addedStates, `removedStates, `home
      ensures h in old(handlers) && (merged <==> CanMerge(old(handlers)[h].reachedCloseMerge, mp, merges, s))
      ensures ok <==> !(merged && s in old(addedStates))
      ensures ok ==> ClosedBy(old(handlers), mid, handlers, h, mp, s, Distance(old(handlers)[h], all[s]), sums, merged)
      ensures ok ==> addedStates == old(addedStates)
      ensures ok ==> Scheduled() == Entered(old(Scheduled()), s, merged)
      ensures ok ==> removedStates == Ended(old(removedStates), s, merged)
      ensures ok ==> PausedAlso(old(pausedStates), pausedStates, s, merged)
      ensures home == Waited(old(home), s, (h, mp), merged)
    {
      MayClose(s, h);
      hide Holders, HoldersExact, Stacks, Groups, Homes, Means, Distinct, Elems, Below, Sets;
      hide OpenDropped, CountedIn, Distance, Grown, CanMerge, Waits, StackOk, Waited;
      EnteredLeft(inCloseMerge, s);
      hide With;
      inCloseMerge := With(inCloseMerge, s);
      ok, merged, mid := AddClosedState(h, s, mp, merges);
      home := Waited(home, s, (h, mp), merged);
    }

    /** The close itself, after which the handler may have no holder left. */
    method CloseTop(s: StateId, h: HandlerId, mp: Instruction, merges: (StateId, StateId) -> bool)
      returns (ok: bool, merged: bool)
      requires Valid() && s !in inCloseMerge && s !in removedStates
      requires s in all && all[s].openMergeStack != [] && h == Top(all[s].openMergeStack)
      modifies `handlers, `sums, `pausedStates, `base, `misused, `inCloseMerge, `addedStates, `removedStates, `home,
               `all
      ensures h in old(handlers) && (merged <==> CanMerge(old(handlers)[h].reachedCloseMerge, mp, merges, s))
      ensures ok <==> !(merged && s in old(addedStates))
      ensures ok ==> Core() && Registered() && HeldBut(handlers, h) && addedStates == old(addedStates)
      ensures ok ==> removedStates == Ended(old(removedStates), s, merged)
      ensures ok ==> all == Popped(old(all), s) && handlers.Keys == old(handlers).Keys && h in handlers
      ensures ok ==> (handlers[h].openStates == [] <==> OnlyHolder(old(all), s, h))
      ensures ok ==> home == Waited(old(home), s, (h, mp), merged)
      ensures ok ==> Scheduled() == Entered(old(Scheduled()), s, merged)
    {
      MayClose(s, h);
      hide Holders, HoldersExact, Stacks, Groups, Homes, Means, Distinct, Elems, Below, Sets, Listed, AllHeld,
           HeldBut, OnlyHolder;
      hide OpenDropped, CountedIn, Distance, Grown, Popped, CanMerge, Waits, StackOk, With, Entered, Kept, PausedAlso,
           Waited, CoreOf, ClosedBy, Ended;
      ghost var mid;
      ok, merged, mid := EnterClose(s, h, mp, merges);
      if ok {
        ClosedCore(old(Scheduled()), old(pausedStates), pausedStates, mergeGroups, old(handlers), mid, handlers,
                   old(home), all, states, addedStates, old(removedStates), nextState, nextHandler, s, h, mp,
                   old(sums), sums, Distance(old(handlers)[h], all[s]), merged);
        all := Popped(all, s);
      }
    }

    /** The handler is let go by a state that was the last to hold it, or not. */
    method LetGo(h: HandlerId)
      requires Core() && Registered() && h in handlers && HeldBut(handlers, h)
      modifies `pausedStates, `base, `inCloseMerge, `misused, `home, `handlers, `mergeGroups
      ensures Valid() && Resumed(old(Scheduled()), Scheduled())
      ensures handlers.Keys == Remaining(old(handlers).Keys, h, old(handlers)[h].openStates == [])
      ensures h in handlers ==> home == old(home)
      ensures h !in handlers ==> NoneLeft(old(home), h, pausedStates)
    {
      CollectedHeld(handlers, h);
      ghost var before := home;
      hide Holders, HoldersExact, Stacks, Groups, Homes, Means, Distinct, Elems, Below, Sets, Listed, AllHeld, Waits,
           HeldBut, Resumed, Freed, CoreOf;
      Collect(h);
      if h !in handlers {
        HomesAlive();
      }
    }

    /** The waiting states are paused, and what they wait for is alive. */
    lemma HomesAlive()
      requires Core()
      ensures inCloseMerge == home.Keys && forall t :: t in pausedStates <==> t in home
      ensures forall t :: t in home ==> home[t].0 in handlers
    {
      assert forall t :: t in pausedStates <==> t in Elems(pausedStates);
      forall t | t in home
        ensures home[t].0 in handlers
      {
        assert HomeOk(t, home[t], handlers, all);
      }
    }

    /** It closes the handler and lets it go. */
    method CloseHandler(s: StateId, h: HandlerId, mp: Instruction, merges: (StateId, StateId) -> bool)
      returns (ok: bool, merged: bool)
      requires Valid() && s !in inCloseMerge && s !in removedStates
      requires s in all && all[s].openMergeStack != [] && h == Top(all[s].openMergeStack)
      modifies `handlers, `sums, `pausedStates, `base, `misused, `inCloseMerge, `addedStates, `removedStates, `home,
               `all, `mergeGroups
      ensures h in old(handlers) && (merged <==> CanMerge(old(handlers)[h].reachedCloseMerge, mp, merges, s))
      ensures ok <==> !(merged && s in old(addedStates))
      ensures ok ==> Valid() && addedStates == old(addedStates) && all == Popped(old(all), s)
      ensures ok ==> removedStates == Ended(old(removedStates), s, merged)
      ensures ok ==> Resumed(Entered(old(Scheduled()), s, merged), Scheduled())
      ensures ok ==> handlers.Keys == Remaining(old(handlers).Keys, h, OnlyHolder(old(all), s, h))
      ensures ok && h in handlers ==> home == Waited(old(home), s, (h, mp), merged)
      ensures ok && h !in handlers ==> s !in pausedStates && NoneLeft(old(home), h, pausedStates)
    {
      MayClose(s, h);
      hide Holders, HoldersExact, Stacks, StackOk, Groups, Homes, Means, Distinct, Elems, Below, Sets, Listed, AllHeld,
           HeldBut, OnlyHolder, Popped, With, Resumed, Thinned, Freed, CanMerge, CoreOf, NoneLeft, Waits, Entered,
           Ended, Waited, Remaining;
      ghost var before := home;
      ok, merged := CloseTop(s, h, mp, merges);
      if ok {
        LetGo(h);
        NoneLeftOf(before, s, (h, mp), merged, pausedStates);
      }
    }

    /** A state at the end of its innermost region: it is merged and ends, or it waits. The last state to
        close a region lets all that wait for it go on. A new state must not be merged. */
    method CloseMerge(s: StateId, mp: Instruction, merges: (StateId, StateId) -> bool) returns (ok: bool, merged: bool)
      requires Valid() && s in all && s !in inCloseMerge && s !in removedStates
      modifies `handlers, `sums, `pausedStates, `base, `misused, `inCloseMerge, `addedStates, `removedStates, `home,
               `all, `mergeGroups
      ensures merged <==> Merging(old(all), old(handlers), s, mp, merges)
      ensures ok <==> !(merged && s in old(addedStates))
      ensures ok ==> Valid() && addedStates == old(addedStates)
      ensures ok && old(InStep()) ==> InStep() && (Synced() <==> addedStates !! base)
      ensures ok && old(InStep()) ==>
                misused == (old(misused) || (old(all)[s].openMergeStack != [] && !merged && s !in old(base)))
      ensures ok && old(all)[s].openMergeStack == [] ==>
                all == old(all) && handlers == old(handlers) && home == old(home) && Scheduled() == old(Scheduled())
      ensures ok ==> removedStates == Ended(old(removedStates), s, merged)
      ensures ok && old(all)[s].openMergeStack != [] ==>
                var h := Top(old(all)[s].openMergeStack);
                && h in old(handlers) && all == Popped(old(all), s)
                && Resumed(Entered(old(Scheduled()), s, merged), Scheduled())
                && handlers.Keys == Remaining(old(handlers).Keys, h, OnlyHolder(old(all), s, h))
                && (h in handlers ==> home == Waited(old(home), s, (h, mp), merged))
                && (h !in handlers ==> s !in pausedStates && NoneLeft(old(home), h, pausedStates))
    {
      ok, merged := true, false;
      StepExact(all.Keys, states, addedStates, removedStates, nextState, Scheduled());
      hide Holders, HoldersExact, Stacks, StackOk, Groups, Homes, Means, Distinct, Elems, Below, Sets, Listed, AllHeld,
           HeldBut, OnlyHolder, Popped, With, Resumed, InStepOf, Thinned, Freed, CanMerge, CoreOf, NoneLeft, Waits;
      if all[s].openMergeStack != [] {
        hide Entered, Ended, Waited, Remaining;
        ok, merged := CloseHandler(s, Top(all[s].openMergeStack), mp, merges);
        if ok {
          ClosedStep(old(all.Keys), states, addedStates, old(removedStates), nextState, old(Scheduled()),
                     Entered(old(Scheduled()), s, merged), Scheduled(), s, merged);
        }
      }
    }

    // ----- the end of a state -----

    /** Leaves the open states of every handler on the stack; it fails at one whose open states it is not
        among. */
    method LeaveAll(stack: seq<HandlerId>, s: StateId) returns (ok: bool)
      requires StackOk(stack, handlers.Keys)
      requires forall h :: h in handlers ==> Distinct(handlers[h].openStates)
      modifies `handlers
      ensures ok <==> forall h :: h in stack ==> h in old(handlers) && s in old(handlers)[h].openStates
      ensures ok ==> OpenDropped(old(handlers), handlers, Elems(stack), s)
    {
      DroppedNone(handlers, s);
      hide OpenDropped, Elems, StackOk, Distinct;
      for i := 0 to |stack|
        invariant OpenDropped(old(handlers), handlers, Elems(stack[..i]), s)
        invariant forall j :: 0 <= j < i ==> stack[j] in old(handlers) && s in old(handlers)[stack[j]].openStates
      {
        ghost var mid := handlers;
        DroppedAt(old(handlers), mid, stack, i, s);
        var h := stack[i];
        if s !in handlers[h].openStates {
          assert h in stack;
          return false;
        }
        RemoveOpenState(h, s);
        DroppedMore(old(handlers), mid, handlers, stack, i, s);
      }
      assert stack[..|stack|] == stack;
      ok := true;
    }

    /** Every handler that was on the stack goes if no state holds it any more. */
    method CollectAll(stack: seq<HandlerId>)
      requires Core() && Registered() && StackOk(stack, handlers.Keys) && HeldOutside(handlers, stack)
      modifies `pausedStates, `base, `inCloseMerge, `misused, `home, `handlers, `mergeGroups
      ensures Valid() && Resumed(old(Scheduled()), Scheduled())
      ensures Thinned(home, old(home)) && Freed(old(home), home, handlers.Keys)
      ensures handlers.Keys <= old(handlers).Keys && forall h :: h in handlers ==>
              handlers[h].openStates == old(handlers)[h].openStates
    {
      hide Holders, HoldersExact, Stacks, Groups, Homes, Means, Distinct, Elems, Below, Sets, Listed, AllHeld, Waits,
           Thinned, Freed, Resumed;
      assert stack[0..] == stack;
      ThinnedSelf(home, handlers.Keys);
      ResumedSelf(Scheduled());
      for i := 0 to |stack|
        invariant Core() && Registered() && StackOk(stack[i..], handlers.Keys) && HeldOutside(handlers, stack[i..])
        invariant Resumed(old(Scheduled()), Scheduled()) && Thinned(home, old(home))
        invariant Freed(old(home), home, handlers.Keys)
        invariant handlers.Keys <= old(handlers).Keys
        invariant forall h :: h in handlers ==> handlers[h].openStates == old(handlers)[h].openStates
      {
        CollectedRest(handlers, stack, i);
        hide HeldOutside, StackOk;
        ghost var was, home', alive := Scheduled(), home, handlers.Keys;
        Collect(stack[i]);
        ResumedTwice(old(Scheduled()), was, Scheduled());
        ThinnedTwice(home, home', old(home), alive, handlers.Keys);
      }
      HeldAll(handlers, stack[|stack|..]);
    }

    /** The state leaves the handlers it holds and the lists it is on. */
    method Forget(s: StateId) returns (stack: seq<HandlerId>)
      requires Valid() && s in all && s !in inCloseMerge && (s in addedStates || s in removedStates)
      modifies `handlers, `all, `states, `addedStates, `removedStates
      ensures Core() && Registered() && StackOk(stack, handlers.Keys) && HeldOutside(handlers, stack)
      ensures all == old(all) - {s} && handlers.Keys == old(handlers).Keys
      ensures states == old(states) - {s} && addedStates == old(addedStates) - {s}
              && removedStates == old(removedStates) - {s}
      ensures s !in inCloseMerge
    {
      stack := all[s].openMergeStack;
      assert StackOk(stack, handlers.Keys);
      assert s !in home;
      AllDistinct(handlers, all);
      forall h | h in stack
        ensures h in handlers && s in handlers[h].openStates
      {
        assert HoldersExact(h, handlers[h].openStates, all);
      }
      hide Holders, HoldersExact, Stacks, Groups, Homes, Means, Distinct, Elems, Below, Sets, Listed, AllHeld, Waits;
      hide OpenDropped, StackOk;
      ghost var before := handlers;
      var ok := LeaveAll(stack, s);
      Deleted(s, before, handlers, all, home, sums);
      DeletedSets(all.Keys, states, addedStates, removedStates, nextState, s);
      DeletedWaits(pausedStates, inCloseMerge, home.Keys, all.Keys, removedStates, s);
      addedStates, states, removedStates := addedStates - {s}, states - {s}, removedStates - {s};
      all := all - {s};
    }

    /** The object of a state goes, and with it its hold on the handlers. */
    method Delete(s: StateId)
      requires Valid() && s in all && s !in inCloseMerge && (s in addedStates || s in removedStates)
      modifies this
      ensures Valid() && all == old(all) - {s}
      ensures states == old(states) - {s} && addedStates == old(addedStates) - {s}
              && removedStates == old(removedStates) - {s}
      ensures Resumed(old(Scheduled()), Scheduled()) && nextState == old(nextState)
      ensures Thinned(home, old(home)) && Freed(old(home), home, handlers.Keys) && handlers.Keys <= old(handlers).Keys
    {
      hide Core, Registered, AllHeld, HeldOutside, StackOk, Resumed, Thinned, Freed;
      var stack := Forget(s);
      CollectAll(stack);
    }

    /** Ends a state that does not wait: at once if it was never scheduled, else at the next update. The base
        searcher keeps a new state that has waited and gone on. */
    method TerminateState(s: StateId)
      requires Valid() && s in all && s !in inCloseMerge && s !in removedStates
      modifies this
      ensures Valid() && states == old(states) && nextState == old(nextState)
      ensures old(InStep()) ==> (InStep() <==> s in old(states) || s !in old(base)) && misused == old(misused)
      ensures old(InStep()) && InStep() ==> (Synced() <==> addedStates !! base)
      ensures Resumed(old(Scheduled()), Scheduled())
      ensures if s in old(addedStates) then addedStates == old(addedStates) - {s} && all == old(all) - {s}
              && removedStates == old(removedStates)
              else removedStates == old(removedStates) + {s} && addedStates == old(addedStates) && all == old(all)
    {
      EndSets(all.Keys, states, addedStates, removedStates, nextState, s);
      EndWaits(pausedStates, inCloseMerge, home.Keys, all.Keys, removedStates, s);
      ResumedSelf(Scheduled());
      hide Holders, HoldersExact, Stacks, Groups, Homes, Means, Distinct, Elems, Below, Sets, Listed, AllHeld, Waits,
           Resumed, InStepOf, Thinned, Freed;
      if s in addedStates {
        Delete(s);
      } else {
        removedStates := removedStates + {s};
      }
      EndedStep(old(all.Keys), old(states), old(addedStates), old(removedStates), nextState, old(Scheduled()),
                Scheduled(), s);
    }

    /** The new states may be added. */
    lemma StepParts()
      requires Core()
      ensures CoreOf(all, handlers, states + addedStates, {}, removedStates, pausedStates, inCloseMerge, nextState,
                     nextHandler, home, sums)
      ensures addedStates !! states && removedStates <= states && all.Keys == states + addedStates
      ensures inCloseMerge <= all.Keys - removedStates && forall s :: s in pausedStates <==> s in inCloseMerge
    {
      assert forall s :: s in pausedStates <==> s in Elems(pausedStates);
    }

    /** The end of a step. The base searcher is told what was added and removed unless the current state
        waits. It comes out in step exactly if in that case there was nothing to tell, and in the other no new
        state goes on waiting. */
    method UpdateStates(current: StateId)
      requires Valid() && InStep()
      modifies this
      ensures Valid() && addedStates == removedStates == {} && nextState == old(nextState)
      ensures states == (old(states) + old(addedStates)) - old(removedStates) && all == old(all) - old(removedStates)
      ensures forall s :: s in inCloseMerge <==> old(Lingers(s))
      ensures old(removedStates) == {} ==>
                && all == old(all) && handlers == old(handlers) && home == old(home)
                   && pausedStates == old(pausedStates)
                && base == if current in old(pausedStates) then old(base) else old(base) + old(addedStates)
      ensures Synced() <==>
                if current in old(pausedStates) then old(removedStates == {} && addedStates - inCloseMerge <= base)
                else forall s :: s in old(addedStates) ==> !old(Lingers(s))
      ensures misused <==>
        old(misused) || (current !in old(pausedStates) && TakenTwice(old(Scheduled()), old(addedStates), inCloseMerge))
    {
      ghost var start, removed := Scheduled(), removedStates;
      StepParts();
      hide Listed, AllHeld, CoreOf, Resumed, Thinned, Freed, InStepOf, TakenTwice, Told;
      UpdateSearcher(current);
      ghost var told := Scheduled();
      states := states + addedStates;
      addedStates := {};
      DeleteRemoved();
      WaitersLinger(old(home), old(all), removed);
      UpdatedExact(old(states), old(addedStates), removed, start, told, Scheduled(), current in old(pausedStates));
    }

    /** What the merging searcher does at the end of a step. */
    method UpdateSearcher(current: StateId)
      modifies `base, `misused
      ensures Scheduled() == if current in pausedStates then old(Scheduled())
                             else Told(old(Scheduled()), addedStates, removedStates)
    {
      if current !in pausedStates {
        misused := misused || !(addedStates !! base) || !(removedStates <= base + addedStates);
        base := base + addedStates - removedStates;
      }
    }

    /** Deletes what has ended. */
    method DeleteRemoved()
      requires Valid() && addedStates == {}
      modifies this
      ensures Valid() && addedStates == removedStates == {} && nextState == old(nextState)
      ensures states == old(states) - old(removedStates) && all == old(all) - old(removedStates)
      ensures Resumed(old(Scheduled()), Scheduled())
      ensures Thinned(home, old(home)) && Freed(old(home), home, handlers.Keys)
      ensures old(removedStates) == {} ==>
                && all == old(all) && handlers == old(handlers) && home == old(home)
                && pausedStates == old(pausedStates) && Scheduled() == old(Scheduled())
    {
      ResumedSelf(Scheduled());
      ThinnedSelf(home, handlers.Keys);
      hide Holders, HoldersExact, Stacks, Groups, Homes, Means, Distinct, Elems, Below, Sets, Listed, AllHeld, Waits,
           Resumed, Thinned, Freed;
      ghost var removed := removedStates;
      while removedStates != {}
        invariant Valid() && addedStates == {} && nextState == old(nextState)
        invariant removedStates <= removed && all == old(all) - (removed - removedStates)
        invariant states == old(states) - (removed - removedStates)
        invariant Resumed(old(Scheduled()), Scheduled()) && Thinned(home, old(home))
        invariant Freed(old(home), home, handlers.Keys)
        invariant removed == {} ==>
                    && handlers == old(handlers) && home == old(home) && pausedStates == old(pausedStates)
                    && Scheduled() == old(Scheduled())
        decreases removedStates
      {
        ghost var e := Element(removedStates);
        var es :| es in removedStates;
        ghost var was, home', alive, left := Scheduled(), home, handlers.Keys, removedStates;
        RemovedKnown(all.Keys, states, addedStates, removedStates, nextState, es);
        StillRemoved(pausedStates, inCloseMerge, home.Keys, all.Keys, removedStates, es);
        Delete(es);
        ResumedTwice(old(Scheduled()), was, Scheduled());
        ThinnedTwice(home, home', old(home), alive, handlers.Keys);
        OneFewer(old(all), old(states), removed, left, es);
      }
    }

    // ----- selection -----

    /** The first state that has yet to close and is not too far behind the others. */
    method GetPrioritizeState(h: HandlerId) returns (r: Option<StateId>)
      requires Valid() && Synced() && addedStates == {} && h in handlers
      ensures r.Some? ==> r.value in base && r.value in handlers[h].openStates
      ensures r.None? ==> forall s :: s in handlers[h].openStates && s !in inCloseMerge ==>
                s in all && Distance(handlers[h], all[s]) >= 2.0 * Mean(handlers[h])
    {
      var open := handlers[h].openStates;
      assert HoldersExact(h, open, all);
      for i := 0 to |open|
        invariant forall j :: 0 <= j < i && open[j] !in inCloseMerge ==>
                    open[j] in all && Distance(handlers[h], all[open[j]]) >= 2.0 * Mean(handlers[h])
      {
        var s := open[i];
        assert s in open && s in all;
        if s !in inCloseMerge && Distance(handlers[h], all[s]) < 2.0 * Mean(handlers[h]) {
          return Some(s);
        }
      }
      r := None;
    }

    /** The next state to run is one that does not wait, and there always is one; handlers whose open
        states have all fallen behind let go what waits for them. */
    method SelectState(incomplete: bool) returns (s: StateId)
      requires Valid() && Synced() && addedStates == {} && removedStates == {} && states != {}
      modifies `pausedStates, `base, `inCloseMerge, `misused, `home, `handlers
      ensures Valid() && Synced() && s in base && misused == old(misused)
    {
      if incomplete {
        for i := 0 to |mergeGroups|
          invariant Valid() && Synced() && misused == old(misused)
        {
          var h := mergeGroups[i];
          assert h in Elems(mergeGroups);
          if handlers[h].reachedCloseMerge != map[] {
            var r := GetPrioritizeState(h);
            if r.Some? {
              return r.value;
            }
            ReleaseHeld(h);
          }
        }
      }
      NeverStuck();
      ghost var e := Element(base);
      s :| s in base;
    }

    /** A release while the handler is still held. */
    method ReleaseHeld(h: HandlerId)
      requires Valid() && Synced() && addedStates == {} && h in handlers
      modifies `pausedStates, `base, `inCloseMerge, `misused, `home, `handlers
      ensures Valid() && Synced() && handlers == Cleared(old(handlers), h) && misused == old(misused)
    {
      ClearedHeld(handlers, h);
      assert inCloseMerge <= states;
      hide Holders, HoldersExact, Stacks, Groups, Homes, Means, Distinct, Elems, Below, Sets, Listed, AllHeld, Waits,
           Resumed;
      ReleaseStates(h);
      ResumedSynced(old(Scheduled()), Scheduled(), states);
    }
  }

  // ----- runs from the start -----

  /** A state opens a region and forks inside it. */
  method OpenAndFork() returns (e: Executor)
    ensures fresh(e) && e.Valid() && e.Synced() && e.InStep() && e.states == {0} && e.addedStates == {1}
            && e.removedStates == {} && !e.misused
    ensures e.all == map[0 := ExecutionState([0], 0), 1 := ExecutionState([0], 0)] && e.inCloseMerge == {}
    ensures e.pausedStates == [] && e.home == map[] && e.handlers.Keys == {0}
            && e.handlers[0].reachedCloseMerge == map[]
  {
    hide Holders, Stacks, Groups, Homes, Means, Waits, Below, Sets, Listed, AllHeld, Elems;
    e := new Executor();
    e.OpenMerge(0);
    assert e.all[0].openMergeStack == [0] && e.all == map[0 := ExecutionState([0], 0)];
    assert e.handlers.Keys == {0} && e.handlers[0].reachedCloseMerge == map[];
    var n := e.Fork(0);
    assert e.handlers.Keys == {0};
  }

  /** The same, and the update comes before either closes. */
  method BothOpen() returns (e: Executor)
    ensures fresh(e) && e.Valid() && e.Synced() && e.InStep() && e.states == {0, 1} && !e.misused
    ensures e.addedStates == e.removedStates == {} && e.inCloseMerge == {} && e.home == map[] && e.handlers.Keys == {0}
    ensures e.all == map[0 := ExecutionState([0], 0), 1 := ExecutionState([0], 0)]
            && e.handlers[0].reachedCloseMerge == map[]
  {
    hide Holders, Stacks, Groups, Homes, Means, Waits, Below, Sets, Listed, AllHeld, Elems;
    e := OpenAndFork();
    e.UpdateStates(0);
    e.HomesAlive();
    assert e.states == {0, 1};
  }

  /** When the update comes before either closes the first to close waits for the second, which is merged into
      it or not, and then all go on. */
  method RunMeets(mp: Instruction, mp': Instruction, merges: (StateId, StateId) -> bool) returns (e: Executor)
    ensures fresh(e) && e.Valid() && e.Synced() && e.states == e.base == {0, 1} && e.addedStates == {}
    ensures e.pausedStates == [] && e.inCloseMerge == {} && e.handlers == map[]
    ensures e.removedStates == if mp == mp' && merges(0, 1) then {1} else {}
  {
    hide Holders, Stacks, Groups, Homes, Means, Waits, Below, Sets, Listed, AllHeld, Elems;
    e := BothOpen();
    assert 1 in e.all && 0 in e.all[1].openMergeStack;
    var ok, merged := e.CloseMerge(0, mp, merges);
    assert 0 in e.handlers && e.home == map[0 := (0, mp)] && e.all[1].openMergeStack == [0];
    OneWaits(e, mp, mp', merges);
    ok, merged := e.CloseMerge(1, mp', merges);
    NoneWaits(e);
  }

  lemma OneWaits(e: Executor, mp: Instruction, mp': Instruction, merges: (StateId, StateId) -> bool)
    requires e.Valid() && e.home == map[0 := (0, mp)] && 0 in e.handlers
    ensures e.inCloseMerge == {0}
    ensures CanMerge(e.handlers[0].reachedCloseMerge, mp', merges, 1) <==> mp == mp' && merges(0, 1)
  {
    var groups := e.handlers[0].reachedCloseMerge;
    assert HomeOk(0, (0, mp), e.handlers, e.all) && GroupsOk(0, groups, e.home);
    assert mp in groups && 0 in groups[mp];
  }

  lemma NoneWaits(e: Executor)
    requires e.Valid() && e.handlers.Keys == {}
    ensures e.handlers == map[] && e.pausedStates == [] && e.inCloseMerge == {}
  {
    e.HomesAlive();
    if e.home.Keys != {} {
      var s := Element(e.home.Keys);
    }
    ElemsNone(e.pausedStates);
  }

  lemma ElemsNone(s: seq<int>)
    ensures s != [] ==> Elems(s) != {}
  {
    if s != [] {
      assert s[0] in Elems(s);
    }
  }

  /** Forking and closing in one step: the update finds the current state paused, and the searcher never
      hears of the new one. Nothing is left to schedule, though a state is neither waiting nor ended. */
  method RunStuck(mp: Instruction, merges: (StateId, StateId) -> bool) returns (e: Executor)
    ensures fresh(e) && e.Valid() && !e.Synced()
    ensures e.states == {0, 1} && e.inCloseMerge == {0} && e.addedStates == e.removedStates == {} && e.base == {}
  {
    hide Holders, Stacks, Groups, Homes, Means, Below, Sets, Listed, AllHeld;
    e := OpenAndFork();
    assert 1 in e.all && 0 in e.all[1].openMergeStack;
    var ok, merged := e.CloseMerge(0, mp, merges);
    FirstPaused(e, 0);
    e.UpdateStates(0);
  }

  /** The new state closes before the update: the base searcher is asked to take out a state it has not, and
      then, as the current state is not paused, is told of the new one. It schedules a state that waits. */
  method RunWaiting(mp: Instruction, merges: (StateId, StateId) -> bool) returns (e: Executor)
    ensures fresh(e) && e.Valid() && !e.Synced() && e.misused
    ensures e.states == e.base == {0, 1} && e.inCloseMerge == {1} && e.addedStates == e.removedStates == {}
  {
    hide Holders, Stacks, Groups, Homes, Means, Below, Sets, Listed, AllHeld;
    e := OpenAndFork();
    assert 0 in e.all && 0 in e.all[0].openMergeStack;
    var ok, merged := e.CloseMerge(1, mp, merges);
    FirstPaused(e, 1);
    e.UpdateStates(0);
  }

  /** A new state that is merged when it closes: the assertion failure. */
  method RunRefused(mp: Instruction, merges: (StateId, StateId) -> bool) returns (ok: bool)
    ensures ok <==> !merges(0, 1)
  {
    hide Holders, Stacks, Groups, Homes, Means, Below, Sets, Listed, AllHeld;
    var e := OpenAndFork();
    assert 1 in e.all && 0 in e.all[1].openMergeStack;
    var merged;
    ok, merged := e.CloseMerge(0, mp, merges);
    assert 0 in e.handlers && e.home == map[0 := (0, mp)] && e.all[1].openMergeStack == [0];
    OneWaits(e, mp, mp, merges);
    ok, merged := e.CloseMerge(1, mp, merges);
  }

  lemma FirstPaused(e: Executor, s: StateId)
    requires e.Valid() && e.home.Keys == {s}
    ensures e.inCloseMerge == {s} && s in e.pausedStates
  {
    assert s in Elems(e.pausedStates);
  }

  /** Both ways a close can go, for the handlers, the stacks and the waits. */
  lemma ClosedAll(s: StateId, h: HandlerId, mp: Instruction, before: map<HandlerId, MergeHandler>,
                  mid: map<HandlerId, MergeHandler>, after: map<HandlerId, MergeHandler>,
                  all: map<StateId, ExecutionState>, home: map<StateId, (HandlerId, Instruction)>,
                  sums: map<HandlerId, real>, sums': map<HandlerId, real>, d: real, merged: bool)
    requires h in before && OpenDropped(CountedIn(before, h, d), mid, {h}, s) && Means(mid, sums')
    requires s in all && all[s].openMergeStack != [] && h == Top(all[s].openMergeStack) && s !in home
    requires Kept(before, all, home, sums) && AllHeld(before) && h in mid
    requires after == if merged then mid else Grown(mid, h, mp, s)
    ensures after.Keys == before.Keys && Popped(all, s).Keys == all.Keys
    ensures Kept(after, Popped(all, s), Waited(home, s, (h, mp), merged), sums')
    ensures HeldBut(after, h) && h in after && (after[h].openStates == [] <==> OnlyHolder(all, s, h))
  {
    assert StackOk(all[s].openMergeStack, before.Keys);
    StackPop(all[s].openMergeStack, before.Keys);
    assert Popped(all, s)[s].openMergeStack == Rest(all[s].openMergeStack);
    assert Popped(all, s).Keys == all.Keys;
    hide Holders, HoldersExact, Stacks, StackOk, Groups, Homes, Means, Distinct, AllHeld, HeldBut, OnlyHolder;
    hide OpenDropped, CountedIn, Grown, Popped;
    ClosedOne(before, mid, h, s, d);
    ClosedHolders(s, h, before, mid, all);
    ClosedHomes(s, h, before, mid, all, home);
    ClosedHeld(s, h, mp, before, mid, all);
    WaitingMore(s, h, mp, mid, Popped(all, s), home);
    GrownKeeps(h, mp, s, mid, Popped(all, s), sums');
  }

  /** Where the states wait once one more has closed. */
  function Waited(home: map<StateId, (HandlerId, Instruction)>, s: StateId, at: (HandlerId, Instruction),
                  merged: bool): map<StateId, (HandlerId, Instruction)> {
    if merged then home else home[s := at]
  }

  /** The state has left the handler's open states, and waits there unless it is merged. */
  ghost predicate ClosedBy(before: map<HandlerId, MergeHandler>, mid: map<HandlerId, MergeHandler>,
                           after: map<HandlerId, MergeHandler>, h: HandlerId, mp: Instruction, s: StateId, d: real,
                           sums: map<HandlerId, real>, merged: bool) {
    && h in before && OpenDropped(CountedIn(before, h, d), mid, {h}, s) && Means(mid, sums)
    && h in mid && after == if merged then mid else Grown(mid, h, mp, s)
  }

  /** The handlers that are left when the last holder of one has let go, or not. */
  function Remaining(alive: set<HandlerId>, h: HandlerId, last: bool): set<HandlerId> {
    if last then alive - {h} else alive
  }

  /** A merged state ends. */
  function Ended(removed: set<StateId>, s: StateId, merged: bool): set<StateId> {
    if merged then With(removed, s) else removed
  }

  /** Who waited for the handler does not wait any more, and nobody else does who did not. */
  ghost predicate NoneLeft(before: map<StateId, (HandlerId, Instruction)>, h: HandlerId, paused: seq<StateId>) {
    forall t :: t in paused ==> t in before && before[t].0 != h
  }

  lemma NoneLeftOf(before: map<StateId, (HandlerId, Instruction)>, s: StateId, at: (HandlerId, Instruction),
                   merged: bool, paused: seq<StateId>)
    requires s !in before
    ensures NoneLeft(Waited(before, s, at, merged), at.0, paused) ==> s !in paused && NoneLeft(before, at.0, paused)
  {
  }

  lemma EnteredLeft(closing: set<StateId>, s: StateId)
    requires s !in closing
    ensures With(closing, s) - {s} == closing
  {
  }

  /** A merged state is not paused. */
  ghost predicate PausedAlso(before: seq<StateId>, after: seq<StateId>, s: StateId, merged: bool) {
    if merged then after == before else Distinct(after) && Elems(after) == With(Elems(before), s)
  }

  /** Both ways a close can go, for the waits and the executor's sets. */
  lemma ClosedWaits(a: Schedule, paused: seq<StateId>, paused': seq<StateId>,
                    home: map<StateId, (HandlerId, Instruction)>, all: set<StateId>, states: set<StateId>,
                    added: set<StateId>, removed: set<StateId>, next: int, s: StateId, at: (HandlerId, Instruction),
                    merged: bool)
    requires Waits(paused, a.closing, home.Keys, all - removed) && Sets(all, states, added, removed, next)
    requires s in all - removed && s !in a.closing && PausedAlso(paused, paused', s, merged) && !(merged && s in added)
    ensures var b, home' := Entered(a, s, merged), Waited(home, s, at, merged);
            var removed' := Ended(removed, s, merged);
            Waits(paused', b.closing, home'.Keys, all - removed') && Sets(all, states, added, removed', next)
  {
  }

  /** Both ways a close can go, for all invariants. */
  lemma ClosedCore(a: Schedule, paused: seq<StateId>, paused': seq<StateId>, groups: seq<HandlerId>,
                   before: map<HandlerId, MergeHandler>, mid: map<HandlerId, MergeHandler>,
                   after: map<HandlerId, MergeHandler>, home: map<StateId, (HandlerId, Instruction)>,
                   all: map<StateId, ExecutionState>, states: set<StateId>, added: set<StateId>,
                   removed: set<StateId>, next: int, nextHandler: int, s: StateId, h: HandlerId, mp: Instruction,
                   sums: map<HandlerId, real>, sums': map<HandlerId, real>, d: real, merged: bool)
    requires ClosedBy(before, mid, after, h, mp, s, d, sums', merged)
    requires s in all && all[s].openMergeStack != [] && h == Top(all[s].openMergeStack) && s !in home
    requires CoreOf(all, before, states, added, removed, paused, a.closing, next, nextHandler, home, sums)
    requires AllHeld(before) && Listed(groups, before.Keys)
    requires s !in removed && s !in a.closing && PausedAlso(paused, paused', s, merged) && !(merged && s in added)
    ensures CoreOf(Popped(all, s), after, states, added, Ended(removed, s, merged), paused',
                   Entered(a, s, merged).closing, next, nextHandler, Waited(home, s, (h, mp), merged), sums')
    ensures Listed(groups, after.Keys) && after.Keys == before.Keys
    ensures HeldBut(after, h) && h in after && (after[h].openStates == [] <==> OnlyHolder(all, s, h))
  {
    hide Sets, Waits, Kept, Below, AllHeld, Listed, OpenDropped, CountedIn, Grown, PausedAlso, Popped, HeldBut,
         OnlyHolder, Waited, Entered, Means;
    ClosedAll(s, h, mp, before, mid, after, all, home, sums, sums', d, merged);
    ClosedWaits(a, paused, paused', home, all.Keys, states, added, removed, next, s, (h, mp), merged);
  }

  ghost predicate HeldBut(handlers: map<HandlerId, MergeHandler>, h: HandlerId) {
    forall g :: g in handlers && g != h ==> handlers[g].openStates != []
  }

  lemma CollectedHeld(handlers: map<HandlerId, MergeHandler>, h: HandlerId)
    requires h in handlers && HeldBut(handlers, h)
    ensures AllHeld(if handlers[h].openStates == [] then handlers - {h} else handlers)
    ensures (handlers - {h}).Keys == handlers.Keys - {h}
  {
  }

  lemma ClosedHeld(s: StateId, h: HandlerId, mp: Instruction, before: map<HandlerId, MergeHandler>,
                   mid: map<HandlerId, MergeHandler>, all: map<StateId, ExecutionState>)
    requires s in all && OneClosed(before, mid, h, s) && Holders(before, all)
    ensures AllHeld(before) ==> HeldBut(Grown(mid, h, mp, s), h) && HeldBut(mid, h)
    ensures mid[h].openStates == [] <==> OnlyHolder(all, s, h)
  {
    assert HoldersExact(h, before[h].openStates, all);
    if mid[h].openStates != [] {
      var t := mid[h].openStates[0];
      assert t in mid[h].openStates;
    } else {
      forall t | t in all && h in all[t].openMergeStack
        ensures t == s
      {
        assert t in before[h].openStates;
        assert t !in mid[h].openStates;
      }
    }
  }

  lemma GrownKeeps(h: HandlerId, mp: Instruction, s: StateId, mid: map<HandlerId, MergeHandler>,
                   all: map<StateId, ExecutionState>, sums: map<HandlerId, real>)
    requires h in mid && Holders(mid, all) && Means(mid, sums)
    ensures var grown := Grown(mid, h, mp, s);
            grown.Keys == mid.Keys && Holders(grown, all) && Means(grown, sums)
              && grown[h].openStates == mid[h].openStates
  {
    hide MeanOk, HoldersExact;
  }

  function Top(stack: seq<HandlerId>): HandlerId
    requires stack != []
  {
    stack[|stack| - 1]
  }

  function Rest(stack: seq<HandlerId>): seq<HandlerId>
    requires stack != []
  {
    stack[..|stack| - 1]
  }

  function Popped(all: map<StateId, ExecutionState>, s: StateId): map<StateId, ExecutionState>
    requires s in all && all[s].openMergeStack != []
  {
    all[s := all[s].(openMergeStack := Rest(all[s].openMergeStack))]
  }

  /** No other state holds the handler. */
  predicate OnlyHolder(all: map<StateId, ExecutionState>, s: StateId, h: HandlerId) {
    forall t :: t in all && h in all[t].openMergeStack ==> t == s
  }

  lemma StackPop(stack: seq<HandlerId>, alive: set<HandlerId>)
    requires StackOk(stack, alive) && stack != []
    ensures StackOk(Rest(stack), alive)
    ensures forall h :: h in Rest(stack) <==> h in stack && h != Top(stack)
    ensures forall h :: h in Rest(stack) ==> h < Top(stack)
  {
    var rest := Rest(stack);
    forall h | h in stack && h != Top(stack)
      ensures h in rest
    {
      var i :| 0 <= i < |stack| && stack[i] == h;
      assert rest[i] == h;
    }
  }

  /** The handlers after a close: one has one open state fewer, and one more to its mean. */
  ghost predicate OneClosed(before: map<HandlerId, MergeHandler>, mid: map<HandlerId, MergeHandler>, h: HandlerId,
                            s: StateId) {
    && h in before && mid.Keys == before.Keys && (forall g :: g in before && g != h ==> mid[g] == before[g])
    && mid[h].reachedCloseMerge == before[h].reachedCloseMerge && Distinct(mid[h].openStates)
    && forall x :: x in mid[h].openStates <==> x in before[h].openStates && x != s
  }

  lemma ClosedOne(before: map<HandlerId, MergeHandler>, mid: map<HandlerId, MergeHandler>, h: HandlerId, s: StateId,
                  d: real)
    requires h in before && OpenDropped(CountedIn(before, h, d), mid, {h}, s)
    ensures OneClosed(before, mid, h, s)
  {
  }

  lemma ClosedHolders(s: StateId, h: HandlerId, before: map<HandlerId, MergeHandler>,
                      mid: map<HandlerId, MergeHandler>, all: map<StateId, ExecutionState>)
    requires s in all && all[s].openMergeStack != [] && h == Top(all[s].openMergeStack) && OneClosed(before, mid, h, s)
    requires Holders(before, all) && Stacks(all, before.Keys)
    ensures Holders(mid, Popped(all, s)) && Stacks(Popped(all, s), mid.Keys)
  {
    var all' := Popped(all, s);
    assert StackOk(all[s].openMergeStack, before.Keys);
    StackPop(all[s].openMergeStack, before.Keys);
    hide StackOk;
    forall g | g in mid
      ensures HoldersExact(g, mid[g].openStates, all')
    {
      assert HoldersExact(g, before[g].openStates, all);
    }
    forall t | t in all'
      ensures StackOk(all'[t].openMergeStack, mid.Keys)
    {
      assert StackOk(all[t].openMergeStack, before.Keys);
    }
  }

  lemma ClosedHomes(s: StateId, h: HandlerId, before: map<HandlerId, MergeHandler>, mid: map<HandlerId, MergeHandler>,
                    all: map<StateId, ExecutionState>,
                    home: map<StateId, (HandlerId, Instruction)>)
    requires s in all && all[s].openMergeStack != [] && s !in home && OneClosed(before, mid, h, s)
    requires Groups(before, home) && Homes(home, before, all)
    ensures Groups(mid, home) && Homes(home, mid, Popped(all, s))
  {
    hide GroupsOk, HomeOk;
    forall g | g in mid
      ensures GroupsOk(g, mid[g].reachedCloseMerge, home)
    {
      assert GroupsOk(g, before[g].reachedCloseMerge, home);
    }
    forall t | t in home
      ensures HomeOk(t, home[t], mid, Popped(all, s))
    {
      assert HomeOk(t, home[t], before, all);
      HomeKnown(t, home[t], before, all);
      HomeSame(t, home[t], before, all, mid, Popped(all, s));
    }
  }

  /** A state that has popped the handler can wait for it. */
  lemma WaitingMore(s: StateId, h: HandlerId, mp: Instruction, mid: map<HandlerId, MergeHandler>,
                    all: map<StateId, ExecutionState>, home: map<StateId, (HandlerId, Instruction)>)
    requires h in mid && s in all && s !in home && forall g :: g in all[s].openMergeStack ==> g < h
    requires Groups(mid, home) && Homes(home, mid, all)
    ensures Groups(Grown(mid, h, mp, s), home[s := (h, mp)]) && Homes(home[s := (h, mp)], Grown(mid, h, mp, s), all)
  {
    var mid', home' := Grown(mid, h, mp, s), home[s := (h, mp)];
    forall g | g in mid'
      ensures GroupsOk(g, mid'[g].reachedCloseMerge, home')
    {
      assert GroupsOk(g, mid[g].reachedCloseMerge, home);
    }
    forall t | t in home'
      ensures HomeOk(t, home'[t], mid', all)
    {
      if t != s {
        assert HomeOk(t, home[t], mid, all);
      }
    }
  }

  /** The state would be merged if it closed its innermost region. */
  predicate Merging(all: map<StateId, ExecutionState>, handlers: map<HandlerId, MergeHandler>, s: StateId,
                    mp: Instruction, merges: (StateId, StateId) -> bool) {
    s in all && all[s].openMergeStack != [] && Top(all[s].openMergeStack) in handlers
    && CanMerge(handlers[Top(all[s].openMergeStack)].reachedCloseMerge, mp, merges, s)
  }

  /** Some state that waits at the instruction can take the other in. */
  predicate CanMerge(groups: map<Instruction, seq<StateId>>, mp: Instruction, merges: (StateId, StateId) -> bool,
                     s: StateId) {
    mp in groups && exists t :: t in groups[mp] && merges(t, s)
  }

  /** The state joins the group at the instruction. */
  function Grown(handlers: map<HandlerId, MergeHandler>, h: HandlerId, mp: Instruction,
                 s: StateId): map<HandlerId, MergeHandler>
    requires h in handlers
  {
    var groups := handlers[h].reachedCloseMerge;
    handlers[h := handlers[h].(reachedCloseMerge := groups[mp := (if mp in groups then groups[mp] else []) + [s]])]
  }

  lemma CountedKeeps(handlers: map<HandlerId, MergeHandler>, h: HandlerId, d: real)
    requires h in handlers
    ensures CountedIn(handlers, h, d).Keys == handlers.Keys
    ensures CountedIn(handlers, h, d)[h].openStates == handlers[h].openStates
    ensures CountedIn(handlers, h, d)[h].reachedCloseMerge == handlers[h].reachedCloseMerge
  {
  }

  lemma DroppedKeeps(before: map<HandlerId, MergeHandler>, after: map<HandlerId, MergeHandler>, h: HandlerId,
                     s: StateId, sums: map<HandlerId, real>)
    requires OpenDropped(before, after, {h}, s) && h in before && Means(before, sums)
    ensures after.Keys == before.Keys && after[h].reachedCloseMerge == before[h].reachedCloseMerge && Means(after, sums)
  {
    hide MeanOk;
  }

  lemma Stepped(s: StateId, handlers: map<HandlerId, MergeHandler>, all: map<StateId, ExecutionState>,
                home: map<StateId, (HandlerId, Instruction)>, sums: map<HandlerId, real>)
    requires s in all && Kept(handlers, all, home, sums)
    ensures var all' := all[s := all[s].(steppedInstructions := all[s].steppedInstructions + 1)];
            all'.Keys == all.Keys && Kept(handlers, all', home, sums)
  {
    var all' := all[s := all[s].(steppedInstructions := all[s].steppedInstructions + 1)];
    forall h | h in handlers
      ensures HoldersExact(h, handlers[h].openStates, all')
    {
      assert HoldersExact(h, handlers[h].openStates, all);
    }
    forall t | t in all'
      ensures StackOk(all'[t].openMergeStack, handlers.Keys)
    {
      assert StackOk(all[t].openMergeStack, handlers.Keys);
    }
    forall t | t in home
      ensures HomeOk(t, home[t], handlers, all')
    {
      assert HomeOk(t, home[t], handlers, all);
    }
  }

  /** The instructions since the region was opened. */
  function Distance(h: MergeHandler, es: ExecutionState): real { (es.steppedInstructions - h.openInstruction) as real }

  function Mean(h: MergeHandler): real { if h.closedStateCount == 0 then 0.0 else h.closedMean }

  /** An incremental update of the mean. */
  function CountedIn(handlers: map<HandlerId, MergeHandler>, h: HandlerId, d: real): map<HandlerId, MergeHandler>
    requires h in handlers
  {
    var n := handlers[h].closedStateCount + 1;
    handlers[h := handlers[h].(closedStateCount := n,
      closedMean := handlers[h].closedMean + (d - handlers[h].closedMean) / n as real)]
  }

  lemma CountedMeans(handlers: map<HandlerId, MergeHandler>, sums: map<HandlerId, real>, h: HandlerId, d: real)
    requires h in handlers && Means(handlers, sums)
    ensures h in sums && Means(CountedIn(handlers, h, d), sums[h := sums[h] + d])
  {
    var old_ := handlers[h];
    MeanStep(old_.closedMean, d, (old_.closedStateCount + 1) as real);
    assert MeanOk(old_.closedMean, old_.closedStateCount, sums[h]);
    assert MeanOk(CountedIn(handlers, h, d)[h].closedMean, old_.closedStateCount + 1, sums[h] + d);
    hide MeanOk;
  }

  /** The state is registered with the handlers in `hs`. */
  function AddedTo(handlers: map<HandlerId, MergeHandler>, hs: set<HandlerId>,
                   n: StateId): map<HandlerId, MergeHandler> {
    map h | h in handlers :: if h in hs then handlers[h].(openStates := handlers[h].openStates + [n]) else handlers[h]
  }

  lemma AddedNone(handlers: map<HandlerId, MergeHandler>, n: StateId)
    ensures AddedTo(handlers, Elems([]), n) == handlers
  {
  }

  lemma AddedMore(handlers: map<HandlerId, MergeHandler>, stack: seq<HandlerId>, i: nat, n: StateId)
    requires i < |stack| && StackOk(stack, handlers.Keys)
    ensures var now := AddedTo(handlers, Elems(stack[..i]), n);
            && now.Keys == handlers.Keys && stack[i] in now
            && AddedTo(handlers, Elems(stack[..i + 1]), n)
               == now[stack[i] := now[stack[i]].(openStates := now[stack[i]].openStates + [n])]
  {
    assert stack[i] in stack && stack[i] !in Elems(stack[..i]);
    forall h
      ensures h in Elems(stack[..i + 1]) <==> h in Elems(stack[..i]) || h == stack[i]
    {
      assert stack[..i + 1] == stack[..i] + [stack[i]];
    }
  }

  lemma Forked(s: StateId, n: StateId, handlers: map<HandlerId, MergeHandler>, all: map<StateId, ExecutionState>,
               home: map<StateId, (HandlerId, Instruction)>,
               sums: map<HandlerId, real>, states: set<StateId>, added: set<StateId>, removed: set<StateId>)
    requires s in all && s !in home && Sets(all.Keys, states, added, removed, n)
    requires Holders(handlers, all) && Stacks(all, handlers.Keys) && Groups(handlers, home)
             && Homes(home, handlers, all)
    requires Means(handlers, sums)
    ensures var handlers' := AddedTo(handlers, Elems(all[s].openMergeStack), n);
            var all' := all[n := all[s]];
            && handlers'.Keys == handlers.Keys && Sets(all'.Keys, states, added + {n}, removed, n + 1)
            && Holders(handlers', all') && Stacks(all', handlers'.Keys) && Groups(handlers', home)
            && Homes(home, handlers', all') && Means(handlers', sums) && (AllHeld(handlers) ==> AllHeld(handlers'))
  {
    var handlers' := AddedTo(handlers, Elems(all[s].openMergeStack), n);
    var all' := all[n := all[s]];
    assert n !in all;
    hide MeanOk, HomeOk, StackOk, GroupsOk, HoldersExact, Distinct, Elems;
    forall h | h in handlers'
      ensures HoldersExact(h, handlers'[h].openStates, all')
    {
      ForkedHolder(s, n, h, handlers, all);
    }
    forall t | t in home
      ensures HomeOk(t, home[t], handlers', all')
    {
      assert HomeOk(t, home[t], handlers, all);
      HomeKnown(t, home[t], handlers, all);
      HomeSame(t, home[t], handlers, all, handlers', all');
    }
  }

  lemma ForkedHolder(s: StateId, n: StateId, h: HandlerId, handlers: map<HandlerId, MergeHandler>,
                     all: map<StateId, ExecutionState>)
    requires s in all && n !in all && h in handlers && HoldersExact(h, handlers[h].openStates, all)
    ensures HoldersExact(h, AddedTo(handlers, Elems(all[s].openMergeStack), n)[h].openStates, all[n := all[s]])
  {
  }

  /** What has left close merge is scheduled again. */
  ghost predicate Resumed(a: Schedule, b: Schedule) {
    && b.closing <= a.closing && b.base == a.base + (a.closing - b.closing)
    && (b.misused <==> a.misused || !(a.base !! (a.closing - b.closing)))
  }

  lemma ResumedSelf(a: Schedule)
    ensures Resumed(a, a)
  {
  }

  lemma ResumedTwice(a: Schedule, b: Schedule, c: Schedule)
    requires Resumed(a, b) && Resumed(b, c)
    ensures Resumed(a, c)
  {
    var first, second := a.closing - b.closing, b.closing - c.closing;
    assert a.closing - c.closing == first + second;
    assert b.base !! second <==> a.base !! second;
  }

  lemma ReleasedResumed(a: Schedule, b: Schedule, gone: set<StateId>)
    requires gone <= a.closing && b == Schedule(a.base + gone, a.closing - gone, a.misused || !(a.base !! gone))
    ensures Resumed(a, b)
  {
    assert a.closing - b.closing == gone;
  }

  lemma MetSnoc(base: set<StateId>, group: set<StateId>, x: StateId)
    requires x !in group
    ensures !(base !! (group + {x})) <==> !(base !! group) || x in base + group
  {
    assert x in group + {x};
  }

  lemma MetMore(base: set<StateId>, gone: set<StateId>, group: set<StateId>)
    requires gone !! group
    ensures !(base !! (gone + group)) <==> !(base !! gone) || !((base + gone) !! group)
  {
  }

  /** If the base searcher had what does not wait, it still has. */
  lemma ResumedSynced(a: Schedule, b: Schedule, scheduled: set<StateId>)
    requires Resumed(a, b) && a.closing <= scheduled && a.base == scheduled - a.closing
    ensures b.base == scheduled - b.closing && b.misused == a.misused
  {
  }

  /** The state has entered close merge: a merged one has left it again, the other is paused. */
  function Entered(a: Schedule, s: StateId, merged: bool): Schedule {
    if merged then a else Schedule(a.base - {s}, With(a.closing, s), a.misused || s !in a.base)
  }

  lemma StepExact(all: set<StateId>, states: set<StateId>, added: set<StateId>, removed: set<StateId>, next: int,
                  a: Schedule)
    requires Sets(all, states, added, removed, next)
    ensures InStepOf(a.base, states, added, a.closing) ==> (a.base == states - a.closing <==> added !! a.base)
  {
  }

  lemma ClosedStep(all: set<StateId>, states: set<StateId>, added: set<StateId>, removed: set<StateId>, next: int,
                   a: Schedule, mid: Schedule, b: Schedule, s: StateId, merged: bool)
    requires Sets(all, states, added, removed, next) && s in all && s !in a.closing && a.closing <= all
    requires mid == Entered(a, s, merged) && Resumed(mid, b)
    ensures InStepOf(a.base, states, added, a.closing) ==>
              && InStepOf(b.base, states, added, b.closing)
              && (b.base == states - b.closing <==> added !! b.base)
              && (b.misused <==> a.misused || (!merged && s !in a.base))
  {
    if InStepOf(a.base, states, added, a.closing) {
      assert InStepOf(mid.base, states, added, mid.closing);
      ResumedStep(states, added, mid, b);
      StepExact(all, states, added, removed, next, b);
    }
  }

  lemma ResumedStep(states: set<StateId>, added: set<StateId>, a: Schedule, b: Schedule)
    requires Resumed(a, b) && InStepOf(a.base, states, added, a.closing) && a.closing <= states + added
    ensures InStepOf(b.base, states, added, b.closing) && b.misused == a.misused
  {
  }

  lemma EndedStep(all: set<StateId>, states: set<StateId>, added: set<StateId>, removed: set<StateId>, next: int,
                  a: Schedule, b: Schedule, s: StateId)
    requires Sets(all, states, added, removed, next) && s in all && s !in a.closing && a.closing <= all
    requires Resumed(a, b)
    ensures s in states ==> added - {s} == added
    ensures InStepOf(a.base, states, added, a.closing) ==>
              && (InStepOf(b.base, states, added - {s}, b.closing) <==> s in states || s !in a.base)
              && b.misused == a.misused
    ensures InStepOf(b.base, states, added - {s}, b.closing) ==>
              (b.base == states - b.closing <==> (added - {s}) !! b.base)
  {
    if InStepOf(a.base, states, added, a.closing) {
      ResumedStep(states, added, a, b);
      assert s in b.base <==> s in a.base;
    }
  }

  /** What the base searcher has at the end of a step, and whether it was misused. */
  lemma UpdatedExact(states: set<StateId>, added: set<StateId>, removed: set<StateId>, a: Schedule, told: Schedule,
                     b: Schedule, paused: bool)
    requires added !! states && removed <= states && a.closing <= (states + added) - removed
    requires InStepOf(a.base, states, added, a.closing)
    requires told == if paused then a else Told(a, added, removed)
    requires Resumed(told, b) && (removed == {} ==> b == told)
    ensures removed == {} ==> b.base == if paused then a.base else a.base + added
    ensures b.base == (states + added) - removed - b.closing <==>
            if paused then removed == {} && added - a.closing <= a.base else forall s :: s in added ==> s !in b.closing
    ensures b.misused <==> a.misused || (!paused && TakenTwice(a, added, b.closing))
  {
    if paused {
      UpdatedPaused(states, added, removed, a, b);
    } else {
      UpdatedTold(states, added, removed, a, b);
    }
  }

  /** A new state that has gone on already, or goes on after it is added although it waited. */
  ghost predicate TakenTwice(a: Schedule, added: set<StateId>, closing: set<StateId>) {
    exists s :: s in added && (s in a.base || (s in a.closing && s !in closing))
  }

  function Told(a: Schedule, added: set<StateId>, removed: set<StateId>): Schedule {
    Schedule(a.base + added - removed, a.closing, a.misused || !(added !! a.base) || !(removed <= a.base + added))
  }

  lemma UpdatedPaused(states: set<StateId>, added: set<StateId>, removed: set<StateId>, a: Schedule, b: Schedule)
    requires added !! states && removed <= states && a.closing <= (states + added) - removed
    requires InStepOf(a.base, states, added, a.closing) && Resumed(a, b) && (removed == {} ==> b == a)
    ensures b.base == (states + added) - removed - b.closing <==> removed == {} && added - a.closing <= a.base
    ensures b.misused == a.misused
  {
    if removed != {} {
      var x := Element(removed);
      assert x in a.base && x in b.base;
    }
  }

  lemma Common<T>(s: set<T>, t: set<T>) returns (x: T)
    requires !(s !! t)
    ensures x in s && x in t
  {
    x :| x in s && x in t;
  }

  lemma UpdatedTold(states: set<StateId>, added: set<StateId>, removed: set<StateId>, a: Schedule, b: Schedule)
    requires added !! states && removed <= states && a.closing <= (states + added) - removed
    requires InStepOf(a.base, states, added, a.closing) && Resumed(Told(a, added, removed), b)
    ensures b.base == (states + added) - removed - b.closing <==> forall s :: s in added ==> s !in b.closing
    ensures b.misused <==> a.misused || TakenTwice(a, added, b.closing)
  {
    var told := Told(a, added, removed);
    assert removed <= a.base;
    if !(added !! a.base) {
      var s := Common(added, a.base);
      assert s in added && s in a.base;
    }
    if !(told.base !! (a.closing - b.closing)) {
      var s := Common(told.base, a.closing - b.closing);
      assert s in added && s in a.closing && s !in b.closing;
    }
    if TakenTwice(a, added, b.closing) {
      var s :| s in added && (s in a.base || (s in a.closing && s !in b.closing));
      assert s in a.base || s in told.base * (a.closing - b.closing);
    }
    if forall s :: s in added ==> s !in b.closing {
      forall s
        ensures s in b.base <==> s in (states + added) - removed - b.closing
      {
      }
    }
    if b.base == (states + added) - removed - b.closing {
      forall s | s in added
        ensures s !in b.closing
      {
        assert s in told.base;
      }
    }
  }

  /** Some waits are over, the others are as they were. */
  ghost predicate Thinned(now: map<StateId, (HandlerId, Instruction)>, before: map<StateId, (HandlerId, Instruction)>) {
    forall t :: t in now ==> t in before && now[t] == before[t]
  }

  /** Only waits for handlers that are gone are over. */
  ghost predicate Freed(before: map<StateId, (HandlerId, Instruction)>, now: map<StateId, (HandlerId, Instruction)>,
                        alive: set<HandlerId>) {
    forall t :: t in before && t !in now ==> before[t].0 !in alive
  }

  lemma AllDistinct(handlers: map<HandlerId, MergeHandler>, all: map<StateId, ExecutionState>)
    requires Holders(handlers, all)
    ensures forall h :: h in handlers ==> Distinct(handlers[h].openStates)
  {
    forall h | h in handlers
      ensures Distinct(handlers[h].openStates)
    {
      assert HoldersExact(h, handlers[h].openStates, all);
    }
  }

  /** Once it has left the handler the state cannot leave it again. */
  lemma LeftOnce(before: map<HandlerId, MergeHandler>, counted: map<HandlerId, MergeHandler>,
                 mid: map<HandlerId, MergeHandler>, h: HandlerId, d: real, stack: seq<HandlerId>, s: StateId)
    requires h in before && counted == CountedIn(before, h, d) && OpenDropped(counted, mid, {h}, s)
    requires StackOk(stack, before.Keys) && forall g :: g in before ==> Distinct(before[g].openStates)
    ensures StackOk(stack, mid.Keys) && (forall g :: g in mid ==> Distinct(mid[g].openStates))
    ensures h in mid && s !in mid[h].openStates
  {
    hide StackOk, Distinct;
    assert mid.Keys == before.Keys;
  }

  /** All handlers but those on the stack have open states. */
  ghost predicate HeldOutside(handlers: map<HandlerId, MergeHandler>, stack: seq<HandlerId>) {
    forall h :: h in handlers && h !in stack ==> handlers[h].openStates != []
  }

  lemma HeldAll(handlers: map<HandlerId, MergeHandler>, stack: seq<HandlerId>)
    requires HeldOutside(handlers, stack) && stack == []
    ensures AllHeld(handlers)
  {
  }

  /** One handler of the stack kept if it is held, dropped if not. */
  lemma CollectedRest(handlers: map<HandlerId, MergeHandler>, stack: seq<HandlerId>, i: nat)
    requires i < |stack| && StackOk(stack[i..], handlers.Keys) && HeldOutside(handlers, stack[i..])
    ensures stack[i] in handlers
    ensures var rest := if handlers[stack[i]].openStates == [] then handlers - {stack[i]} else handlers;
            StackOk(stack[i + 1..], rest.Keys) && HeldOutside(rest, stack[i + 1..])
  {
    var h := stack[i];
    var rest, less := stack[i..], stack[i + 1..];
    assert rest[0] == h && rest == [h] + less;
    assert h in rest && forall j :: 0 <= j < |less| ==> less[j] == rest[j + 1];
    forall g | g in less
      ensures g in rest && g != h
    {
      var j :| 0 <= j < |less| && less[j] == g;
      assert rest[0] < rest[j + 1];
    }
    assert (handlers - {h}).Keys == handlers.Keys - {h};
  }

  lemma DroppedNone(handlers: map<HandlerId, MergeHandler>, s: StateId)
    ensures OpenDropped(handlers, handlers, Elems([]), s)
  {
  }

  lemma DroppedAt(before: map<HandlerId, MergeHandler>, mid: map<HandlerId, MergeHandler>, stack: seq<HandlerId>,
                  i: nat, s: StateId)
    requires i < |stack| && StackOk(stack, before.Keys) && OpenDropped(before, mid, Elems(stack[..i]), s)
    ensures stack[i] in stack && stack[i] in before && stack[i] in mid && mid[stack[i]] == before[stack[i]]
  {
    assert stack[i] in stack && stack[i] !in stack[..i];
    assert stack[i] !in Elems(stack[..i]);
  }

  lemma DroppedMore(before: map<HandlerId, MergeHandler>, mid: map<HandlerId, MergeHandler>,
                    after: map<HandlerId, MergeHandler>,
                    stack: seq<HandlerId>, i: nat, s: StateId)
    requires i < |stack| && StackOk(stack, before.Keys)
    requires OpenDropped(before, mid, Elems(stack[..i]), s) && OpenDropped(mid, after, {stack[i]}, s)
    ensures OpenDropped(before, after, Elems(stack[..i + 1]), s)
  {
    DroppedAt(before, mid, stack, i, s);
    forall h
      ensures h in Elems(stack[..i + 1]) <==> h in Elems(stack[..i]) || h == stack[i]
    {
      assert stack[..i + 1] == stack[..i] + [stack[i]];
    }
    hide Elems, Distinct;
  }

  lemma Deleted(s: StateId, before: map<HandlerId, MergeHandler>, after: map<HandlerId, MergeHandler>,
                all: map<StateId, ExecutionState>,
                home: map<StateId, (HandlerId, Instruction)>, sums: map<HandlerId, real>)
    requires s in all && s !in home && OpenDropped(before, after, Elems(all[s].openMergeStack), s)
    requires Holders(before, all) && Stacks(all, before.Keys) && Groups(before, home) && Homes(home, before, all)
             && Means(before, sums)
    ensures after.Keys == before.Keys && (all - {s}).Keys == all.Keys - {s}
    ensures Holders(after, all - {s}) && Stacks(all - {s}, after.Keys) && Groups(after, home)
            && Homes(home, after, all - {s})
    ensures Means(after, sums) && StackOk(all[s].openMergeStack, after.Keys)
    ensures AllHeld(before) ==> HeldOutside(after, all[s].openMergeStack)
  {
    hide MeanOk, StackOk, HomeOk, GroupsOk;
    assert forall h :: h in Elems(all[s].openMergeStack) <==> h in all[s].openMergeStack;
    hide Elems;
    forall h | h in after
      ensures HoldersExact(h, after[h].openStates, all - {s})
    {
      assert HoldersExact(h, before[h].openStates, all);
    }
    forall t | t in home
      ensures HomeOk(t, home[t], after, all - {s})
    {
      assert HomeOk(t, home[t], before, all);
      HomeKnown(t, home[t], before, all);
      HomeSame(t, home[t], before, all, after, all - {s});
    }
    assert StackOk(all[s].openMergeStack, before.Keys);
    forall h | h in before
      ensures GroupsOk(h, after[h].reachedCloseMerge, home)
    {
      assert GroupsOk(h, before[h].reachedCloseMerge, home);
    }
  }

  lemma DeletedSets(all: set<StateId>, states: set<StateId>, added: set<StateId>, removed: set<StateId>, next: int,
                    s: StateId)
    requires Sets(all, states, added, removed, next)
    ensures Sets(all - {s}, states - {s}, added - {s}, removed - {s}, next)
  {
  }

  lemma DeletedWaits(paused: seq<StateId>, closing: set<StateId>, waiting: set<StateId>, states: set<StateId>,
                     removed: set<StateId>, s: StateId)
    requires Waits(paused, closing, waiting, states - removed) && s !in waiting
    ensures Waits(paused, closing, waiting, (states - {s}) - (removed - {s}))
  {
  }

  lemma EndSets(all: set<StateId>, states: set<StateId>, added: set<StateId>, removed: set<StateId>, next: int,
                s: StateId)
    requires Sets(all, states, added, removed, next) && s in all
    ensures s in added ==> states - {s} == states && removed - {s} == removed
    ensures s !in added ==> Sets(all, states, added, removed + {s}, next)
  {
  }

  lemma EndWaits(paused: seq<StateId>, closing: set<StateId>, waiting: set<StateId>, states: set<StateId>,
                 removed: set<StateId>, s: StateId)
    requires Waits(paused, closing, waiting, states - removed) && s !in closing
    ensures Waits(paused, closing, waiting, states - (removed + {s})) && closing <= states
  {
  }

  lemma StillRemoved(paused: seq<StateId>, closing: set<StateId>, waiting: set<StateId>, all: set<StateId>,
                     removed: set<StateId>, s: StateId)
    requires Waits(paused, closing, waiting, all - removed) && s in removed
    ensures s !in closing
  {
  }

  lemma OneFewer(all: map<StateId, ExecutionState>, states: set<StateId>, removed: set<StateId>, left: set<StateId>,
                 s: StateId)
    requires s in left && left <= removed
    ensures all - (removed - left) - {s} == all - (removed - (left - {s}))
    ensures states - (removed - left) - {s} == states - (removed - (left - {s}))
  {
    assert removed - (left - {s}) == removed - left + {s};
  }

  lemma RemovedKnown(all: set<StateId>, states: set<StateId>, added: set<StateId>, removed: set<StateId>, next: int,
                     s: StateId)
    requires Sets(all, states, added, removed, next) && s in removed
    ensures s in all
  {
  }

  lemma ClearedHeld(handlers: map<HandlerId, MergeHandler>, h: HandlerId)
    requires h in handlers && AllHeld(handlers)
    ensures AllHeld(Cleared(handlers, h)) && Cleared(handlers, h).Keys == handlers.Keys
  {
  }

  lemma ThinnedSelf(home: map<StateId, (HandlerId, Instruction)>, alive: set<HandlerId>)
    ensures Thinned(home, home) && Freed(home, home, alive)
  {
  }

  lemma ThinnedTwice(now: map<StateId, (HandlerId, Instruction)>, mid: map<StateId, (HandlerId, Instruction)>,
                     before: map<StateId, (HandlerId, Instruction)>, alive: set<HandlerId>, alive': set<HandlerId>)
    requires Thinned(now, mid) && Thinned(mid, before) && Freed(before, mid, alive) && Freed(mid, now, alive')
    requires alive' <= alive
    ensures Thinned(now, before) && Freed(before, now, alive')
  {
  }

  lemma ReleasedFreed(h: HandlerId, alive: set<HandlerId>, home: map<StateId, (HandlerId, Instruction)>,
                      gone: set<StateId>)
    requires Released(h, {}, home, gone)
    ensures Freed(home, home - gone, alive - {h})
  {
  }

  lemma BelowLess(alive: set<HandlerId>, h: HandlerId, n: int)
    requires Below(alive, n)
    ensures Below(alive - {h}, n)
  {
  }

  lemma ElemsPop(s: seq<HandlerId>, i: nat)
    requires i < |s| && Distinct(s)
    ensures Elems(SwapPop(s, i)) == Elems(s) - {s[i]} && Distinct(SwapPop(s, i))
  {
  }

  lemma ElemsPush(s: seq<HandlerId>, x: HandlerId)
    ensures Elems(s + [x]) == Elems(s) + {x}
    ensures Distinct(s) && x !in Elems(s) ==> Distinct(s + [x])
  {
  }

  lemma ListedMore(groups: seq<HandlerId>, alive: set<HandlerId>, h: HandlerId)
    requires Listed(groups, alive) && h !in alive
    ensures Listed(groups + [h], alive + {h})
  {
    ElemsPush(groups, h);
  }

  lemma ListedLess(groups: seq<HandlerId>, alive: set<HandlerId>, i: nat)
    requires Listed(groups, alive) && i < |groups|
    ensures Distinct(groups) && Listed(SwapPop(groups, i), alive - {groups[i]})
  {
    ElemsPop(groups, i);
  }

  /** The state has left the open states of the handlers in `hs`. */
  ghost predicate OpenDropped(before: map<HandlerId, MergeHandler>, after: map<HandlerId, MergeHandler>,
                              hs: set<HandlerId>, s: StateId) {
    && after.Keys == before.Keys
    && forall h :: h in before ==>
         && after[h] == before[h].(openStates := after[h].openStates)
         && if h in hs then
              Distinct(after[h].openStates) && forall x :: x in after[h].openStates <==>
                x in before[h].openStates && x != s
            else after[h] == before[h]
  }

  lemma HandlerDropped(h: HandlerId, handlers: map<HandlerId, MergeHandler>, all: map<StateId, ExecutionState>,
                       home: map<StateId, (HandlerId, Instruction)>, sums: map<HandlerId, real>)
    requires h in handlers && handlers[h].openStates == [] && handlers[h].reachedCloseMerge == map[]
    requires Holders(handlers, all) && Stacks(all, handlers.Keys) && Groups(handlers, home)
             && Homes(home, handlers, all)
    requires Means(handlers, sums)
    ensures var rest := handlers - {h};
            && rest.Keys == handlers.Keys - {h}
            && Holders(rest, all) && Stacks(all, rest.Keys) && Groups(rest, home) && Homes(home, rest, all)
               && Means(rest, sums)
  {
    hide MeanOk;
    var rest := handlers - {h};
    assert HoldersExact(h, handlers[h].openStates, all);
    forall s | s in all
      ensures StackOk(all[s].openMergeStack, rest.Keys)
    {
      assert StackOk(all[s].openMergeStack, handlers.Keys);
    }
    forall s | s in home
      ensures HomeOk(s, home[s], rest, all)
    {
      assert HomeOk(s, home[s], handlers, all);
    }
  }

  /** A new handler, held by one state. */
  function Opening(handlers: map<HandlerId, MergeHandler>, all: map<StateId, ExecutionState>, s: StateId,
                   h: HandlerId): map<HandlerId, MergeHandler>
    requires s in all
  {
    handlers[h := MergeHandler(all[s].steppedInstructions, [s], map[], 0.0, 0)]
  }

  function Pushed(all: map<StateId, ExecutionState>, s: StateId, h: HandlerId): map<StateId, ExecutionState>
    requires s in all
  {
    all[s := all[s].(openMergeStack := all[s].openMergeStack + [h])]
  }

  /** A new handler on top of the stack of a state that does not wait. */
  lemma Opened(s: StateId, h: HandlerId, handlers: map<HandlerId, MergeHandler>, all: map<StateId, ExecutionState>,
               home: map<StateId, (HandlerId, Instruction)>,
               sums: map<HandlerId, real>)
    requires s in all && s !in home && Below(handlers.Keys, h)
    requires Holders(handlers, all) && Stacks(all, handlers.Keys) && Groups(handlers, home)
             && Homes(home, handlers, all)
    requires Means(handlers, sums)
    ensures var handlers' := Opening(handlers, all, s, h);
            var all' := Pushed(all, s, h);
            && h !in handlers && handlers'.Keys == handlers.Keys + {h} && Below(handlers'.Keys, h + 1)
               && all'.Keys == all.Keys
            && (AllHeld(handlers) ==> AllHeld(handlers'))
            && Holders(handlers', all') && Stacks(all', handlers'.Keys) && Groups(handlers', home)
            && Homes(home, handlers', all') && Means(handlers', sums[h := 0.0])
  {
    OpenedHolders(s, h, handlers, all);
    OpenedHomes(s, h, handlers, all, home);
    OpenedMeans(s, h, handlers, all, sums);
    hide HoldersExact, StackOk, HomeOk, MeanOk, Holders, Stacks, Groups, Homes, Means;
  }

  lemma StackPush(stack: seq<HandlerId>, alive: set<HandlerId>, h: HandlerId)
    requires StackOk(stack, alive) && Below(alive, h)
    ensures StackOk(stack + [h], alive + {h}) && StackOk(stack, alive + {h})
  {
    var more := stack + [h];
    forall i, j | 0 <= i < j < |more|
      ensures more[i] < more[j]
    {
      assert stack[i] in stack;
    }
  }

  lemma OpenedMeans(s: StateId, h: HandlerId, handlers: map<HandlerId, MergeHandler>,
                    all: map<StateId, ExecutionState>, sums: map<HandlerId, real>)
    requires s in all && Means(handlers, sums)
    ensures Means(Opening(handlers, all, s, h), sums[h := 0.0])
  {
    assert MeanOk(0.0, 0, 0.0);
    hide MeanOk;
  }

  lemma OpenedHolders(s: StateId, h: HandlerId, handlers: map<HandlerId, MergeHandler>,
                      all: map<StateId, ExecutionState>)
    requires s in all && Below(handlers.Keys, h) && Holders(handlers, all) && Stacks(all, handlers.Keys)
    ensures var handlers' := Opening(handlers, all, s, h);
            var all' := Pushed(all, s, h);
            Holders(handlers', all') && Stacks(all', handlers'.Keys)
  {
    var handlers' := Opening(handlers, all, s, h);
    var all' := Pushed(all, s, h);
    assert h !in handlers;
    forall t | t in all
      ensures StackOk(all'[t].openMergeStack, handlers'.Keys)
      ensures h !in all[t].openMergeStack
    {
      assert StackOk(all[t].openMergeStack, handlers.Keys);
      StackPush(all[t].openMergeStack, handlers.Keys, h);
    }
    forall g | g in handlers'
      ensures HoldersExact(g, handlers'[g].openStates, all')
    {
      if g != h {
        assert HoldersExact(g, handlers[g].openStates, all);
      }
    }
  }

  /** Waiting depends on the groups of one handler and the stack of one state. */
  lemma HomeSame(t: StateId, at: (HandlerId, Instruction), handlers: map<HandlerId, MergeHandler>,
                 all: map<StateId, ExecutionState>,
                 handlers': map<HandlerId, MergeHandler>, all': map<StateId, ExecutionState>)
    requires HomeOk(t, at, handlers, all) && t in all && t in all' && at.0 in handlers
             && all'[t].openMergeStack == all[t].openMergeStack
    requires at.0 in handlers' && handlers'[at.0].reachedCloseMerge == handlers[at.0].reachedCloseMerge
    ensures HomeOk(t, at, handlers', all')
  {
  }

  lemma OpenedHomes(s: StateId, h: HandlerId, handlers: map<HandlerId, MergeHandler>,
                    all: map<StateId, ExecutionState>, home: map<StateId, (HandlerId, Instruction)>)
    requires s in all && s !in home && Below(handlers.Keys, h) && Groups(handlers, home) && Homes(home, handlers, all)
    ensures var handlers' := Opening(handlers, all, s, h);
            var all' := Pushed(all, s, h);
            Groups(handlers', home) && Homes(home, handlers', all')
  {
    var handlers' := Opening(handlers, all, s, h);
    var all' := Pushed(all, s, h);
    assert h !in handlers;
    forall t | t in home
      ensures HomeOk(t, home[t], handlers', all')
    {
      assert HomeOk(t, home[t], handlers, all);
      HomeKnown(t, home[t], handlers, all);
      HomeSame(t, home[t], handlers, all, handlers', all');
    }
  }

  /** Of the waiting states those of the handler's groups not in `todo`. */
  ghost predicate Released(h: HandlerId, todo: set<Instruction>, home: map<StateId, (HandlerId, Instruction)>,
                           gone: set<StateId>) {
    gone <= home.Keys && forall s :: s in home ==> (s in gone <==> home[s].0 == h && home[s].1 !in todo)
  }

  function Cleared(handlers: map<HandlerId, MergeHandler>, h: HandlerId): map<HandlerId, MergeHandler>
    requires h in handlers
  {
    handlers[h := handlers[h].(reachedCloseMerge := map[])]
  }

  lemma ClearedDropped(handlers: map<HandlerId, MergeHandler>, h: HandlerId)
    requires h in handlers
    ensures Cleared(handlers, h) - {h} == handlers - {h} && (handlers - {h}).Keys == handlers.Keys - {h}
  {
  }

  lemma ReleasedNone(h: HandlerId, handlers: map<HandlerId, MergeHandler>,
                     home: map<StateId, (HandlerId, Instruction)>, all: map<StateId, ExecutionState>)
    requires h in handlers && Homes(home, handlers, all)
    ensures Released(h, handlers[h].reachedCloseMerge.Keys, home, {})
  {
    forall s | s in home && home[s].0 == h
      ensures home[s].1 in handlers[h].reachedCloseMerge
    {
      assert HomeOk(s, home[s], handlers, all);
    }
  }

  lemma ReleasedMore(h: HandlerId, handlers: map<HandlerId, MergeHandler>, todo: set<Instruction>,
                     home: map<StateId, (HandlerId, Instruction)>,
                     all: map<StateId, ExecutionState>, gone: set<StateId>, mp: Instruction)
    requires h in handlers && mp in todo && mp in handlers[h].reachedCloseMerge
    requires Groups(handlers, home) && Homes(home, handlers, all) && Released(h, todo, home, gone)
    ensures var group := handlers[h].reachedCloseMerge[mp];
            && Distinct(group) && Elems(group) <= home.Keys - gone
            && Released(h, todo - {mp}, home, gone + Elems(group))
  {
    var group := handlers[h].reachedCloseMerge[mp];
    assert GroupsOk(h, handlers[h].reachedCloseMerge, home);
    forall s | s in home && home[s] == (h, mp)
      ensures s in group
    {
      assert HomeOk(s, home[s], handlers, all);
    }
    forall s | s in Elems(group)
      ensures s in home && s !in gone
    {
      assert home[s] == (h, mp);
    }
  }

  lemma ReleasedGroups(h: HandlerId, handlers: map<HandlerId, MergeHandler>,
                       home: map<StateId, (HandlerId, Instruction)>, gone: set<StateId>)
    requires h in handlers && Released(h, {}, home, gone) && Groups(handlers, home)
    ensures Groups(Cleared(handlers, h), home - gone)
  {
    forall g | g in handlers
      ensures GroupsOk(g, Cleared(handlers, h)[g].reachedCloseMerge, home - gone)
    {
      assert GroupsOk(g, handlers[g].reachedCloseMerge, home);
    }
  }

  lemma ReleasedHomes(h: HandlerId, handlers: map<HandlerId, MergeHandler>,
                      home: map<StateId, (HandlerId, Instruction)>, all: map<StateId, ExecutionState>,
                      gone: set<StateId>)
    requires h in handlers && Released(h, {}, home, gone) && Homes(home, handlers, all)
    ensures Homes(home - gone, Cleared(handlers, h), all)
  {
    hide HomeOk;
    forall s | s in home - gone
      ensures HomeOk(s, (home - gone)[s], Cleared(handlers, h), all)
    {
      assert HomeOk(s, home[s], handlers, all);
      HomeKnown(s, home[s], handlers, all);
      HomeSame(s, home[s], handlers, all, Cleared(handlers, h), all);
    }
  }

  lemma HomeKnown(s: StateId, at: (HandlerId, Instruction), handlers: map<HandlerId, MergeHandler>,
                  all: map<StateId, ExecutionState>)
    requires HomeOk(s, at, handlers, all)
    ensures s in all && at.0 in handlers
  {
  }

  lemma ReleasedAll(h: HandlerId, handlers: map<HandlerId, MergeHandler>,
                    home: map<StateId, (HandlerId, Instruction)>, all: map<StateId, ExecutionState>,
                    sums: map<HandlerId, real>, gone: set<StateId>)
    requires h in handlers && Released(h, {}, home, gone)
    requires Holders(handlers, all) && Groups(handlers, home) && Homes(home, handlers, all) && Means(handlers, sums)
    ensures Cleared(handlers, h).Keys == handlers.Keys
    ensures Holders(Cleared(handlers, h), all) && Groups(Cleared(handlers, h), home - gone)
    ensures Homes(home - gone, Cleared(handlers, h), all) && Means(Cleared(handlers, h), sums)
  {
    ReleasedGroups(h, handlers, home, gone);
    ReleasedHomes(h, handlers, home, all, gone);
    hide HoldersExact, Groups, Homes, Released, MeanOk;
  }
}
