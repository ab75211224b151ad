/** What one tick of each node kind promises, stated over `Nodes.Tick`:
    the composites' cursor and reset discipline, Parallel's threshold, the
    decorators' gates and counters, and the leaves' fault handling. */
module TickProperties {
  import opened Stores
  import opened Nodes
  import opened ResetProperties
  import opened Int32s

  /** A callback that leaves the store alone and always returns `st`. */
  function Completes(st: NodeState): Callback<NodeState>
  {
    (s: Store) => Returned(st, s)
  }

  // ---------------------------------------------------------------------
  // Leaves
  // ---------------------------------------------------------------------

  /** Condition: true is Success, false is Failure, a thrown fault is
      Failure; the fault never leaves the leaf, and the store is what the
      callback left behind. */
  lemma ConditionMapsVerdict(id: NodeId, cond: Callback<bool>, s: Store, now: real)
    ensures Tick(Condition(id, cond), s, now).Returned?
    ensures Tick(Condition(id, cond), s, now).store == cond(s).store
    ensures Tick(Condition(id, cond), s, now).value == Success <==> cond(s).Returned? && cond(s).value
    ensures Tick(Condition(id, cond), s, now).value != Running
  {
  }

  /** Action: the callback's state is passed through, a fault becomes
      Failure and never leaves the leaf. */
  lemma ActionPassesResult(id: NodeId, act: Callback<NodeState>, s: Store, now: real)
    ensures Tick(Action(id, act), s, now).Returned?
    ensures Tick(Action(id, act), s, now).store == act(s).store
    ensures act(s).Returned? ==> Tick(Action(id, act), s, now).value == act(s).value
    ensures act(s).Threw? ==> Tick(Action(id, act), s, now).value == Failure
  {
  }

  // ---------------------------------------------------------------------
  // Sequence and Selector
  // ---------------------------------------------------------------------

  /** The store a Running composite leaves: `t`, the store as the Running
      child `j` left it, with the cursor set to `j`. */
  predicate RanInto(n: Node, j: int, sj: Store, now: real, t: Store)
    requires IsComposite(n)
  {
    0 <= j < |n.children| &&
    Tick(n.children[j], sj, now).Returned? && Tick(n.children[j], sj, now).value == Running &&
    t == Set(Tick(n.children[j], sj, now).store, CurrentKey(n.id), IntV(j))
  }

  /** Loop form of the cursor property: a Running result is the store as
      some child `j`, at or after the starting child, left it when it
      returned Running, with `j` stored under the cursor key. */
  lemma {:induction false} LoopRunningStoresCursor(n: Node, i: nat, s: Store, now: real)
    requires n.Sequence? || n.Selector?
    ensures var r := CompositeLoop(n, i, s, now);
      r.Returned? && r.value == Running ==>
        exists j, sj :: i <= j && RanInto(n, j, sj, now, r.store)
    ensures var r := CompositeLoop(n, i, s, now);
      r.Returned? && r.value == Running ==>
        CurrentKey(n.id) in r.store && r.store[CurrentKey(n.id)].IntV? &&
        i <= r.store[CurrentKey(n.id)].i < |n.children|
    decreases |n.children| - i
  {
    if i < |n.children| {
      match Tick(n.children[i], s, now)
      case Threw(_) =>
      case Returned(st, s1) =>
        if st == Running {
          assert RanInto(n, i, s, now, CompositeLoop(n, i, s, now).store);
        } else if st == Advance(n) {
          LoopRunningStoresCursor(n, i + 1, s1, now);
        }
    }
  }

  /** Loop form of the reset property: every Success or Failure the loop
      returns comes with the store as `Reset(n, _)` left it. */
  lemma {:induction false} LoopDoneResets(n: Node, i: nat, s: Store, now: real)
    requires n.Sequence? || n.Selector?
    ensures var r := CompositeLoop(n, i, s, now);
      r.Returned? && r.value != Running ==> exists s1 :: r.store == Reset(n, s1)
    decreases |n.children| - i
  {
    if |n.children| <= i {
      assert CompositeLoop(n, i, s, now).store == Reset(n, s);
    } else {
      match Tick(n.children[i], s, now)
      case Threw(_) =>
      case Returned(st, s1) =>
        if st == Running {
        } else if st == Advance(n) {
          LoopDoneResets(n, i + 1, s1, now);
        } else {
          assert CompositeLoop(n, i, s, now).store == Reset(n, s1);
        }
    }
  }

  /** Sequence/Selector resume at the stored cursor (0 when absent): the
      tick is the loop started at that child, so no earlier child is ticked;
      a Running result is the store the Running child left, with that
      child's index, at or after the cursor, stored as the new cursor. */
  lemma CompositeRunningCursor(n: Node, s: Store, now: real)
    requires n.Sequence? || n.Selector?
    ensures var c := ReadInt(s, CurrentKey(n.id));
      c.Cast? && c.value >= 0 ==> Tick(n, s, now) == CompositeLoop(n, c.value, s, now)
    ensures var c := ReadInt(s, CurrentKey(n.id));
      c.InvalidCast? || c.value < 0 ==> Tick(n, s, now) == Threw(s)
    ensures var r := Tick(n, s, now);
      r.Returned? && r.value == Running ==>
        ReadInt(s, CurrentKey(n.id)).Cast? &&
        exists j, sj :: ReadInt(s, CurrentKey(n.id)).value <= j && RanInto(n, j, sj, now, r.store)
  {
    match ReadInt(s, CurrentKey(n.id))
    case InvalidCast =>
    case Cast(c) =>
      if c >= 0 {
        LoopRunningStoresCursor(n, c, s, now);
      }
  }

  /** Resumability across ticks: after a Running tick the next tick, at
      any time, starts at the child that returned Running. */
  lemma CompositeResumesAtRunningChild(n: Node, s: Store, t1: real, t2: real)
    requires n.Sequence? || n.Selector?
    requires Tick(n, s, t1).Returned? && Tick(n, s, t1).value == Running
    ensures var s1 := Tick(n, s, t1).store;
      exists j, sj :: RanInto(n, j, sj, t1, s1) && Tick(n, s1, t2) == CompositeLoop(n, j, s1, t2)
  {
    CompositeRunningCursor(n, s, t1);
    var s1 := Tick(n, s, t1).store;
    var j, sj :| RanInto(n, j, sj, t1, s1);
    assert RanInto(n, j, sj, t1, s1);
    assert s1[CurrentKey(n.id)] == IntV(j);
    assert ReadInt(s1, CurrentKey(n.id)) == Cast(j);
    CompositeRunningCursor(n, s1, t2);
  }

  /** The first child result that is neither Running nor the advancing
      result (Failure for a Sequence, Success for a Selector) ends the tick:
      the composite resets and returns that result, and later children are
      not ticked. */
  lemma CompositeStopsAt(n: Node, i: nat, s: Store, now: real)
    requires n.Sequence? || n.Selector?
    requires i < |n.children|
    requires Tick(n.children[i], s, now).Returned?
    requires Tick(n.children[i], s, now).value != Running
    requires Tick(n.children[i], s, now).value != Advance(n)
    ensures CompositeLoop(n, i, s, now) ==
      Returned(Tick(n.children[i], s, now).value, Reset(n, Tick(n.children[i], s, now).store))
    ensures n.Sequence? ==> CompositeLoop(n, i, s, now).value == Failure
    ensures n.Selector? ==> CompositeLoop(n, i, s, now).value == Success
  {
  }

  /** A composite that finishes (Success or Failure) leaves no key of its
      own namespace in the store: its cursor is gone. Parallel's Running
      result, which does not reset, is the one exception. */
  lemma CompositeDoneClearsNamespace(n: Node, s: Store, now: real, key: string)
    requires n.Sequence? || n.Selector?
    requires InNamespace(key, n.id)
    ensures var r := Tick(n, s, now);
      r.Returned? && r.value != Running ==> key !in r.store
  {
    match ReadInt(s, CurrentKey(n.id))
    case InvalidCast =>
    case Cast(c) =>
      if c >= 0 {
        assert Tick(n, s, now) == CompositeLoop(n, c, s, now);
        LoopDoneResets(n, c, s, now);
        var r := Tick(n, s, now);
        if r.Returned? && r.value != Running {
          var s1 :| r.store == Reset(n, s1);
          ResetClearsNamespace(n, s1, key);
        }
      }
  }

  /** Ticking the children of a Sequence/Selector in order from child `i`
      while each returns the advancing result (Success for a Sequence,
      Failure for a Selector): the store the last child left, or, when
      child `at` returns anything else or throws, `Halted` with that
      child's outcome. */
  datatype Run = Through(store: Store) | Halted(at: nat, out: Outcome<NodeState>)

  function Walk(n: Node, i: nat, s: Store, now: real): Run
    requires n.Sequence? || n.Selector?
    decreases |n.children| - i
  {
    if |n.children| <= i then Through(s)
    else
      var o := Tick(n.children[i], s, now);
      if o.Returned? && o.value == Advance(n) then Walk(n, i + 1, o.store, now) else Halted(i, o)
  }

  /** Loop form of the whole tick. When every child from `i` on advances,
      the loop runs off the end and returns the advancing result with a
      reset of the last child's store. Otherwise the first child that does
      not advance decides: its fault passes straight up with the store it
      left, its Running is stored as the cursor, and any other result is
      returned with a reset. */
  lemma {:induction false} LoopIsWalk(n: Node, i: nat, s: Store, now: real)
    requires n.Sequence? || n.Selector?
    ensures Walk(n, i, s, now).Through? ==>
      CompositeLoop(n, i, s, now) == Returned(Advance(n), Reset(n, Walk(n, i, s, now).store))
    ensures Walk(n, i, s, now).Halted? ==>
      var r := CompositeLoop(n, i, s, now); r.Threw? || r.value != Advance(n)
    ensures var w := Walk(n, i, s, now); w.Halted? ==>
      i <= w.at < |n.children| &&
      (w.out.Threw? ==> CompositeLoop(n, i, s, now) == Threw(w.out.store)) &&
      (w.out.Returned? && w.out.value == Running ==>
         CompositeLoop(n, i, s, now) == Returned(Running, Set(w.out.store, CurrentKey(n.id), IntV(w.at)))) &&
      (w.out.Returned? && w.out.value != Running ==>
         w.out.value != Advance(n) &&
         CompositeLoop(n, i, s, now) == Returned(w.out.value, Reset(n, w.out.store)))
    decreases |n.children| - i
  {
    if i < |n.children| {
      match Tick(n.children[i], s, now)
      case Threw(_) =>
      case Returned(st, s1) =>
        if st == Advance(n) {
          LoopIsWalk(n, i + 1, s1, now);
        }
    }
  }

  /** A child's fault ends a Sequence/Selector tick: the composite throws
      with the store the child left, and later children are not ticked. */
  lemma CompositeThrowsAt(n: Node, i: nat, s: Store, now: real)
    requires n.Sequence? || n.Selector?
    ensures i < |n.children| && Tick(n.children[i], s, now).Threw? ==>
      CompositeLoop(n, i, s, now) == Tick(n.children[i], s, now)
  {
  }

  /** A Sequence succeeds (a Selector fails) exactly when every child from
      the loaded cursor on succeeds (fails), and then with a reset of the
      store the last child left; otherwise the first child that does not
      decides the tick, and a child's fault is the composite's. A mistyped
      or negative cursor throws with the store untouched. */
  lemma CompositeOutcome(n: Node, s: Store, now: real)
    requires n.Sequence? || n.Selector?
    ensures var c := ReadInt(s, CurrentKey(n.id));
      c.InvalidCast? || (c.Cast? && c.value < 0) ==> Tick(n, s, now) == Threw(s)
    ensures var c := ReadInt(s, CurrentKey(n.id)); c.Cast? && c.value >= 0 ==>
      (Walk(n, c.value, s, now).Through? ==>
         Tick(n, s, now) == Returned(Advance(n), Reset(n, Walk(n, c.value, s, now).store))) &&
      (Walk(n, c.value, s, now).Halted? ==>
         Tick(n, s, now).Threw? || Tick(n, s, now).value != Advance(n))
    ensures var c := ReadInt(s, CurrentKey(n.id)); c.Cast? && c.value >= 0 ==>
      var w := Walk(n, c.value, s, now);
      w.Halted? ==>
        c.value <= w.at < |n.children| &&
        (w.out.Threw? ==> Tick(n, s, now) == Threw(w.out.store)) &&
        (w.out.Returned? && w.out.value == Running ==>
           Tick(n, s, now) == Returned(Running, Set(w.out.store, CurrentKey(n.id), IntV(w.at)))) &&
        (w.out.Returned? && w.out.value != Running ==>
           Tick(n, s, now) == Returned(w.out.value, Reset(n, w.out.store)))
  {
    var c := ReadInt(s, CurrentKey(n.id));
    if c.Cast? && c.value >= 0 {
      LoopIsWalk(n, c.value, s, now);
    }
  }

  /** Empty child lists: Sequence succeeds, Selector fails, Parallel
      succeeds when its threshold is at most 0 and otherwise returns
      Running with the store untouched, on every tick. */
  lemma EmptyComposites(id: NodeId, threshold: int, s: Store, now: real)
    ensures var c := ReadInt(s, CurrentKey(id)); c.Cast? && c.value >= 0 ==>
      Tick(Sequence(id, []), s, now) == Returned(Success, Reset(Sequence(id, []), s))
    ensures var c := ReadInt(s, CurrentKey(id)); c.Cast? && c.value >= 0 ==>
      Tick(Selector(id, []), s, now) == Returned(Failure, Reset(Selector(id, []), s))
    ensures Tick(Parallel(id, threshold, []), s, now) ==
      if threshold <= 0 then Returned(Success, Reset(Parallel(id, threshold, []), s))
      else Returned(Running, s)
  {
    var c := ReadInt(s, CurrentKey(id));
    if c.Cast? && c.value >= 0 {
      assert Tick(Sequence(id, []), s, now) == CompositeLoop(Sequence(id, []), c.value, s, now);
      assert Tick(Selector(id, []), s, now) == CompositeLoop(Selector(id, []), c.value, s, now);
    }
  }

  // ---------------------------------------------------------------------
  // Parallel
  // ---------------------------------------------------------------------

  lemma {:induction false} LoopNonPositiveThreshold(n: Node, i: nat, k: nat, s: Store, now: real)
    requires n.Parallel? && n.threshold <= 0
    ensures !(ParallelLoop(n, i, k, s, now).Returned? && ParallelLoop(n, i, k, s, now).value == Running)
    decreases |n.children| - i
  {
    if i < |n.children| {
      match Tick(n.children[i], s, now)
      case Threw(_) =>
      case Returned(st, s1) =>
        if st != Failure {
          LoopNonPositiveThreshold(n, i + 1, if st == Success then k + 1 else k, s1, now);
        }
    }
  }

  lemma {:induction false} LoopUnreachableThreshold(n: Node, i: nat, k: nat, s: Store, now: real)
    requires n.Parallel? && i <= |n.children| && k <= i && n.threshold > |n.children|
    ensures !(ParallelLoop(n, i, k, s, now).Returned? && ParallelLoop(n, i, k, s, now).value == Success)
    decreases |n.children| - i
  {
    if i < |n.children| {
      match Tick(n.children[i], s, now)
      case Threw(_) =>
      case Returned(st, s1) =>
        if st != Failure {
          LoopUnreachableThreshold(n, i + 1, if st == Success then k + 1 else k, s1, now);
        }
    }
  }

  /** A threshold of at most 0 is always met: Parallel never returns
      Running. A threshold above the number of children is never met:
      Parallel never returns Success. */
  lemma ParallelThresholds(n: Node, s: Store, now: real)
    requires n.Parallel?
    ensures n.threshold <= 0 ==> !(Tick(n, s, now).Returned? && Tick(n, s, now).value == Running)
    ensures n.threshold > |n.children| ==> !(Tick(n, s, now).Returned? && Tick(n, s, now).value == Success)
  {
    if n.threshold <= 0 {
      LoopNonPositiveThreshold(n, 0, 0, s, now);
    }
    if n.threshold > |n.children| {
      LoopUnreachableThreshold(n, 0, 0, s, now);
    }
  }

  /** The first Failure ends the tick: Parallel resets and fails, and the
      children after it are not ticked. */
  lemma ParallelStopsAtFailure(n: Node, i: nat, k: nat, s: Store, now: real)
    requires n.Parallel? && i < |n.children|
    requires Tick(n.children[i], s, now).Returned? && Tick(n.children[i], s, now).value == Failure
    ensures ParallelLoop(n, i, k, s, now) == Returned(Failure, Reset(n, Tick(n.children[i], s, now).store))
  {
  }

  lemma {:induction false} LoopDoneResetsParallel(n: Node, i: nat, k: nat, s: Store, now: real)
    requires n.Parallel?
    ensures var r := ParallelLoop(n, i, k, s, now);
      r.Returned? && r.value != Running ==> exists s1 :: r.store == Reset(n, s1)
    decreases |n.children| - i
  {
    if |n.children| <= i {
      if k >= n.threshold {
        assert ParallelLoop(n, i, k, s, now).store == Reset(n, s);
      }
    } else {
      match Tick(n.children[i], s, now)
      case Threw(_) =>
      case Returned(st, s1) =>
        if st == Failure {
          assert ParallelLoop(n, i, k, s, now).store == Reset(n, s1);
        } else {
          LoopDoneResetsParallel(n, i + 1, if st == Success then k + 1 else k, s1, now);
        }
    }
  }

  /** Success and Failure of a Parallel come with a reset: no key of its
      namespace is left. */
  lemma ParallelDoneClearsNamespace(n: Node, s: Store, now: real, key: string)
    requires n.Parallel? && InNamespace(key, n.id)
    ensures var r := Tick(n, s, now);
      r.Returned? && r.value != Running ==> key !in r.store
  {
    LoopDoneResetsParallel(n, 0, 0, s, now);
    var r := Tick(n, s, now);
    if r.Returned? && r.value != Running {
      var s1 :| r.store == Reset(n, s1);
      ResetClearsNamespace(n, s1, key);
    }
  }

  /** Ticking every child of a Parallel in order, from child `i` on with
      `k` successes so far: when none of them fails or throws, the
      successes counted and the store the last child left; otherwise
      `Stopped` with the index and the outcome of the first that does. */
  datatype Pass = Passed(successes: nat, store: Store) | Stopped(at: nat, out: Outcome<NodeState>)

  function Sweep(n: Node, i: nat, k: nat, s: Store, now: real): Pass
    requires n.Parallel?
    decreases |n.children| - i
  {
    if |n.children| <= i then Passed(k, s)
    else
      var o := Tick(n.children[i], s, now);
      if o.Threw? || o.value == Failure then Stopped(i, o)
      else Sweep(n, i + 1, if o.value == Success then k + 1 else k, o.store, now)
  }

  lemma {:induction false} LoopIsSweep(n: Node, i: nat, k: nat, s: Store, now: real)
    requires n.Parallel? && i <= |n.children|
    ensures var p := Sweep(n, i, k, s, now); p.Passed? ==>
      k <= p.successes <= k + |n.children| - i &&
      ParallelLoop(n, i, k, s, now) ==
        if p.successes >= n.threshold then Returned(Success, Reset(n, p.store))
        else Returned(Running, p.store)
    ensures Sweep(n, i, k, s, now).Stopped? ==>
      var r := ParallelLoop(n, i, k, s, now); r.Threw? || r.value == Failure
    ensures var p := Sweep(n, i, k, s, now); p.Stopped? ==>
      i <= p.at < |n.children| &&
      (p.out.Threw? ==> ParallelLoop(n, i, k, s, now) == Threw(p.out.store)) &&
      (p.out.Returned? ==>
         p.out.value == Failure && ParallelLoop(n, i, k, s, now) == Returned(Failure, Reset(n, p.out.store)))
    decreases |n.children| - i
  {
    if i < |n.children| {
      match Tick(n.children[i], s, now)
      case Threw(_) =>
      case Returned(st, s1) =>
        if st != Failure {
          LoopIsSweep(n, i + 1, if st == Success then k + 1 else k, s1, now);
        }
    }
  }

  /** A child's fault ends a Parallel tick: the Parallel throws with the
      store the child left, and later children are not ticked. */
  lemma ParallelThrowsAt(n: Node, i: nat, k: nat, s: Store, now: real)
    requires n.Parallel?
    ensures i < |n.children| && Tick(n.children[i], s, now).Threw? ==>
      ParallelLoop(n, i, k, s, now) == Tick(n.children[i], s, now)
  {
  }

  /** A Parallel tick ticks every child in order until one fails or throws.
      When none does, the count of Successes alone decides: at least the
      threshold is Success with a reset of the store the last child left,
      fewer is Running with that store as it is, so each child's progress
      carries over to the next tick. Otherwise the first child that fails
      or throws decides: a fault passes straight up with the store it left,
      and a Failure is returned with a reset. */
  lemma ParallelOutcome(n: Node, s: Store, now: real)
    requires n.Parallel?
    ensures var p := Sweep(n, 0, 0, s, now); p.Passed? ==>
      p.successes <= |n.children| &&
      Tick(n, s, now) ==
        if p.successes >= n.threshold then Returned(Success, Reset(n, p.store))
        else Returned(Running, p.store)
    ensures Sweep(n, 0, 0, s, now).Stopped? ==>
      Tick(n, s, now).Threw? || Tick(n, s, now).value == Failure
    ensures var p := Sweep(n, 0, 0, s, now); p.Stopped? ==>
      p.at < |n.children| &&
      (p.out.Threw? ==> Tick(n, s, now) == Threw(p.out.store)) &&
      (p.out.Returned? ==> Tick(n, s, now) == Returned(Failure, Reset(n, p.out.store)))
  {
    LoopIsSweep(n, 0, 0, s, now);
  }

  /** A callback that records that it ran, under a key outside every
      node's namespace, and returns Running. */
  function MarkRunning(): Callback<NodeState>
  {
    (s: Store) => Returned(Running, Set(s, "marker", BoolV(true)))
  }

  /** Every key of a namespace holds an underscore, so a key without one
      lies in no node's namespace. */
  lemma NamespacedKeyHasUnderscore(key: string, id: NodeId)
    ensures InNamespace(key, id) ==> '_' in key
  {
    if InNamespace(key, id) {
      assert key[|id|] == Prefix(id)[|id|];
    }
  }

  /** Threshold 2 over [Success, Success, Running]: Success, decided only
      after the third child was ticked too (its mark survives the reset). */
  lemma ParallelTwoOfThree(p: NodeId, a: NodeId, b: NodeId, c: NodeId, s: Store, now: real)
    ensures var n := Parallel(p, 2, [Action(a, Completes(Success)), Action(b, Completes(Success)),
                                     Action(c, MarkRunning())]);
      Tick(n, s, now) == Returned(Success, Reset(n, Set(s, "marker", BoolV(true)))) &&
      "marker" in Tick(n, s, now).store && Tick(n, s, now).store["marker"] == BoolV(true)
  {
    var n := Parallel(p, 2, [Action(a, Completes(Success)), Action(b, Completes(Success)),
                             Action(c, MarkRunning())]);
    var s3 := Set(s, "marker", BoolV(true));
    assert ParallelLoop(n, 3, 2, s3, now) == Returned(Success, Reset(n, s3));
    assert ParallelLoop(n, 2, 2, s, now) == ParallelLoop(n, 3, 2, s3, now);
    assert ParallelLoop(n, 1, 1, s, now) == ParallelLoop(n, 2, 2, s, now);
    assert ParallelLoop(n, 0, 0, s, now) == ParallelLoop(n, 1, 1, s, now);
    MarkSurvivesReset(n, s);
  }

  /** A reset keeps the mark: it lies outside every namespace. */
  lemma MarkSurvivesReset(n: Node, s: Store)
    ensures var t := Reset(n, Set(s, "marker", BoolV(true)));
      "marker" in t && t["marker"] == BoolV(true)
  {
    ResetScrubs(n, Set(s, "marker", BoolV(true)));
    forall id | id in Ids(n)
      ensures !InNamespace("marker", id)
    {
      NamespacedKeyHasUnderscore("marker", id);
    }
  }

  // ---------------------------------------------------------------------
  // Cooldown
  // ---------------------------------------------------------------------

  /** Inside the window the child is not ticked: Failure, store untouched. */
  lemma CooldownGate(id: NodeId, child: Node, cooldown: real, s: Store, now: real)
    requires ReadFloat(s, LastKey(id)).Cast? && now - ReadFloat(s, LastKey(id)).value < cooldown
    ensures Tick(Cooldown(id, child, cooldown), s, now) == Returned(Failure, s)
  {
  }

  /** Outside the window the child's result is passed through unchanged,
      and `now` is recorded exactly when it is Success. */
  lemma CooldownPassesThrough(id: NodeId, child: Node, cooldown: real, s: Store, now: real)
    requires ReadFloat(s, LastKey(id)).Cast? && now - ReadFloat(s, LastKey(id)).value >= cooldown
    ensures var r := Tick(Cooldown(id, child, cooldown), s, now);
      var c := Tick(child, s, now);
      r.Threw? == c.Threw? &&
      (c.Threw? ==> r == c) &&
      (c.Returned? ==> r.value == c.value) &&
      (c.Returned? && c.value == Success ==> r.store == Set(c.store, LastKey(id), FloatV(now))) &&
      (!(c.Returned? && c.value == Success) ==> r.store == c.store)
  {
  }

  /** A Cooldown catches nothing: a last-success time stored at another
      type throws before the child is ticked, with the store untouched, and
      outside the window a fault of the child is the Cooldown's. */
  lemma CooldownFaults(id: NodeId, child: Node, cooldown: real, s: Store, now: real)
    ensures ReadFloat(s, LastKey(id)).InvalidCast? ==>
      Tick(Cooldown(id, child, cooldown), s, now) == Threw(s)
    ensures var last := ReadFloat(s, LastKey(id));
      last.Cast? && now - last.value >= cooldown && Tick(child, s, now).Threw? ==>
        Tick(Cooldown(id, child, cooldown), s, now) == Tick(child, s, now)
  {
  }

  /** Rate limit: after a Success at time t, a tick less than `cooldown`
      later fails without ticking the child, and one at least `cooldown`
      later ticks it again. */
  lemma CooldownRateLimit(id: NodeId, child: Node, cooldown: real, s: Store, t: real, t': real)
    requires Tick(Cooldown(id, child, cooldown), s, t).Returned?
    requires Tick(Cooldown(id, child, cooldown), s, t).value == Success
    ensures var s1 := Tick(Cooldown(id, child, cooldown), s, t).store;
      ReadFloat(s1, LastKey(id)) == Cast(t) &&
      (t' - t < cooldown ==> Tick(Cooldown(id, child, cooldown), s1, t') == Returned(Failure, s1)) &&
      (t' - t >= cooldown && Tick(child, s1, t').Returned? ==>
         Tick(Cooldown(id, child, cooldown), s1, t').value == Tick(child, s1, t').value)
  {
    var s1 := Tick(Cooldown(id, child, cooldown), s, t).store;
    assert ReadFloat(s1, LastKey(id)) == Cast(t);
    if t' - t >= cooldown {
      CooldownPassesThrough(id, child, cooldown, s1, t');
    }
  }

  /** A Cooldown that has never succeeded reads its last success as 0, so
      it fails while `now` is below the window. */
  lemma FreshCooldownBlocks(id: NodeId, child: Node, cooldown: real, s: Store, now: real)
    requires LastKey(id) !in s && now < cooldown
    ensures Tick(Cooldown(id, child, cooldown), s, now) == Returned(Failure, s)
  {
  }

  /** `Reset` forgets the last success: the next tick reads it as 0. */
  lemma CooldownForgottenByReset(id: NodeId, child: Node, cooldown: real, s: Store)
    ensures LastKey(id) !in Reset(Cooldown(id, child, cooldown), s)
    ensures ReadFloat(Reset(Cooldown(id, child, cooldown), s), LastKey(id)) == Cast(0.0)
  {
    PrivateKeysInNamespace(id);
    ResetClearsNamespace(Cooldown(id, child, cooldown), s, LastKey(id));
  }

  // ---------------------------------------------------------------------
  // Repeater
  // ---------------------------------------------------------------------

  /** A Running child gives Running, with the counter left as it was. */
  lemma RepeaterPassesRunning(id: NodeId, child: Node, repeatCount: int, s: Store, now: real)
    requires ReadInt(s, CountKey(id)).Cast?
    requires Tick(child, s, now).Returned? && Tick(child, s, now).value == Running
    ensures Tick(Repeater(id, child, repeatCount), s, now) == Returned(Running, Tick(child, s, now).store)
  {
  }

  /** Each completion of the child increments the counter (a C# `int`,
      so past 2^31 - 1 it wraps to -2^31) and resets the child; below the
      repeat count it is stored and Running is returned, otherwise the
      counter is stored as 0 and the child's result returned. */
  lemma RepeaterCompletion(id: NodeId, child: Node, repeatCount: int, s: Store, now: real)
    requires ReadInt(s, CountKey(id)).Cast?
    requires Tick(child, s, now).Returned? && Tick(child, s, now).value != Running
    ensures var done := Wrap(ReadInt(s, CountKey(id)).value + 1) as int;
      var s2 := Reset(child, Tick(child, s, now).store);
      Tick(Repeater(id, child, repeatCount), s, now) ==
        if repeatCount < 0 || done < repeatCount then Returned(Running, Set(s2, CountKey(id), IntV(done)))
        else Returned(Tick(child, s, now).value, Set(s2, CountKey(id), IntV(0)))
  {
  }

  /** A Repeater catches nothing: a counter stored at another type throws
      before the child is ticked, with the store untouched, and a fault of
      the child is the Repeater's, with the counter left as it was. */
  lemma RepeaterFaults(id: NodeId, child: Node, repeatCount: int, s: Store, now: real)
    ensures ReadInt(s, CountKey(id)).InvalidCast? ==>
      Tick(Repeater(id, child, repeatCount), s, now) == Threw(s)
    ensures ReadInt(s, CountKey(id)).Cast? && Tick(child, s, now).Threw? ==>
      Tick(Repeater(id, child, repeatCount), s, now) == Tick(child, s, now)
  {
  }

  /** A negative repeat count never completes. */
  lemma RepeaterNegativeNeverCompletes(id: NodeId, child: Node, repeatCount: int, s: Store, now: real)
    requires repeatCount < 0
    ensures var r := Tick(Repeater(id, child, repeatCount), s, now);
      r.Returned? ==> r.value == Running
  {
  }

  /** A Repeater over a child that completes with `st` on every tick, from
      a store holding only its counter j: completion j + 1 returns Running
      and stores j + 1 while j + 1 < repeatCount, and otherwise returns `st`
      and stores 0. Counting up from 0, the result `st` arrives on
      completion number max(repeatCount, 1). The counter is a C# `int`:
      from 2^31 - 1 it wraps to -2^31, which only an unbounded Repeater
      (negative repeat count) reaches. */
  lemma RepeaterCountsCompletions(r: NodeId, a: NodeId, st: NodeState, repeatCount: int, j: int32, now: real)
    requires r != a && st != Running
    ensures var rep := Repeater(r, Action(a, Completes(st)), repeatCount);
      var next := if j as int < -MinInt32 - 1 then j as int + 1 else MinInt32;
      Tick(rep, map[CountKey(r) := IntV(j as int)], now) ==
        if repeatCount < 0 || next < repeatCount then Returned(Running, map[CountKey(r) := IntV(next)])
        else Returned(st, map[CountKey(r) := IntV(0)])
  {
    PrivateKeysInNamespace(r);
    NamespacesDisjoint(r, a, CountKey(r));
    ClearPrefixKeepsOther(map[CountKey(r) := IntV(j as int)], a, CountKey(r));
  }

  /** A store holding only a key outside the namespace of `a` is unchanged
      by clearing that namespace. */
  lemma ClearPrefixKeepsOther(s: Store, a: NodeId, key: string)
    requires s.Keys == {key} && !InNamespace(key, a)
    ensures ClearPrefix(s, Prefix(a)) == s
  {
  }

  /** Repeat count 3 over a child that succeeds on every tick: Running,
      Running, then Success, with the counter back at 0. */
  lemma RepeaterThreeTimes(r: NodeId, a: NodeId, t1: real, t2: real, t3: real)
    requires r != a
    ensures var rep := Repeater(r, Action(a, Completes(Success)), 3);
      Tick(rep, map[], t1) == Returned(Running, map[CountKey(r) := IntV(1)]) &&
      Tick(rep, map[CountKey(r) := IntV(1)], t2) == Returned(Running, map[CountKey(r) := IntV(2)]) &&
      Tick(rep, map[CountKey(r) := IntV(2)], t3) == Returned(Success, map[CountKey(r) := IntV(0)])
  {
    var rep := Repeater(r, Action(a, Completes(Success)), 3);
    assert Reset(Action(a, Completes(Success)), map[]) == map[];
    RepeaterCountsCompletions(r, a, Success, 3, 1, t2);
    RepeaterCountsCompletions(r, a, Success, 3, 2, t3);
  }

  // ---------------------------------------------------------------------
  // Wait
  // ---------------------------------------------------------------------

  /** A Wait that has not started records `now` as its start, marks itself
      started and, unless its duration is at most 0, returns Running. */
  lemma WaitFirstTick(id: NodeId, duration: real, s: Store, now: real)
    requires ReadBool(s, StartedKey(id)) == Cast(false)
    ensures var armed := Set(Set(s, StartKey(id), FloatV(now)), StartedKey(id), BoolV(true));
      Tick(Wait(id, duration), s, now) ==
        if 0.0 < duration then Returned(Running, armed)
        else Returned(Success, Set(armed, StartedKey(id), BoolV(false)))
  {
    assert StartKey(id) != StartedKey(id) by { assert |StartKey(id)| != |StartedKey(id)|; }
  }

  /** A started Wait returns Running, store untouched, while less than
      `duration` has passed since its start, and then Success with the
      started flag cleared. */
  lemma WaitWhileStarted(id: NodeId, duration: real, s: Store, now: real)
    requires ReadBool(s, StartedKey(id)) == Cast(true) && ReadFloat(s, StartKey(id)).Cast?
    ensures Tick(Wait(id, duration), s, now) ==
      if now - ReadFloat(s, StartKey(id)).value < duration then Returned(Running, s)
      else Returned(Success, Set(s, StartedKey(id), BoolV(false)))
  {
  }

  /** A Wait catches nothing: a started flag stored at another type throws
      with the store untouched, and so does a started Wait whose start time
      is stored at another type. A Wait that is not started writes its
      start time as a float before reading it back, so it cannot fault. */
  lemma WaitFaults(id: NodeId, duration: real, s: Store, now: real)
    ensures ReadBool(s, StartedKey(id)).InvalidCast? ==> Tick(Wait(id, duration), s, now) == Threw(s)
    ensures ReadBool(s, StartedKey(id)) == Cast(true) && ReadFloat(s, StartKey(id)).InvalidCast? ==>
      Tick(Wait(id, duration), s, now) == Threw(s)
    ensures ReadBool(s, StartedKey(id)) == Cast(false) ==> Tick(Wait(id, duration), s, now).Returned?
  {
    assert StartKey(id) != StartedKey(id) by { assert |StartKey(id)| != |StartedKey(id)|; }
  }

  /** Two ticks of a fresh Wait: the first is Running and records t0; the
      second succeeds exactly when `duration` has elapsed, clears the flag,
      and a third tick after that starts a new wait (Running again). */
  lemma WaitCompletesOnce(id: NodeId, duration: real, s: Store, t0: real, t1: real, t2: real)
    requires ReadBool(s, StartedKey(id)) == Cast(false) && 0.0 < duration
    ensures var r0 := Tick(Wait(id, duration), s, t0);
      r0.Returned? && r0.value == Running && ReadFloat(r0.store, StartKey(id)) == Cast(t0)
    ensures var r1 := Tick(Wait(id, duration), Tick(Wait(id, duration), s, t0).store, t1);
      r1.Returned? && (r1.value == Success <==> t1 - t0 >= duration) &&
      (r1.value == Running ==> r1.store == Tick(Wait(id, duration), s, t0).store) &&
      (r1.value == Success ==> ReadBool(r1.store, StartedKey(id)) == Cast(false) &&
                               Tick(Wait(id, duration), r1.store, t2).value == Running)
  {
    assert StartKey(id) != StartedKey(id) by { assert |StartKey(id)| != |StartedKey(id)|; }
    WaitFirstTick(id, duration, s, t0);
    var s1 := Tick(Wait(id, duration), s, t0).store;
    WaitWhileStarted(id, duration, s1, t1);
    var r1 := Tick(Wait(id, duration), s1, t1);
    if r1.value == Success {
      WaitFirstTick(id, duration, r1.store, t2);
    }
  }

  /** After `Reset` the Wait is not started: the next tick starts anew. */
  lemma WaitRearmedByReset(id: NodeId, duration: real, s: Store)
    ensures ReadBool(Reset(Wait(id, duration), s), StartedKey(id)) == Cast(false)
    ensures StartKey(id) !in Reset(Wait(id, duration), s)
  {
    PrivateKeysInNamespace(id);
    ResetClearsNamespace(Wait(id, duration), s, StartedKey(id));
    ResetClearsNamespace(Wait(id, duration), s, StartKey(id));
  }
}
