/** The node methods as the source runs them: each `Tick` and `Reset`
    updates one shared `Blackboard` in place, the composites walk their
    child lists with loops, and each method is proved to leave exactly the
    store that `Nodes.Tick` / `Nodes.Reset` describe. */
module Engine {
  import opened Stores
  import opened Nodes
  import opened Blackboards
  import opened Int32s

  /** `n.Reset(blackboard)`. */
  method ResetNode(n: Node, bb: Blackboard)
    modifies bb
    ensures bb.data == Reset(n, old(bb.data))
    decreases n, 1
  {
    match n
    case Condition(id, _) =>
      bb.ClearPrefix(Prefix(id));
    case Action(id, _) =>
      bb.ClearPrefix(Prefix(id));
    case Sequence(id, _) =>
      bb.Set(CurrentKey(id), IntV(0));
      ResetChildNodes(n, bb);
      bb.ClearPrefix(Prefix(id));
    case Selector(id, _) =>
      bb.Set(CurrentKey(id), IntV(0));
      ResetChildNodes(n, bb);
      bb.ClearPrefix(Prefix(id));
    case Parallel(id, _, _) =>
      ResetChildNodes(n, bb);
      bb.ClearPrefix(Prefix(id));
    case Cooldown(id, child, _) =>
      ResetNode(child, bb);
      bb.ClearPrefix(Prefix(id));
    case Repeater(id, child, _) =>
      bb.Set(CountKey(id), IntV(0));
      ResetNode(child, bb);
      bb.ClearPrefix(Prefix(id));
    case Wait(id, _) =>
      bb.Set(StartedKey(id), BoolV(false));
      bb.ClearPrefix(Prefix(id));
  }

  /** `foreach (var child in _children) child.Reset(blackboard)`. */
  method ResetChildNodes(n: Node, bb: Blackboard)
    requires IsComposite(n)
    modifies bb
    ensures bb.data == ResetChildren(n, |n.children|, old(bb.data))
    decreases n, 0
  {
    var i := 0;
    while i < |n.children|
      invariant 0 <= i <= |n.children|
      invariant bb.data == ResetChildren(n, i, old(bb.data))
    {
      ResetNode(n.children[i], bb);
      i := i + 1;
    }
  }

  /** `n.Tick(blackboard)` at time `now`; the result carries the store as
      the tick leaves it (which is also `bb.data`). */
  method TickNode(n: Node, bb: Blackboard, now: real) returns (r: Outcome<NodeState>)
    modifies bb
    ensures r == Tick(n, old(bb.data), now)
    ensures bb.data == r.store
    decreases n, 2
  {
    match n
    case Condition(_, cond) =>
      var o := cond(bb.data);
      bb.data := o.store;
      if o.Returned? && o.value {
        r := Returned(Success, bb.data);
      } else {
        r := Returned(Failure, bb.data);
      }
    case Action(_, act) =>
      var o := act(bb.data);
      bb.data := o.store;
      r := Returned(if o.Returned? then o.value else Failure, bb.data);
    case Sequence(_, _) =>
      r := TickComposite(n, bb, now);
    case Selector(_, _) =>
      r := TickComposite(n, bb, now);
    case Parallel(_, _, _) =>
      r := TickParallel(n, bb, now);
    case Cooldown(id, child, cooldown) =>
      var last := ReadFloat(bb.data, LastKey(id));
      if last.InvalidCast? {
        return Threw(bb.data);
      }
      if now - last.value < cooldown {
        return Returned(Failure, bb.data);
      }
      r := TickNode(child, bb, now);
      if r.Returned? && r.value == Success {
        bb.Set(LastKey(id), FloatV(now));
        r := Returned(Success, bb.data);
      }
    case Repeater(id, child, repeatCount) =>
      var count := ReadInt(bb.data, CountKey(id));
      if count.InvalidCast? {
        return Threw(bb.data);
      }
      var current := count.value;
      r := TickNode(child, bb, now);
      if r.Threw? || r.value == Running {
        return;
      }
      var state := r.value;
      current := Wrap(current + 1) as int;
      ResetNode(child, bb);
      if repeatCount < 0 || current < repeatCount {
        bb.Set(CountKey(id), IntV(current));
        return Returned(Running, bb.data);
      }
      bb.Set(CountKey(id), IntV(0));
      r := Returned(state, bb.data);
    case Wait(id, duration) =>
      var started := ReadBool(bb.data, StartedKey(id));
      if started.InvalidCast? {
        return Threw(bb.data);
      }
      if !started.value {
        bb.Set(StartKey(id), FloatV(now));
        bb.Set(StartedKey(id), BoolV(true));
      }
      var start := ReadFloat(bb.data, StartKey(id));
      if start.InvalidCast? {
        return Threw(bb.data);
      }
      if now - start.value < duration {
        return Returned(Running, bb.data);
      }
      bb.Set(StartedKey(id), BoolV(false));
      r := Returned(Success, bb.data);
  }

  /** SequenceNode.Tick and SelectorNode.Tick: restore the cursor from the
      store, tick children from there on, store the cursor on Running. */
  method TickComposite(n: Node, bb: Blackboard, now: real) returns (r: Outcome<NodeState>)
    requires n.Sequence? || n.Selector?
    modifies bb
    ensures r == Tick(n, old(bb.data), now)
    ensures bb.data == r.store
    decreases n, 1
  {
    var cursor := ReadInt(bb.data, CurrentKey(n.id));
    if cursor.InvalidCast? || cursor.value < 0 {
      return Threw(bb.data);
    }
    var current: nat := cursor.value;
    while current < |n.children|
      invariant CompositeLoop(n, current, bb.data, now) == Tick(n, old(bb.data), now)
      decreases |n.children| - current
    {
      var o := TickNode(n.children[current], bb, now);
      if o.Threw? {
        return o;
      }
      if o.value == Running {
        bb.Set(CurrentKey(n.id), IntV(current));
        return Returned(Running, bb.data);
      }
      if o.value != Advance(n) {
        ResetNode(n, bb);
        return Returned(o.value, bb.data);
      }
      current := current + 1;
    }
    ResetNode(n, bb);
    r := Returned(Advance(n), bb.data);
  }

  /** ParallelNode.Tick: tick every child in order, stop at the first
      Failure, and count the successes. */
  method TickParallel(n: Node, bb: Blackboard, now: real) returns (r: Outcome<NodeState>)
    requires n.Parallel?
    modifies bb
    ensures r == Tick(n, old(bb.data), now)
    ensures bb.data == r.store
    decreases n, 1
  {
    var successCount: nat := 0;
    var i := 0;
    while i < |n.children|
      invariant 0 <= i <= |n.children|
      invariant ParallelLoop(n, i, successCount, bb.data, now) == Tick(n, old(bb.data), now)
    {
      var o := TickNode(n.children[i], bb, now);
      if o.Threw? {
        return o;
      }
      if o.value == Failure {
        ResetNode(n, bb);
        return Returned(Failure, bb.data);
      }
      if o.value == Success {
        successCount := successCount + 1;
      }
      i := i + 1;
    }
    if successCount >= n.threshold {
      ResetNode(n, bb);
      return Returned(Success, bb.data);
    }
    r := Returned(Running, bb.data);
  }
}
