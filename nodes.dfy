/** Behaviour-tree nodes and what one `Tick` and one `Reset` of a node do
    to the store.

    A node is immutable once built (its children, callback, threshold,
    durations are readonly fields in the source); every piece of progress
    that spans ticks lives in the store under the node's private keys
    `id + "_current"`, `"_last"`, `"_count"`, `"_start"`, `"_started"`.
    `Time.time` is the parameter `now`.

    `Tick(n, s, now)` and `Reset(n, s)` are the reference semantics; the
    methods of module Engine run the same steps on a `Blackboard` object
    and are proved equal to them. */
module Nodes {
  import opened Stores
  import opened Int32s

  datatype NodeState = Success | Failure | Running

  /** What running a callback (or a tick) produced: a normal return, or a
      thrown exception; in both cases the store as the code left it. */
  datatype Outcome<R> = Returned(value: R, store: Store) | Threw(store: Store)

  /** A user callback: it receives the blackboard, may update it, and
      returns a value or throws. */
  type Callback<R> = Store -> Outcome<R>

  /** Node ids are GUID strings in their default format (hex digits and
      hyphens), so they never contain an underscore. */
  type NodeId = s: string | '_' !in s

  function Prefix(id: NodeId): string { id + "_" }
  function CurrentKey(id: NodeId): string { id + "_current" }
  function LastKey(id: NodeId): string { id + "_last" }
  function CountKey(id: NodeId): string { id + "_count" }
  function StartKey(id: NodeId): string { id + "_start" }
  function StartedKey(id: NodeId): string { id + "_started" }

  /** `key` lies in the private namespace of node `id`. */
  predicate InNamespace(key: string, id: NodeId)
  {
    StartsWith(key, Prefix(id))
  }

  datatype Node =
    | Condition(id: NodeId, cond: Callback<bool>)              // LambdaConditionNode
    | Action(id: NodeId, act: Callback<NodeState>)             // LambdaActionNode
    | Sequence(id: NodeId, children: seq<Node>)                // SequenceNode
    | Selector(id: NodeId, children: seq<Node>)                // SelectorNode
    | Parallel(id: NodeId, threshold: int, children: seq<Node>) // ParallelNode
    | Cooldown(id: NodeId, child: Node, cooldown: real)        // CooldownDecoratorNode
    | Repeater(id: NodeId, child: Node, repeatCount: int)      // RepeaterDecoratorNode
    | Wait(id: NodeId, duration: real)                         // WaitNode

  predicate IsComposite(n: Node)
  {
    n.Sequence? || n.Selector? || n.Parallel?
  }

  /** The child result on which a Sequence moves on (Success) and a
      Selector moves on (Failure); it is also what each returns when it
      runs off the end of its children. */
  function Advance(n: Node): NodeState
    requires n.Sequence? || n.Selector?
  {
    if n.Sequence? then Success else Failure
  }

  // ---------------------------------------------------------------------
  // Construction: the constructors' null checks
  // ---------------------------------------------------------------------

  datatype Construct = Built(node: Node) | ArgumentNull

  function NewCondition(id: NodeId, cond: Option<Callback<bool>>): (r: Construct)
    ensures r.ArgumentNull? <==> cond.None?
    ensures r.Built? ==> r.node.Condition? && r.node.id == id && r.node.cond == cond.value
  {
    if cond.None? then ArgumentNull else Built(Condition(id, cond.value))
  }

  function NewAction(id: NodeId, act: Option<Callback<NodeState>>): (r: Construct)
    ensures r.ArgumentNull? <==> act.None?
    ensures r.Built? ==> r.node.Action? && r.node.id == id && r.node.act == act.value
  {
    if act.None? then ArgumentNull else Built(Action(id, act.value))
  }

  /** A null child list becomes an empty one. */
  function NewSequence(id: NodeId, children: Option<seq<Node>>): (r: Node)
    ensures r.Sequence? && r.id == id
    ensures children.None? ==> r.children == []
    ensures children.Some? ==> r.children == children.value
  {
    Sequence(id, if children.None? then [] else children.value)
  }

  function NewSelector(id: NodeId, children: Option<seq<Node>>): (r: Node)
    ensures r.Selector? && r.id == id
    ensures children.None? ==> r.children == []
    ensures children.Some? ==> r.children == children.value
  {
    Selector(id, if children.None? then [] else children.value)
  }

  function NewParallel(id: NodeId, threshold: int, children: Option<seq<Node>>): (r: Node)
    ensures r.Parallel? && r.id == id && r.threshold == threshold
    ensures children.None? ==> r.children == []
    ensures children.Some? ==> r.children == children.value
  {
    Parallel(id, threshold, if children.None? then [] else children.value)
  }

  function NewCooldown(id: NodeId, child: Option<Node>, cooldown: real): (r: Construct)
    ensures r.ArgumentNull? <==> child.None?
    ensures r.Built? ==> r.node.Cooldown? && r.node.id == id && r.node.cooldown == cooldown
    ensures r.Built? ==> r.node.child == child.value
  {
    if child.None? then ArgumentNull else Built(Cooldown(id, child.value, cooldown))
  }

  function NewRepeater(id: NodeId, child: Option<Node>, repeatCount: int): (r: Construct)
    ensures r.ArgumentNull? <==> child.None?
    ensures r.Built? ==> r.node.Repeater? && r.node.id == id && r.node.repeatCount == repeatCount
    ensures r.Built? ==> r.node.child == child.value
  {
    if child.None? then ArgumentNull else Built(Repeater(id, child.value, repeatCount))
  }

  // ---------------------------------------------------------------------
  // Ids and namespaces
  // ---------------------------------------------------------------------

  /** The ids of every node in the subtree rooted at `n`. */
  function Ids(n: Node): set<NodeId>
    decreases n, 1, 0
  {
    match n
    case Sequence(id, cs) => {id} + ChildIds(n, |cs|)
    case Selector(id, cs) => {id} + ChildIds(n, |cs|)
    case Parallel(id, _, cs) => {id} + ChildIds(n, |cs|)
    case Cooldown(id, child, _) => {id} + Ids(child)
    case Repeater(id, child, _) => {id} + Ids(child)
    case _ => {n.id}
  }

  /** The ids of the subtrees of the first `i` children of a composite. */
  function ChildIds(n: Node, i: nat): set<NodeId>
    requires IsComposite(n) && i <= |n.children|
    decreases n, 0, i
  {
    if i == 0 then {} else ChildIds(n, i - 1) + Ids(n.children[i - 1])
  }

  /** `key` lies in the namespace of one of `ids`. */
  predicate Owned(key: string, ids: set<NodeId>)
  {
    exists id :: id in ids && InNamespace(key, id)
  }

  /** The store without any key in the namespaces of `ids`. */
  function Scrub(s: Store, ids: set<NodeId>): (r: Store)
    ensures forall k :: k in r <==> k in s && !Owned(k, ids)
    ensures forall k :: k in r ==> r[k] == s[k]
  {
    map k | k in s && !Owned(k, ids) :: s[k]
  }

  // ---------------------------------------------------------------------
  // Reset
  // ---------------------------------------------------------------------

  /** `n.Reset(blackboard)`: each node first writes what its own override
      writes, resets its children in order, and ends with the base class's
      `ClearPrefix(id + "_")`. */
  function Reset(n: Node, s: Store): Store
    decreases n, 1, 0
  {
    match n
    case Condition(id, _) => ClearPrefix(s, Prefix(id))
    case Action(id, _) => ClearPrefix(s, Prefix(id))
    case Sequence(id, cs) =>
      ClearPrefix(ResetChildren(n, |cs|, Set(s, CurrentKey(id), IntV(0))), Prefix(id))
    case Selector(id, cs) =>
      ClearPrefix(ResetChildren(n, |cs|, Set(s, CurrentKey(id), IntV(0))), Prefix(id))
    case Parallel(id, _, cs) =>
      ClearPrefix(ResetChildren(n, |cs|, s), Prefix(id))
    case Cooldown(id, child, _) =>
      ClearPrefix(Reset(child, s), Prefix(id))
    case Repeater(id, child, _) =>
      ClearPrefix(Reset(child, Set(s, CountKey(id), IntV(0))), Prefix(id))
    case Wait(id, _) =>
      ClearPrefix(Set(s, StartedKey(id), BoolV(false)), Prefix(id))
  }

  /** `foreach (var child in _children) child.Reset(blackboard)`, over the
      first `i` children. */
  function ResetChildren(n: Node, i: nat, s: Store): Store
    requires IsComposite(n) && i <= |n.children|
    decreases n, 0, i
  {
    if i == 0 then s else Reset(n.children[i - 1], ResetChildren(n, i - 1, s))
  }

  // ---------------------------------------------------------------------
  // Tick
  // ---------------------------------------------------------------------

  /** `n.Tick(blackboard)` at time `now`. Leaves catch every exception of
      their callback; composites and decorators catch nothing, so an
      exception from reading one of their keys at the wrong type, or from
      indexing the child list with a negative cursor, ends the tick. */
  function Tick(n: Node, s: Store, now: real): Outcome<NodeState>
    decreases n, 2, 0
  {
    match n
    case Condition(_, cond) =>
      (match cond(s)
       case Returned(b, s1) => Returned(if b then Success else Failure, s1)
       case Threw(s1) => Returned(Failure, s1))
    case Action(_, act) =>
      (match act(s)
       case Returned(st, s1) => Returned(st, s1)
       case Threw(s1) => Returned(Failure, s1))
    case Sequence(_, _) => Resume(n, s, now)
    case Selector(_, _) => Resume(n, s, now)
    case Parallel(_, _, _) => ParallelLoop(n, 0, 0, s, now)
    case Cooldown(id, child, cooldown) =>
      (match ReadFloat(s, LastKey(id))
       case InvalidCast => Threw(s)
       case Cast(last) =>
         if now - last < cooldown then Returned(Failure, s)
         else
           match Tick(child, s, now)
           case Threw(s1) => Threw(s1)
           case Returned(st, s1) =>
             Returned(st, if st == Success then Set(s1, LastKey(id), FloatV(now)) else s1))
    case Repeater(id, child, repeatCount) =>
      (match ReadInt(s, CountKey(id))
       case InvalidCast => Threw(s)
       case Cast(count) =>
         match Tick(child, s, now)
         case Threw(s1) => Threw(s1)
         case Returned(st, s1) =>
           if st == Running then Returned(Running, s1)
           else
             var current := Wrap(count + 1) as int;
             var s2 := Reset(child, s1);
             if repeatCount < 0 || current < repeatCount
             then Returned(Running, Set(s2, CountKey(id), IntV(current)))
             else Returned(st, Set(s2, CountKey(id), IntV(0))))
    case Wait(id, duration) =>
      (match ReadBool(s, StartedKey(id))
       case InvalidCast => Threw(s)
       case Cast(started) =>
         var s1 := if started then s
                   else Set(Set(s, StartKey(id), FloatV(now)), StartedKey(id), BoolV(true));
         match ReadFloat(s1, StartKey(id))
         case InvalidCast => Threw(s1)
         case Cast(start) =>
           if now - start < duration then Returned(Running, s1)
           else Returned(Success, Set(s1, StartedKey(id), BoolV(false))))
  }

  /** Sequence/Selector: load the cursor from the store and resume there. */
  function Resume(n: Node, s: Store, now: real): Outcome<NodeState>
    requires n.Sequence? || n.Selector?
    decreases n, 1, 0
  {
    match ReadInt(s, CurrentKey(n.id))
    case InvalidCast => Threw(s)
    case Cast(c) => if c < 0 then Threw(s) else CompositeLoop(n, c, s, now)
  }

  /** The `while (_current < _children.Count)` loop of Sequence and
      Selector, from child `i` on. */
  function CompositeLoop(n: Node, i: nat, s: Store, now: real): Outcome<NodeState>
    requires n.Sequence? || n.Selector?
    decreases n, 0, |n.children| - i
  {
    if |n.children| <= i then Returned(Advance(n), Reset(n, s))
    else
      match Tick(n.children[i], s, now)
      case Threw(s1) => Threw(s1)
      case Returned(st, s1) =>
        if st == Running then Returned(Running, Set(s1, CurrentKey(n.id), IntV(i)))
        else if st == Advance(n) then CompositeLoop(n, i + 1, s1, now)
        else Returned(st, Reset(n, s1))
  }

  /** The `foreach` loop of Parallel from child `i` on, with `successes`
      counted so far. */
  function ParallelLoop(n: Node, i: nat, successes: nat, s: Store, now: real): Outcome<NodeState>
    requires n.Parallel?
    decreases n, 0, |n.children| - i
  {
    if |n.children| <= i then
      if successes >= n.threshold then Returned(Success, Reset(n, s)) else Returned(Running, s)
    else
      match Tick(n.children[i], s, now)
      case Threw(s1) => Threw(s1)
      case Returned(st, s1) =>
        if st == Failure then Returned(Failure, Reset(n, s1))
        else ParallelLoop(n, i + 1, if st == Success then successes + 1 else successes, s1, now)
  }
}
