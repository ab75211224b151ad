/** `BehaviorTreeBuilder`: a fluent builder over a stack of child lists.

    The source keeps a `Stack<List<IBehaviorNode>>` and a current list, and
    mutates both in place. The constructor pushes its first list (call it
    L0) while keeping it current, so L0 is on the stack and current at the
    same time; every later list is fresh when pushed. The model keeps:
    - `frames`: the lists pushed by `Sequence()`/`Selector()`/`Parallel()`,
      bottom first (their first element, when there is one, is L0);
    - `current`: the current list;
    - `bottomPopped`: whether the constructor's own stack entry has been
      popped (by the `End()` that sets the root);
    - `root`: what `_root` holds. A root `SequenceNode` made by that `End()`
      wraps L0 itself, which stays current, so later additions to the
      current list show up in the root: `Shared(id)` records this, and
      `Build()` reads the root's children from L0 (`Bottom()`).
    Node ids, which the source draws from `Guid.NewGuid()`, are parameters. */
module Builder {
  import opened Stores
  import opened Nodes
  import opened ResetProperties

  // ---------------------------------------------------------------------
  // The callbacks the store helpers build
  // ---------------------------------------------------------------------

  /** `When(key)`: `bb.Get<bool>(key)`. */
  function IsTrue(key: string): Callback<bool>
  {
    (s: Store) => match ReadBool(s, key)
                  case InvalidCast => Threw(s)
                  case Cast(b) => Returned(b, s)
  }

  /** `WhenNot(key)`: `!bb.Get<bool>(key)`. */
  function IsFalse(key: string): Callback<bool>
  {
    (s: Store) => match ReadBool(s, key)
                  case InvalidCast => Threw(s)
                  case Cast(b) => Returned(!b, s)
  }

  /** `WhenEquals(key, v)`: `bb.Get<T>(key).Equals(v)`; for a string key
      that is absent `Get` returns null, and calling `Equals` on it throws. */
  function IsEqual(key: string, v: Value): Callback<bool>
  {
    (s: Store) => match Read(s, key, KindOf(v))
                  case InvalidCast => Threw(s)
                  case Cast(None) => Threw(s)
                  case Cast(Some(x)) => Returned(x == v, s)
  }

  /** `Set(key, v)`: write, then Success. */
  function Assign(key: string, v: Value): Callback<NodeState>
  {
    (s: Store) => Returned(Success, Stores.Set(s, key, v))
  }

  /** `Do(Action<Blackboard>)`: run the effect, then Success. */
  function Succeeding(effect: Callback<()>): Callback<NodeState>
  {
    (s: Store) => match effect(s)
                  case Threw(s1) => Threw(s1)
                  case Returned(_, s1) => Returned(Success, s1)
  }

  /** `AddToList<T>(key, x)`, with `T` the type of `x`: the stored
      `List<T>` (a new one when absent) with `x` appended. A value of
      another type, a list of another element type included, makes the
      cast throw. */
  function AddItem(key: string, x: Value): Callback<NodeState>
  {
    (s: Store) => match Read(s, key, ListK(KindOf(x)))
                  case InvalidCast => Threw(s)
                  case Cast(None) => Returned(Success, Stores.Set(s, key, ListV(KindOf(x), [x])))
                  case Cast(Some(l)) => Returned(Success, Stores.Set(s, key, ListV(KindOf(x), l.items + [x])))
  }

  /** `RemoveFromList<T>(key, x)`: `List.Remove`, which drops the first
      occurrence; nothing happens when the key is absent. */
  function RemoveItem(key: string, x: Value): Callback<NodeState>
  {
    (s: Store) => match Read(s, key, ListK(KindOf(x)))
                  case InvalidCast => Threw(s)
                  case Cast(None) => Returned(Success, s)
                  case Cast(Some(l)) => Returned(Success, Stores.Set(s, key, ListV(KindOf(x), RemoveFirst(l.items, x))))
  }

  /** The position of the first occurrence of `x` in `xs`. */
  function FirstIndex<T(==)>(xs: seq<T>, x: T): (j: nat)
    requires x in xs
    ensures j < |xs| && xs[j] == x && x !in xs[..j]
  {
    if xs[0] == x then 0
    else
      assert x in xs[1..] by { assert xs == [xs[0]] + xs[1..]; }
      var j := 1 + FirstIndex(xs[1..], x);
      assert xs[..j] == [xs[0]] + xs[1..][..j - 1];
      j
  }

  /** `List<T>.Remove(x)` on the list's contents. */
  function RemoveFirst<T(==)>(xs: seq<T>, x: T): (r: seq<T>)
    ensures multiset(r) == multiset(xs) - multiset{x}
    ensures x in xs ==> |r| == |xs| - 1
    ensures x !in xs ==> r == xs
  {
    if xs == [] then []
    else
      assert xs == [xs[0]] + xs[1..];
      if xs[0] == x then xs[1..]
      else [xs[0]] + RemoveFirst(xs[1..], x)
  }

  /** `Remove` cuts out the first occurrence of `x` and keeps the order
      of the rest. */
  lemma {:induction false} RemoveFirstCutsFirst<T>(xs: seq<T>, x: T)
    requires x in xs
    ensures RemoveFirst(xs, x) == xs[..FirstIndex(xs, x)] + xs[FirstIndex(xs, x) + 1..]
  {
    if xs[0] != x {
      var tail := xs[1..];
      assert xs == [xs[0]] + tail;
      RemoveFirstCutsFirst(tail, x);
      ConsCut(xs[0], tail, FirstIndex(tail, x));
    }
  }

  /** Cutting position `j` out of a tail is cutting `j + 1` out of the
      whole sequence. */
  lemma ConsCut<T>(h: T, t: seq<T>, j: nat)
    requires j < |t|
    ensures [h] + (t[..j] + t[j + 1..]) == ([h] + t)[..j + 1] + ([h] + t)[j + 2..]
  {
    assert ([h] + t)[..j + 1] == [h] + t[..j];
    assert ([h] + t)[j + 2..] == t[j + 1..];
  }

  // ---------------------------------------------------------------------
  // What the leaves made by the store helpers do
  // ---------------------------------------------------------------------

  /** `When(key)` succeeds exactly when the key holds true; absent, false
      or of another type (the cast throws, the leaf catches) it fails. */
  lemma WhenSucceedsIff(id: NodeId, key: string, s: Store, now: real)
    ensures Tick(Nodes.Condition(id, IsTrue(key)), s, now) ==
      Returned(if key in s && s[key] == BoolV(true) then Success else Failure, s)
  {
  }

  /** `WhenNot(key)` succeeds exactly when the key is absent or holds false. */
  lemma WhenNotSucceedsIff(id: NodeId, key: string, s: Store, now: real)
    ensures Tick(Nodes.Condition(id, IsFalse(key)), s, now) ==
      Returned(if key !in s || s[key] == BoolV(false) then Success else Failure, s)
  {
  }

  /** `WhenEquals(key, v)` succeeds exactly when the key holds `v`, or is
      absent and `v` is the default of its type. */
  lemma WhenEqualsSucceedsIff(id: NodeId, key: string, v: Value, s: Store, now: real)
    requires !KindOf(v).ListK?
    ensures Tick(Nodes.Condition(id, IsEqual(key, v)), s, now) ==
      Returned(if (key in s && s[key] == v) || (key !in s && Default(KindOf(v)) == Some(v))
               then Success else Failure, s)
  {
  }

  /** `Set(key, v)` (and `SetTrue`, `SetFalse`) succeeds and stores `v`. */
  lemma SetStores(id: NodeId, key: string, v: Value, s: Store, now: real)
    ensures Tick(Nodes.Action(id, Assign(key, v)), s, now) == Returned(Success, Stores.Set(s, key, v))
    ensures Get(Tick(Nodes.Action(id, Assign(key, v)), s, now).store, key, KindOf(v)) == Some(v)
  {
  }

  /** `AddToList(key, x)` appends `x` to the stored list (to an empty one
      when absent); a value of another type, a list of another element
      type included, makes the leaf fail with the store untouched. */
  lemma AddToListAppends(id: NodeId, key: string, x: Value, s: Store, now: real)
    ensures Tick(Nodes.Action(id, AddItem(key, x)), s, now) ==
      if !Fits(s, key, ListK(KindOf(x))) then Returned(Failure, s)
      else Returned(Success, Stores.Set(s, key, ListV(KindOf(x), (if key in s then s[key].items else []) + [x])))
  {
    var k := ListK(KindOf(x));
    var r := Tick(Nodes.Action(id, AddItem(key, x)), s, now);
    if !Fits(s, key, k) {
      assert Read(s, key, k) == InvalidCast;
      assert r == Returned(Failure, s);
    } else if key in s {
      assert Read(s, key, k) == Cast(Some(s[key]));
      assert r == Returned(Success, Stores.Set(s, key, ListV(KindOf(x), s[key].items + [x])));
    } else {
      assert Read(s, key, k) == Cast(None);
      assert r == Returned(Success, Stores.Set(s, key, ListV(KindOf(x), [x])));
      var none: seq<Value> := [];
      assert none + [x] == [x];
    }
  }

  /** `RemoveFromList(key, x)` always succeeds unless the key holds a value
      of another type (the leaf then fails with the store untouched). An
      absent key leaves the store as it was; a list of the right type
      loses the first occurrence of `x`, and is unchanged without one. */
  lemma RemoveFromListRemovesOne(id: NodeId, key: string, x: Value, s: Store, now: real)
    ensures var r := Tick(Nodes.Action(id, RemoveItem(key, x)), s, now);
      r.Returned? &&
      (!Fits(s, key, ListK(KindOf(x))) ==> r == Returned(Failure, s)) &&
      (key !in s ==> r == Returned(Success, s)) &&
      (key in s && Fits(s, key, ListK(KindOf(x))) ==>
         r.value == Success &&
         r.store == Stores.Set(s, key, ListV(KindOf(x), RemoveFirst(s[key].items, x))) &&
         (x !in s[key].items ==> r.store == s))
  {
    var k := ListK(KindOf(x));
    RemoveItemTick(id, key, x, s, now);
    if key in s && Fits(s, key, k) && x !in s[key].items {
      assert s[key] == ListV(KindOf(x), s[key].items);
      assert Stores.Set(s, key, ListV(KindOf(x), RemoveFirst(s[key].items, x))) == s;
    }
  }

  lemma RemoveItemTick(id: NodeId, key: string, x: Value, s: Store, now: real)
    ensures var k := ListK(KindOf(x));
      Tick(Nodes.Action(id, RemoveItem(key, x)), s, now) ==
        if !Fits(s, key, k) then Returned(Failure, s)
        else if key !in s then Returned(Success, s)
        else Returned(Success, s[key := ListV(KindOf(x), RemoveFirst(s[key].items, x))])
  {
    var k := ListK(KindOf(x));
    if !Fits(s, key, k) {
      assert Read(s, key, k) == InvalidCast;
    } else if key !in s {
      assert Read(s, key, k) == Cast(None);
    } else {
      assert Read(s, key, k) == Cast(Some(s[key]));
    }
  }

  // ---------------------------------------------------------------------
  // How End() picks the composite type
  // ---------------------------------------------------------------------

  /** `GetType().Name` of each node class. */
  function TypeName(n: Node): string
  {
    match n
    case Condition(_, _) => "LambdaConditionNode"
    case Action(_, _) => "LambdaActionNode"
    case Sequence(_, _) => "SequenceNode"
    case Selector(_, _) => "SelectorNode"
    case Parallel(_, _, _) => "ParallelNode"
    case Cooldown(_, _, _) => "CooldownDecoratorNode"
    case Repeater(_, _, _) => "RepeaterDecoratorNode"
    case Wait(_, _) => "WaitNode"
  }

  /** `string.Contains`: `t` occurs in `s` at some position. */
  predicate Contains(s: string, t: string)
  {
    exists i :: 0 <= i <= |s| - |t| && Window(s, i, |t|) == t
  }

  /** The `len` characters of `s` from position `i`. */
  function Window(s: string, i: int, len: nat): (r: string)
    requires 0 <= i <= |s| - len
    ensures |r| == len && forall k :: 0 <= k < len ==> r[k] == s[i + k]
  {
    s[i..i + len]
  }

  /** A string that lacks one of `t`'s characters does not contain `t`. */
  lemma MissingCharNotContained(s: string, t: string, j: nat)
    requires j < |t| && t[j] !in s
    ensures !Contains(s, t)
  {
    forall i | 0 <= i <= |s| - |t|
      ensures Window(s, i, |t|) != t
    {
      assert Window(s, i, |t|)[j] == s[i + j];
    }
  }

  /** A name without an 'l' contains neither "Selector" nor "Parallel". */
  lemma NoLetterL(name: string)
    requires 'l' !in name
    ensures !Contains(name, "Selector") && !Contains(name, "Parallel")
  {
    MissingCharNotContained(name, "Selector", 2);
    MissingCharNotContained(name, "Parallel", 4);
  }

  // One lemma per class name keeps each check on a literal small: a
  // single lemma over all eight names needs several times the resources
  // and does not verify reliably across solver seeds.

  lemma ConditionNameIsPlain()
    ensures !Contains("LambdaConditionNode", "Selector") && !Contains("LambdaConditionNode", "Parallel")
  {
    NoLetterL("LambdaConditionNode");
  }

  lemma ActionNameIsPlain()
    ensures !Contains("LambdaActionNode", "Selector") && !Contains("LambdaActionNode", "Parallel")
  {
    NoLetterL("LambdaActionNode");
  }

  lemma SequenceNameIsPlain()
    ensures !Contains("SequenceNode", "Selector") && !Contains("SequenceNode", "Parallel")
  {
    NoLetterL("SequenceNode");
  }

  lemma CooldownNameIsPlain()
    ensures !Contains("CooldownDecoratorNode", "Selector") && !Contains("CooldownDecoratorNode", "Parallel")
  {
    MissingCharNotContained("CooldownDecoratorNode", "Selector", 0);
    MissingCharNotContained("CooldownDecoratorNode", "Parallel", 0);
  }

  lemma RepeaterNameIsPlain()
    ensures !Contains("RepeaterDecoratorNode", "Selector") && !Contains("RepeaterDecoratorNode", "Parallel")
  {
    NoLetterL("RepeaterDecoratorNode");
  }

  lemma WaitNameIsPlain()
    ensures !Contains("WaitNode", "Selector") && !Contains("WaitNode", "Parallel")
  {
    NoLetterL("WaitNode");
  }

  lemma SelectorNameIsNotParallel()
    ensures !Contains("SelectorNode", "Parallel")
  {
    MissingCharNotContained("SelectorNode", "Parallel", 0);
  }

  lemma ParallelNameIsNotSelector()
    ensures !Contains("ParallelNode", "Selector")
  {
    MissingCharNotContained("ParallelNode", "Selector", 0);
  }

  /** Only a SelectorNode's type name contains "Selector", and only a
      ParallelNode's contains "Parallel". */
  lemma TypeNameContains(n: Node)
    ensures Contains(TypeName(n), "Selector") ==> n.Selector?
    ensures Contains(TypeName(n), "Parallel") ==> n.Parallel?
  {
    match n
    case Condition(_, _) => ConditionNameIsPlain();
    case Action(_, _) => ActionNameIsPlain();
    case Sequence(_, _) => SequenceNameIsPlain();
    case Selector(_, _) => SelectorNameIsNotParallel();
    case Parallel(_, _, _) => ParallelNameIsNotSelector();
    case Cooldown(_, _, _) => CooldownNameIsPlain();
    case Repeater(_, _, _) => RepeaterNameIsPlain();
    case Wait(_, _) => WaitNameIsPlain();
  }

  /** The composite `End()` creates for `children`, given the parent list
      it will be appended to: a SelectorNode after a SelectorNode, a
      ParallelNode (threshold 1) after a ParallelNode, otherwise, and
      always when either list is empty, a SequenceNode. */
  function CompositeFor(id: NodeId, parent: seq<Node>, children: seq<Node>): Node
  {
    if |children| > 0 && |parent| > 0 then
      var name := TypeName(parent[|parent| - 1]);
      if Contains(name, "Selector") then Nodes.Selector(id, children)
      else if Contains(name, "Parallel") then Nodes.Parallel(id, 1, children)
      else Nodes.Sequence(id, children)
    else Nodes.Sequence(id, children)
  }

  /** As long as no Selector or Parallel precedes it, `End()` builds a
      SequenceNode over exactly the collected children. */
  lemma CompositeIsSequence(id: NodeId, parent: seq<Node>, children: seq<Node>)
    requires |parent| > 0 ==> !parent[|parent| - 1].Selector? && !parent[|parent| - 1].Parallel?
    ensures CompositeFor(id, parent, children).Sequence?
    ensures CompositeFor(id, parent, children).id == id
    ensures CompositeFor(id, parent, children).children == children
  {
    if |parent| > 0 {
      TypeNameContains(parent[|parent| - 1]);
    }
  }

  /** No Selector and no Parallel anywhere in the tree. */
  predicate OnlySequences(n: Node)
    decreases n
  {
    match n
    case Selector(_, _) => false
    case Parallel(_, _, _) => false
    case Sequence(_, cs) => forall k :: 0 <= k < |cs| ==> OnlySequences(cs[k])
    case Cooldown(_, child, _) => OnlySequences(child)
    case Repeater(_, child, _) => OnlySequences(child)
    case _ => true
  }

  predicate AllOnlySequences(ns: seq<Node>)
  {
    forall k :: 0 <= k < |ns| ==> OnlySequences(ns[k])
  }

  datatype Root = NoRoot | Single(node: Node) | Shared(id: NodeId)

  /** What the root `End()` stores for `children`: the lone child itself,
      otherwise a SequenceNode over them. */
  function RootFor(id: NodeId, children: seq<Node>, shared: bool): Root
  {
    if |children| == 1 then Single(children[0])
    else if shared then Shared(id)
    else Single(Nodes.Sequence(id, children))
  }

  class BehaviorTreeBuilder {
    var frames: seq<seq<Node>>
    var current: seq<Node>
    var bottomPopped: bool
    var root: Root

    /** `_nodeStack.Count`. */
    function Depth(): nat
      reads this
    {
      |frames| + if bottomPopped then 0 else 1
    }

    /** The constructor's list L0. */
    function Bottom(): seq<Node>
      reads this
    {
      if frames == [] then current else frames[0]
    }

    /** Every node the builder holds was made by its own methods, so none
        of them is a Selector or a Parallel. */
    predicate Valid()
      reads this
    {
      (forall i :: 0 <= i < |frames| ==> AllOnlySequences(frames[i])) &&
      AllOnlySequences(current) &&
      (root.Single? ==> OnlySequences(root.node))
    }

    /** `Build()`: `_root`, null until a root `End()`. */
    function Build(): (r: Option<Node>)
      reads this
      requires Valid()
      ensures r.None? <==> root.NoRoot?
      ensures r.Some? ==> OnlySequences(r.value)
    {
      match root
      case NoRoot => None
      case Single(n) => Some(n)
      case Shared(id) => Some(Nodes.Sequence(id, Bottom()))
    }

    /** `new BehaviorTreeBuilder()`: one empty list, on the stack and current. */
    constructor ()
      ensures frames == [] && current == [] && !bottomPopped && root == NoRoot
      ensures Valid() && Depth() == 1
    {
      frames := [];
      current := [];
      bottomPopped := false;
      root := NoRoot;
    }

    /** `Condition(cond)`: appends one LambdaConditionNode; a null
        callback throws ArgumentNullException and appends nothing. */
    method Condition(id: NodeId, cond: Option<Callback<bool>>) returns (thrown: bool)
      requires Valid()
      modifies this
      ensures Valid() && thrown == cond.None?
      ensures frames == old(frames) && bottomPopped == old(bottomPopped) && root == old(root)
      ensures current == if cond.None? then old(current) else old(current) + [Nodes.Condition(id, cond.value)]
    {
      if cond.None? {
        return true;
      }
      current := current + [Nodes.Condition(id, cond.value)];
      thrown := false;
    }

    /** `Action(act)` (and `Do(Func<Blackboard, NodeState>)`): appends one
        LambdaActionNode; a null callback throws and appends nothing. */
    method Action(id: NodeId, act: Option<Callback<NodeState>>) returns (thrown: bool)
      requires Valid()
      modifies this
      ensures Valid() && thrown == act.None?
      ensures frames == old(frames) && bottomPopped == old(bottomPopped) && root == old(root)
      ensures current == if act.None? then old(current) else old(current) + [Nodes.Action(id, act.value)]
    {
      if act.None? {
        return true;
      }
      current := current + [Nodes.Action(id, act.value)];
      thrown := false;
    }

    method When(id: NodeId, key: string)
      requires Valid()
      modifies this
      ensures Valid()
      ensures frames == old(frames) && bottomPopped == old(bottomPopped) && root == old(root)
      ensures current == old(current) + [Nodes.Condition(id, IsTrue(key))]
    {
      var _ := Condition(id, Some(IsTrue(key)));
    }

    method WhenNot(id: NodeId, key: string)
      requires Valid()
      modifies this
      ensures Valid()
      ensures frames == old(frames) && bottomPopped == old(bottomPopped) && root == old(root)
      ensures current == old(current) + [Nodes.Condition(id, IsFalse(key))]
    {
      var _ := Condition(id, Some(IsFalse(key)));
    }

    /** `WhenEquals<T>` requires `T : IEquatable<T>`, which `List<T>` is not. */
    method WhenEquals(id: NodeId, key: string, v: Value)
      requires Valid() && !KindOf(v).ListK?
      modifies this
      ensures Valid()
      ensures frames == old(frames) && bottomPopped == old(bottomPopped) && root == old(root)
      ensures current == old(current) + [Nodes.Condition(id, IsEqual(key, v))]
    {
      var _ := Condition(id, Some(IsEqual(key, v)));
    }

    /** `Do(Action<Blackboard>)`. */
    method Do(id: NodeId, effect: Callback<()>)
      requires Valid()
      modifies this
      ensures Valid()
      ensures frames == old(frames) && bottomPopped == old(bottomPopped) && root == old(root)
      ensures current == old(current) + [Nodes.Action(id, Succeeding(effect))]
    {
      var _ := Action(id, Some(Succeeding(effect)));
    }

    method Set(id: NodeId, key: string, v: Value)
      requires Valid()
      modifies this
      ensures Valid()
      ensures frames == old(frames) && bottomPopped == old(bottomPopped) && root == old(root)
      ensures current == old(current) + [Nodes.Action(id, Assign(key, v))]
    {
      var _ := Action(id, Some(Assign(key, v)));
    }

    method SetTrue(id: NodeId, key: string)
      requires Valid()
      modifies this
      ensures Valid()
      ensures frames == old(frames) && bottomPopped == old(bottomPopped) && root == old(root)
      ensures current == old(current) + [Nodes.Action(id, Assign(key, BoolV(true)))]
    {
      Set(id, key, BoolV(true));
    }

    method SetFalse(id: NodeId, key: string)
      requires Valid()
      modifies this
      ensures Valid()
      ensures frames == old(frames) && bottomPopped == old(bottomPopped) && root == old(root)
      ensures current == old(current) + [Nodes.Action(id, Assign(key, BoolV(false)))]
    {
      Set(id, key, BoolV(false));
    }

    method AddToList(id: NodeId, key: string, x: Value)
      requires Valid()
      modifies this
      ensures Valid()
      ensures frames == old(frames) && bottomPopped == old(bottomPopped) && root == old(root)
      ensures current == old(current) + [Nodes.Action(id, AddItem(key, x))]
    {
      var _ := Action(id, Some(AddItem(key, x)));
    }

    method RemoveFromList(id: NodeId, key: string, x: Value)
      requires Valid()
      modifies this
      ensures Valid()
      ensures frames == old(frames) && bottomPopped == old(bottomPopped) && root == old(root)
      ensures current == old(current) + [Nodes.Action(id, RemoveItem(key, x))]
    {
      var _ := Action(id, Some(RemoveItem(key, x)));
    }

    /** `Sequence()`: push the current list and start an empty one. */
    method Sequence()
      requires Valid()
      modifies this
      ensures Valid() && Depth() == old(Depth()) + 1
      ensures frames == old(frames) + [old(current)] && current == []
      ensures bottomPopped == old(bottomPopped) && root == old(root)
      ensures Bottom() == old(Bottom())
    {
      frames := frames + [current];
      current := [];
    }

    /** `Selector()`: the same push as `Sequence()`. */
    method Selector()
      requires Valid()
      modifies this
      ensures Valid() && Depth() == old(Depth()) + 1
      ensures frames == old(frames) + [old(current)] && current == []
      ensures bottomPopped == old(bottomPopped) && root == old(root)
    {
      Sequence();
    }

    /** `Parallel(successCount)`: the same push; `successCount` is unused. */
    method Parallel(successCount: int)
      requires Valid()
      modifies this
      ensures Valid() && Depth() == old(Depth()) + 1
      ensures frames == old(frames) + [old(current)] && current == []
      ensures bottomPopped == old(bottomPopped) && root == old(root)
    {
      Sequence();
    }

    /** `End()`: pop the stack into the current list. If the stack is
        still not empty, append to it a composite over the collected
        children (always a SequenceNode); otherwise make them the root.
        `Pop` on an empty stack throws InvalidOperationException before
        anything changes. */
    method End(id: NodeId) returns (thrown: bool)
      requires Valid()
      modifies this
      ensures Valid() && thrown == (old(Depth()) == 0)
      ensures thrown ==>
        frames == old(frames) && current == old(current) &&
        bottomPopped == old(bottomPopped) && root == old(root)
      ensures !thrown ==> Depth() == old(Depth()) - 1
      ensures !thrown && old(frames) == [] ==>
        frames == [] && bottomPopped && current == old(current) &&
        root == RootFor(id, old(current), true)
      ensures old(frames) != [] && Depth() > 0 ==>
        frames == old(frames[..|frames| - 1]) && bottomPopped == old(bottomPopped) &&
        current == old(frames[|frames| - 1]) + [Nodes.Sequence(id, old(current))] &&
        root == old(root)
      ensures old(frames) != [] && Depth() == 0 ==>
        frames == [] && bottomPopped && current == old(frames[0]) &&
        root == RootFor(id, old(current), false)
    {
      if Depth() == 0 {
        return true;
      }
      thrown := false;
      var children := current;
      if frames == [] {
        bottomPopped := true;
        root := RootFor(id, children, true);
        return;
      }
      var parent := frames[|frames| - 1];
      frames := frames[..|frames| - 1];
      current := parent;
      if Depth() > 0 {
        if |parent| > 0 {
          assert OnlySequences(parent[|parent| - 1]);
        }
        CompositeIsSequence(id, parent, children);
        var composite := CompositeFor(id, parent, children);
        current := current + [composite];
      } else {
        root := RootFor(id, children, false);
      }
    }

    /** `Wait(seconds)`: appends one WaitNode. */
    method Wait(id: NodeId, seconds: real)
      requires Valid()
      modifies this
      ensures Valid()
      ensures frames == old(frames) && bottomPopped == old(bottomPopped) && root == old(root)
      ensures current == old(current) + [Nodes.Wait(id, seconds)]
    {
      current := current + [Nodes.Wait(id, seconds)];
    }

    /** `Cooldown(seconds)`: wraps the last node of the current list in
        place; on an empty list nothing happens. */
    method Cooldown(id: NodeId, seconds: real)
      requires Valid()
      modifies this
      ensures Valid()
      ensures frames == old(frames) && bottomPopped == old(bottomPopped) && root == old(root)
      ensures |current| == |old(current)|
      ensures old(current) == [] ==> current == []
      ensures old(current) != [] ==>
        current == old(current[..|current| - 1]) + [Nodes.Cooldown(id, old(current[|current| - 1]), seconds)]
    {
      if |current| > 0 {
        var last := current[|current| - 1];
        current := current[..|current| - 1] + [Nodes.Cooldown(id, last, seconds)];
      }
    }

    /** `Repeat(count)`: wraps the last node of the current list in place;
        on an empty list nothing happens. */
    method Repeat(id: NodeId, count: int)
      requires Valid()
      modifies this
      ensures Valid()
      ensures frames == old(frames) && bottomPopped == old(bottomPopped) && root == old(root)
      ensures |current| == |old(current)|
      ensures old(current) == [] ==> current == []
      ensures old(current) != [] ==>
        current == old(current[..|current| - 1]) + [Nodes.Repeater(id, old(current[|current| - 1]), count)]
    {
      if |current| > 0 {
        var last := current[|current| - 1];
        current := current[..|current| - 1] + [Nodes.Repeater(id, last, count)];
      }
    }
  }

  // ---------------------------------------------------------------------
  // A tree built the usual way
  // ---------------------------------------------------------------------

  /** `Sequence().When(hasTarget).Action(move).End()`: the outer list now
      holds the sequence, but `Build()` is still null; one more `End()`
      makes the lone sequence itself the root, not wrapped again. */
  method BuildGuardedMove(q: NodeId, c: NodeId, a: NodeId, rootId: NodeId, hasTarget: string,
                          move: Callback<NodeState>)
    returns (early: Option<Node>, tree: Option<Node>)
    ensures early.None?
    ensures tree.Some? && tree.value == Nodes.Sequence(q, [Nodes.Condition(c, IsTrue(hasTarget)), Nodes.Action(a, move)])
  {
    var b := new BehaviorTreeBuilder();
    b.Sequence();
    b.When(c, hasTarget);
    var _ := b.Action(a, Some(move));
    var _ := b.End(q);
    early := b.Build();
    var _ := b.End(rootId);
    tree := b.Build();
  }

  /** Ticking that tree while `hasTarget` is false fails at the condition:
      the result is the same whatever `move` would do, so it is never run. */
  lemma GuardedMoveSkipsMove(q: NodeId, c: NodeId, a: NodeId, hasTarget: string,
                             move1: Callback<NodeState>, move2: Callback<NodeState>, s: Store, now: real)
    requires ReadInt(s, CurrentKey(q)) == Cast(0) && ReadBool(s, hasTarget) == Cast(false)
    ensures var tree1 := Nodes.Sequence(q, [Nodes.Condition(c, IsTrue(hasTarget)), Nodes.Action(a, move1)]);
      var tree2 := Nodes.Sequence(q, [Nodes.Condition(c, IsTrue(hasTarget)), Nodes.Action(a, move2)]);
      Tick(tree1, s, now) == Returned(Failure, Reset(tree1, s)) &&
      Tick(tree1, s, now) == Tick(tree2, s, now)
  {
    var tree1 := Nodes.Sequence(q, [Nodes.Condition(c, IsTrue(hasTarget)), Nodes.Action(a, move1)]);
    var tree2 := Nodes.Sequence(q, [Nodes.Condition(c, IsTrue(hasTarget)), Nodes.Action(a, move2)]);
    assert Tick(tree1.children[0], s, now) == Returned(Failure, s);
    assert Tick(tree1, s, now) == CompositeLoop(tree1, 0, s, now) == Returned(Failure, Reset(tree1, s));
    assert Tick(tree2, s, now) == CompositeLoop(tree2, 0, s, now) == Returned(Failure, Reset(tree2, s));
    ResetScrubs(tree1, s);
    ResetScrubs(tree2, s);
    assert Ids(tree1) == Ids(tree2) by {
      assert Ids(tree1.children[0]) == Ids(tree2.children[0]) == {c};
      assert Ids(tree1.children[1]) == Ids(tree2.children[1]) == {a};
      assert ChildIds(tree1, 2) == ChildIds(tree1, 1) + {a} == {c, a};
      assert ChildIds(tree2, 2) == ChildIds(tree2, 1) + {a} == {c, a};
    }
  }
}
