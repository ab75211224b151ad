# Behaviour-tree engine, health and inventory: a Dafny model

This project models the behaviour-tree engine of the game, from
`Assets/Game/Script/BT/NewGen.cs`, plus two small stateful game classes,
`HeathSystem` and `Inventory`. It proves what their code promises.

The engine consists of:

- a **Blackboard**, a dictionary from string keys to boxed values, shared by every node of a tree;
- **nodes**, which are ticked against the blackboard and return Success, Failure or Running:
  - leaves: `LambdaConditionNode`, `LambdaActionNode`;
  - composites: `SequenceNode`, `SelectorNode`, `ParallelNode`;
  - decorators: `CooldownDecoratorNode`, `RepeaterDecoratorNode`;
  - `WaitNode`;
- a fluent **BehaviorTreeBuilder** that assembles nodes over a stack of child lists;
- a **BehaviorTreeRunner** that starts, stops and ticks a root.

Nodes are immutable once built. Progress that spans ticks is kept in the blackboard under each node's private keys, `id + "_current"`, `"_last"`, `"_count"`, `"_start"` and `"_started"`. Every `Reset` ends by clearing the prefix `id + "_"`.

Modules:

- `Stores`: the blackboard's contents as a `map<string, Value>` over a tagged union of bool, int, float (as `real`), string and list values. A list carries its element type, since `List<int>` and `List<string>` are different types to a cast.
  - The dictionary operations are functions on that map.
  - `Read`/`ReadInt`/`ReadFloat`/`ReadBool` model `Get<T>` together with the `InvalidCastException` of a mistyped read.
- `Blackboards`: the `Blackboard` class, whose methods update its `data` field in place, including the two loops of `ClearPrefix`. Also `BlackboardValue<T>`.
- `Nodes`: the node datatype, and `Tick(n, s, now)` and `Reset(n, s)` as the reference semantics.
  - `Time.time` is the parameter `now`.
  - A callback is a function from the store to a returned value or a thrown exception, together with the store it leaves.
  - Leaves catch exceptions; composites and decorators let them through.
- `Engine`: the nodes' `Tick` and `Reset` as imperative methods on a `Blackboard`, with the source's `while`/`foreach` loops. Each is proved to leave exactly the store the functions of `Nodes` describe.
- `ResetProperties`: the reset theorem. `Reset(n, s)` removes exactly the keys in the namespaces of the subtree's nodes, and keeps everything else. Idempotence and the other reset facts follow from it.
- `TickProperties`: what one tick of each node kind does.
  - cursor resumption and stopping rules of Sequence/Selector;
  - Parallel's thresholds;
  - the Cooldown gate;
  - the Repeater counter;
  - the Wait timer.
- `Builder`: the store helpers as callbacks, and the `BehaviorTreeBuilder` class over its stack of child lists, with `End()`'s choice of composite type.
- `Runtime`: the `BehaviorTreeRunner` class.
- `Health`: `HeathSystem.TakeDamage`, with the delegate invocations on the `CharacterBody` recorded as events.
- `Int32s`: C#'s 32-bit `int` and its wrap-around, shared by the Repeater's counter and the inventory's money.
- `Inventories`: `Inventory.AddMoney`, with C#'s 32-bit wrap-around and the `MoneyChanged` notifications recorded.

Node ids are GUID strings, which never contain `_`. The model takes them as parameters of type `NodeId`, a string without `_`. As a result, two different ids have disjoint key namespaces.

Behaviour of the code worth noting, some of it at odds with the code's own comments:

- `Reset` of a Cooldown erases its last-success time, since `_last` lies under the cleared prefix.
- A fresh Cooldown reads its last success as 0. It therefore fails every tick while `now < cooldown`.
- Parallel stops at the first Failure. Children after it are not ticked on that tick, although the comment at `NewGen.cs:331` says it runs all nodes at once. Without a Failure, every child is ticked once per tick, one after the other.
- `Get<T>` on a key holding another type throws `InvalidCastException`; it does not return the default. Inside a node, the exception ends the tick, unless a leaf catches it.
- Builder:
  - The constructor already pushes the first list. An outermost `Sequence()…End()` therefore only appends a composite, and one more `End()` is needed before `Build()` returns a tree.
  - `Selector()` and `Parallel(n)` push exactly as `Sequence()` does, and `n` is unused, although their comments (`NewGen.cs:735`, `NewGen.cs:745`) say they create a selector and a parallel node.
  - `End()` picks the composite type from the type name of the last node already in the parent list (the comment at `NewGen.cs:769` says as much). The builder never puts a Selector or Parallel there, so every composite `End()` builds is a `SequenceNode`.
  - A root `End()` over zero children yields an empty `SequenceNode`.
- The runner's constructor throws `ArgumentNullException` on a null root or a null blackboard (`NewGen.cs:904-905`).
- The Repeater's counter is a C# `int`: `current++` wraps from 2^31 − 1 to −2^31. Only a Repeater with a negative repeat count, which never completes, counts that far.

## Model

| member | source | states |
|---|---|---|
| Stores.Default | Assets/Game/Script/BT/NewGen.cs:73 | `default(T)` is a value of kind T for bool, int and float, and null for string and list |
| Stores.Get | Assets/Game/Script/BT/NewGen.cs:73 | a present key reads as its stored value, an absent key as `default(T)`; the result has the requested kind |
| Stores.Read | Assets/Game/Script/BT/NewGen.cs:73 | the cast throws exactly when the key holds a value of another type (for a list, also one of another element type); otherwise the read is `Get` |
| Stores.ReadInt | Assets/Game/Script/BT/NewGen.cs:73 | `Get<int>`: throws iff mistyped, the stored int when present, 0 when absent |
| Stores.ReadFloat | Assets/Game/Script/BT/NewGen.cs:73 | `Get<float>`: throws iff mistyped, the stored float when present, 0 when absent |
| Stores.ReadBool | Assets/Game/Script/BT/NewGen.cs:73 | `Get<bool>`: throws iff mistyped, the stored bool when present, false when absent |
| Stores.Set | Assets/Game/Script/BT/NewGen.cs:68 | the indexer overwrites; what reads then see is stated by `Stores.GetAfterSet` |
| Stores.Has | Assets/Game/Script/BT/NewGen.cs:78 | `ContainsKey`; its behaviour after `Set` and on an absent key is stated by `Stores.GetAfterSet` and `Stores.GetAbsent` |
| Stores.Remove | Assets/Game/Script/BT/NewGen.cs:83 | the dictionary's `Remove`; `Stores.RemoveExact` states that it deletes exactly the key |
| Stores.ClearPrefix | Assets/Game/Script/BT/NewGen.cs:88-101 | a key survives iff it was present and does not start with the prefix; survivors keep their values |
| Stores.Clear | Assets/Game/Script/BT/NewGen.cs:111 | the cleared dictionary holds no key |
| Stores.GetAfterSet | Assets/Game/Script/BT/NewGen.cs:68-78 | after `Set(k, v)`, `Has(k)` holds and `Get(k)` returns v; `Has` and `Get` of every other key are unchanged |
| Stores.GetAbsent | Assets/Game/Script/BT/NewGen.cs:73 | `Get` of an absent key never throws and returns the type default |
| Stores.RemoveExact | Assets/Game/Script/BT/NewGen.cs:83 | `Remove(k)` deletes exactly k and keeps every other entry |
| Stores.ClearPrefixIdempotent | Assets/Game/Script/BT/NewGen.cs:88-101 | clearing a prefix twice is clearing it once |
| Stores.ClearEmpties | Assets/Game/Script/BT/NewGen.cs:111 | after `Clear`, `Has` is false for every key |
| Blackboards.Blackboard.constructor | Assets/Game/Script/BT/NewGen.cs:50 | a new blackboard is empty |
| Blackboards.Blackboard.Set | Assets/Game/Script/BT/NewGen.cs:68 | the indexer overwrites key k with v and touches nothing else |
| Blackboards.Blackboard.Get | Assets/Game/Script/BT/NewGen.cs:73 | a present key gives its value, an absent key the default, always of the requested kind |
| Blackboards.Blackboard.Has | Assets/Game/Script/BT/NewGen.cs:78 | reads `Stores.Has` of the blackboard's dictionary, which changes nothing |
| Blackboards.Blackboard.Remove | Assets/Game/Script/BT/NewGen.cs:83 | the dictionary loses exactly the key |
| Blackboards.Blackboard.ClearPrefix | Assets/Game/Script/BT/NewGen.cs:88-101 | collecting the matching keys, then deleting them one by one, leaves exactly `Stores.ClearPrefix` of the old contents |
| Blackboards.Blackboard.Ref | Assets/Game/Script/BT/NewGen.cs:106 | a fresh view bound to this blackboard, the key and the type |
| Blackboards.Blackboard.Clear | Assets/Game/Script/BT/NewGen.cs:111 | the dictionary becomes empty |
| Blackboards.BlackboardValue.constructor | Assets/Game/Script/BT/NewGen.cs:117-129 | the view remembers its blackboard and key |
| Blackboards.BlackboardValue.Value | Assets/Game/Script/BT/NewGen.cs:131-141 | `Value` and the implicit conversion read the key at the view's type |
| Blackboards.BlackboardValue.Set | Assets/Game/Script/BT/NewGen.cs:136 | writes through to the blackboard, and `Value` then reads back the written value |
| Nodes.NewCondition | Assets/Game/Script/BT/NewGen.cs:171-174 | a null condition throws ArgumentNullException; otherwise a condition node with the given id holding exactly the given callback |
| Nodes.NewAction | Assets/Game/Script/BT/NewGen.cs:197-200 | a null action throws ArgumentNullException; otherwise an action node with the given id holding exactly the given callback |
| Nodes.NewSequence | Assets/Game/Script/BT/NewGen.cs:229-234 | a Sequence with the given id over exactly the given children; a null child list becomes an empty one |
| Nodes.NewSelector | Assets/Game/Script/BT/NewGen.cs:284-289 | a Selector with the given id over exactly the given children; a null child list becomes an empty one |
| Nodes.NewParallel | Assets/Game/Script/BT/NewGen.cs:338-342 | a Parallel with the given id and threshold over exactly the given children; a null child list becomes an empty one |
| Nodes.NewCooldown | Assets/Game/Script/BT/NewGen.cs:391-396 | a null child throws ArgumentNullException; otherwise a Cooldown with the given id and duration wrapping exactly the given child |
| Nodes.NewRepeater | Assets/Game/Script/BT/NewGen.cs:426-431 | a null child throws ArgumentNullException; otherwise a Repeater with the given id and repeat count wrapping exactly the given child |
| Nodes.Tick | Assets/Game/Script/BT/NewGen.cs:176-492 | one tick of each node kind, as each class's `Tick` runs it; leaves catch their callback's exception, and every other node lets a child's exception and its own mistyped reads through; the lemmas of `TickProperties` state both, fault cases included (`LoopIsWalk`, `LoopIsSweep`, `CooldownFaults`, `RepeaterFaults`, `WaitFaults`), and `Engine.TickNode` is proved to run it |
| Nodes.Resume | Assets/Game/Script/BT/NewGen.cs:238-242 | Sequence/Selector load the cursor, throwing on a mistyped or negative one; stated by `TickProperties.CompositeRunningCursor` |
| Nodes.CompositeLoop | Assets/Game/Script/BT/NewGen.cs:240-258 | the Sequence/Selector `while` loop from child i; stated by `TickProperties.LoopIsWalk`, `LoopRunningStoresCursor`, `LoopDoneResets` and `CompositeStopsAt` |
| Nodes.ParallelLoop | Assets/Game/Script/BT/NewGen.cs:347-365 | the Parallel `foreach` from child i with its success count; stated by `TickProperties.LoopIsSweep` and `ParallelStopsAtFailure` |
| Nodes.Reset | Assets/Game/Script/BT/NewGen.cs:157-161 | each node's `Reset` override, ending in the base class's `ClearPrefix(id + "_")`; `ResetProperties.ResetScrubs` states that it removes exactly the subtree's namespaces |
| Nodes.ResetChildren | Assets/Game/Script/BT/NewGen.cs:266-270 | resetting the children in list order; `ResetProperties.ResetChildrenScrub` states what it removes |
| Engine.ResetNode | Assets/Game/Script/BT/NewGen.cs:157-161 | every node's `Reset` leaves the blackboard as `Nodes.Reset` describes: its own writes, its children's resets in order, then `ClearPrefix(id + "_")` |
| Engine.ResetChildNodes | Assets/Game/Script/BT/NewGen.cs:266-270 | the `foreach` over the children resets them in list order |
| Engine.TickNode | Assets/Game/Script/BT/NewGen.cs:176-187 | one tick of any node returns `Nodes.Tick`'s outcome and leaves its store |
| Engine.TickComposite | Assets/Game/Script/BT/NewGen.cs:236-261 | the Sequence/Selector `while` loop from the stored cursor returns `Nodes.Tick`'s outcome and store |
| Engine.TickParallel | Assets/Game/Script/BT/NewGen.cs:344-366 | the Parallel `foreach` with its success count returns `Nodes.Tick`'s outcome and store |
| ResetProperties.NamespacesDisjoint | Assets/Game/Script/BT/NewGen.cs:153 | no key lies in the namespaces of two different node ids |
| ResetProperties.ResetScrubs | Assets/Game/Script/BT/NewGen.cs:157-161 | `Reset(n)` removes exactly the keys in the namespaces of the nodes of n's subtree and changes no other entry, for every node kind |
| ResetProperties.ResetChildrenScrub | Assets/Game/Script/BT/NewGen.cs:266-270 | resetting the first i children removes exactly the keys of their subtrees |
| ResetProperties.ResetIdempotent | Assets/Game/Script/BT/NewGen.cs:263-272 | calling `Reset` twice leaves the same store as calling it once |
| ResetProperties.ResetClearsNamespace | Assets/Game/Script/BT/NewGen.cs:263-272 | no key of the node's namespace survives its `Reset`, not even the cursor, counter or flag the reset itself wrote |
| ResetProperties.ResetKeepsOthers | Assets/Game/Script/BT/NewGen.cs:157-161 | a key of a node outside the subtree is present after `Reset` iff before, with the same value |
| TickProperties.ConditionMapsVerdict | Assets/Game/Script/BT/NewGen.cs:176-187 | a condition never throws and never runs: Success iff the callback returned true, and Failure when it returned false or threw |
| TickProperties.ActionPassesResult | Assets/Game/Script/BT/NewGen.cs:202-213 | an action passes the callback's state through, and a thrown exception becomes Failure |
| TickProperties.LoopRunningStoresCursor | Assets/Game/Script/BT/NewGen.cs:240-247 | a Running result of the loop is the store some child j, at or after the start, left when it returned Running, with j stored as the cursor |
| TickProperties.LoopDoneResets | Assets/Game/Script/BT/NewGen.cs:248-258 | every Success or Failure of the loop comes with the node reset |
| TickProperties.CompositeRunningCursor | Assets/Game/Script/BT/NewGen.cs:236-247 | Sequence/Selector resume at the stored cursor (0 when absent) and throw on a mistyped or negative cursor; a Running result is the store the Running child j, at or after the cursor, left, with j stored as the new cursor |
| TickProperties.CompositeResumesAtRunningChild | Assets/Game/Script/BT/NewGen.cs:236-247 | after a Running tick, whose store is the one the Running child j left with j as the cursor, the next tick starts at child j, and earlier children are not ticked |
| TickProperties.LoopIsWalk | Assets/Game/Script/BT/NewGen.cs:240-258 | when every child from i on returns the advancing result (Success for a Sequence, Failure for a Selector), the loop runs off the end and returns that result with a reset of the store the last child left; otherwise the first child that does not advance decides: its exception passes up unchanged with the store it left, its Running is stored as the cursor, and any other result is returned with a reset |
| TickProperties.CompositeThrowsAt | Assets/Game/Script/BT/NewGen.cs:243 | an exception of child i ends the Sequence/Selector loop: the composite throws with the store the child left |
| TickProperties.CompositeOutcome | Assets/Game/Script/BT/NewGen.cs:236-259 | a mistyped or negative cursor throws with the store untouched; from a readable one, a Sequence succeeds (a Selector fails), with a reset of the last child's store, exactly when every child from the cursor on succeeds (fails), and otherwise the first child that does not decides as in `LoopIsWalk`, its exception included |
| TickProperties.CompositeStopsAt | Assets/Game/Script/BT/NewGen.cs:248-252 | the first child result that does not advance ends the tick with that result and a reset: a Failure for a Sequence, a Success for a Selector |
| TickProperties.CompositeDoneClearsNamespace | Assets/Game/Script/BT/NewGen.cs:255-260 | a Sequence or Selector that finishes leaves no key of its namespace |
| TickProperties.EmptyComposites | Assets/Game/Script/BT/NewGen.cs:255-260 | with no children and a readable cursor, a Sequence succeeds and a Selector fails, both with a reset; a Parallel, on every store, succeeds iff the threshold is at most 0, and otherwise returns Running with the store untouched |
| TickProperties.LoopNonPositiveThreshold | Assets/Game/Script/BT/NewGen.cs:358-362 | with a threshold of at most 0, the Parallel loop never ends in Running |
| TickProperties.LoopUnreachableThreshold | Assets/Game/Script/BT/NewGen.cs:358-362 | with a threshold above the child count, the Parallel loop never ends in Success |
| TickProperties.ParallelThresholds | Assets/Game/Script/BT/NewGen.cs:344-366 | a threshold of at most 0 never yields Running; one above the child count never yields Success |
| TickProperties.ParallelStopsAtFailure | Assets/Game/Script/BT/NewGen.cs:347-353 | the first Failure resets the Parallel and returns Failure, and later children are not ticked |
| TickProperties.LoopDoneResetsParallel | Assets/Game/Script/BT/NewGen.cs:350-362 | every Success or Failure of a Parallel comes with its reset |
| TickProperties.ParallelDoneClearsNamespace | Assets/Game/Script/BT/NewGen.cs:350-362 | a Parallel that finishes leaves no key of its namespace |
| TickProperties.LoopIsSweep | Assets/Game/Script/BT/NewGen.cs:347-365 | when no child from i on fails or throws, the loop counts between k and k + the remaining children successes, and returns Success with a reset of the last child's store iff the count reaches the threshold, and Running with that store as it is otherwise; when one does, its exception passes up unchanged with the store it left, and its Failure is returned with a reset |
| TickProperties.ParallelThrowsAt | Assets/Game/Script/BT/NewGen.cs:349 | an exception of child i ends the Parallel loop: the Parallel throws with the store the child left |
| TickProperties.ParallelOutcome | Assets/Game/Script/BT/NewGen.cs:344-366 | a Parallel tick ticks every child in order unless one fails or throws; then Success (with a reset) iff the successes reach the threshold, else Running leaving the store exactly as the last child left it; otherwise the first child's exception passes up unchanged, and its Failure is returned with a reset |
| TickProperties.ParallelTwoOfThree | Assets/Game/Script/BT/NewGen.cs:344-366 | threshold 2 over Success, Success, and a Running child that writes a mark: Success with a reset, and the mark is in the result, so the third child was ticked too |
| TickProperties.CooldownGate | Assets/Game/Script/BT/NewGen.cs:400-402 | inside the window the child is not ticked: Failure, store untouched |
| TickProperties.CooldownPassesThrough | Assets/Game/Script/BT/NewGen.cs:403-407 | outside the window, the child's outcome is passed through, an exception unchanged, and `now` is recorded exactly when it is Success |
| TickProperties.CooldownFaults | Assets/Game/Script/BT/NewGen.cs:400-407 | a last-success time of another type throws before the child is ticked, store untouched; outside the window the child's exception is the Cooldown's |
| TickProperties.CooldownRateLimit | Assets/Game/Script/BT/NewGen.cs:398-408 | after a Success at t, a tick less than `cooldown` later fails without ticking the child; from t + cooldown on, the child's result passes |
| TickProperties.FreshCooldownBlocks | Assets/Game/Script/BT/NewGen.cs:400-402 | with no last success stored, the Cooldown fails while `now < cooldown` |
| TickProperties.CooldownForgottenByReset | Assets/Game/Script/BT/NewGen.cs:410-414 | `Reset` erases the last-success time, which then reads as 0 |
| TickProperties.RepeaterPassesRunning | Assets/Game/Script/BT/NewGen.cs:435-438 | a Running child gives Running with the counter untouched |
| TickProperties.RepeaterCompletion | Assets/Game/Script/BT/NewGen.cs:439-451 | a completion increments the counter (wrapping at 32 bits) and resets the child, then either stores the counter and returns Running (negative count, or count not reached) or stores 0 and returns the child's result |
| TickProperties.RepeaterFaults | Assets/Game/Script/BT/NewGen.cs:435-436 | a counter of another type throws before the child is ticked, store untouched; the child's exception is the Repeater's, counter unchanged |
| TickProperties.RepeaterNegativeNeverCompletes | Assets/Game/Script/BT/NewGen.cs:442-446 | a negative repeat count never returns Success or Failure |
| TickProperties.RepeaterCountsCompletions | Assets/Game/Script/BT/NewGen.cs:433-452 | over a child that always completes with st, the completion after j earlier ones returns Running with counter j+1 until j+1 reaches the count, and then returns st with counter 0; from 2^31 − 1 the counter wraps to −2^31 |
| TickProperties.RepeaterThreeTimes | Assets/Game/Script/BT/NewGen.cs:433-452 | count 3 over an always-succeeding child returns Running, Running, then Success, with the counter back at 0 |
| TickProperties.WaitFirstTick | Assets/Game/Script/BT/NewGen.cs:480-485 | a Wait that has not started records `now`, marks itself started, and returns Running unless its duration is at most 0 |
| TickProperties.WaitWhileStarted | Assets/Game/Script/BT/NewGen.cs:487-491 | a started Wait returns Running with the store untouched while less than `duration` has elapsed, and then clears the flag and returns Success |
| TickProperties.WaitFaults | Assets/Game/Script/BT/NewGen.cs:480-488 | a started flag of another type throws with the store untouched, and so does a started Wait whose start time has another type; a Wait that is not started writes its start time before reading it, so it never throws |
| TickProperties.WaitCompletesOnce | Assets/Game/Script/BT/NewGen.cs:478-492 | a fresh Wait runs from t0 and succeeds at t1 iff t1 − t0 ≥ duration; after its Success, the next tick starts a new wait |
| TickProperties.WaitRearmedByReset | Assets/Game/Script/BT/NewGen.cs:494-498 | after `Reset`, the Wait reads as not started and its start time is gone |
| Builder.IsTrue | Assets/Game/Script/BT/NewGen.cs:532 | the `When` callback; `Builder.WhenSucceedsIff` states what its leaf does |
| Builder.IsFalse | Assets/Game/Script/BT/NewGen.cs:540 | the `WhenNot` callback; `Builder.WhenNotSucceedsIff` states what its leaf does |
| Builder.IsEqual | Assets/Game/Script/BT/NewGen.cs:548 | the `WhenEquals` callback; `Builder.WhenEqualsSucceedsIff` states what its leaf does |
| Builder.Assign | Assets/Game/Script/BT/NewGen.cs:604-611 | the `Set` action; `Builder.SetStores` states what its leaf does |
| Builder.Succeeding | Assets/Game/Script/BT/NewGen.cs:584-591 | the `Do` action: run the effect, then Success; an exception from the effect becomes the leaf's Failure by `TickProperties.ActionPassesResult` |
| Builder.AddItem | Assets/Game/Script/BT/NewGen.cs:682-691 | the `AddToList` action; `Builder.AddToListAppends` states what its leaf does |
| Builder.RemoveItem | Assets/Game/Script/BT/NewGen.cs:696-708 | the `RemoveFromList` action; `Builder.RemoveFromListRemovesOne` states what its leaf does |
| Builder.FirstIndex | Assets/Game/Script/BT/NewGen.cs:703 | the position `List.Remove` removes at: an occurrence of x with none before it |
| Builder.RemoveFirst | Assets/Game/Script/BT/NewGen.cs:703 | `List.Remove` drops one occurrence of x when there is one: the multiset loses one x and the length drops by one, and the list is unchanged when x is absent |
| Builder.RemoveFirstCutsFirst | Assets/Game/Script/BT/NewGen.cs:703 | `List.Remove` removes the first occurrence of x and keeps the others in order |
| Builder.WhenSucceedsIff | Assets/Game/Script/BT/NewGen.cs:530-533 | a `When(key)` leaf succeeds iff the key holds true; absent, false or mistyped, it fails |
| Builder.WhenNotSucceedsIff | Assets/Game/Script/BT/NewGen.cs:538-541 | a `WhenNot(key)` leaf succeeds iff the key is absent or holds false |
| Builder.WhenEqualsSucceedsIff | Assets/Game/Script/BT/NewGen.cs:546-549 | a `WhenEquals(key, v)` leaf succeeds iff the key holds v, or is absent and v is its type's default |
| Builder.SetStores | Assets/Game/Script/BT/NewGen.cs:604-627 | a `Set`/`SetTrue`/`SetFalse` leaf succeeds, and the key then reads back as the value |
| Builder.AddToListAppends | Assets/Game/Script/BT/NewGen.cs:682-691 | an `AddToList` leaf appends the item to the stored list of the item's type, or to a new one when absent; a key holding anything else, a list of another element type included, makes it fail with the store untouched |
| Builder.RemoveFromListRemovesOne | Assets/Game/Script/BT/NewGen.cs:696-708 | a `RemoveFromList` leaf fails with the store untouched on a key holding anything but a list of the item's type; otherwise it succeeds, leaves the store as it was when the key is absent, and else stores the list with `List.Remove` applied (unchanged when the item is absent) |
| Builder.TypeName | Assets/Game/Script/BT/NewGen.cs:770 | `GetType().Name` of each node class; `Builder.TypeNameContains` states which names contain "Selector" and "Parallel" |
| Builder.TypeNameContains | Assets/Game/Script/BT/NewGen.cs:770-784 | only a SelectorNode's type name contains "Selector", and only a ParallelNode's contains "Parallel" |
| Builder.CompositeFor | Assets/Game/Script/BT/NewGen.cs:764-797 | the composite `End()` creates below the top of the stack; `Builder.CompositeIsSequence` states that it is a SequenceNode over the children |
| Builder.RootFor | Assets/Game/Script/BT/NewGen.cs:798-809 | the root `End()` sets: the lone child, or a SequenceNode over the children; `Builder.BehaviorTreeBuilder.End` states it |
| Builder.CompositeIsSequence | Assets/Game/Script/BT/NewGen.cs:764-797 | unless the parent list already ends in a Selector or Parallel, `End()` builds a SequenceNode over exactly the collected children |
| Builder.BehaviorTreeBuilder.constructor | Assets/Game/Script/BT/NewGen.cs:519-523 | one empty list, both on the stack and current; no root |
| Builder.BehaviorTreeBuilder.Build | Assets/Game/Script/BT/NewGen.cs:860-863 | null iff no root `End()` has run; every built tree consists of sequences, leaves and decorators only |
| Builder.BehaviorTreeBuilder.Condition | Assets/Game/Script/BT/NewGen.cs:570-575 | appends exactly one condition node, or throws on null and appends nothing |
| Builder.BehaviorTreeBuilder.Action | Assets/Game/Script/BT/NewGen.cs:596-599 | `Action`/`Do(Func)` append exactly one action node, or throw on null and append nothing |
| Builder.BehaviorTreeBuilder.When | Assets/Game/Script/BT/NewGen.cs:530-533 | appends one condition reading the key as bool |
| Builder.BehaviorTreeBuilder.WhenNot | Assets/Game/Script/BT/NewGen.cs:538-541 | appends one condition negating the key's bool |
| Builder.BehaviorTreeBuilder.WhenEquals | Assets/Game/Script/BT/NewGen.cs:546-549 | appends one condition comparing the key's value with v |
| Builder.BehaviorTreeBuilder.Do | Assets/Game/Script/BT/NewGen.cs:584-591 | appends one action that runs the effect and then succeeds |
| Builder.BehaviorTreeBuilder.Set | Assets/Game/Script/BT/NewGen.cs:604-611 | appends one action that writes the value and succeeds |
| Builder.BehaviorTreeBuilder.SetTrue | Assets/Game/Script/BT/NewGen.cs:616-619 | `Set(key, true)` |
| Builder.BehaviorTreeBuilder.SetFalse | Assets/Game/Script/BT/NewGen.cs:624-627 | `Set(key, false)` |
| Builder.BehaviorTreeBuilder.AddToList | Assets/Game/Script/BT/NewGen.cs:682-691 | appends one action that appends to the stored list |
| Builder.BehaviorTreeBuilder.RemoveFromList | Assets/Game/Script/BT/NewGen.cs:696-708 | appends one action that removes from the stored list |
| Builder.BehaviorTreeBuilder.Sequence | Assets/Game/Script/BT/NewGen.cs:727-732 | pushes the current list and starts an empty one; the depth grows by one |
| Builder.BehaviorTreeBuilder.Selector | Assets/Game/Script/BT/NewGen.cs:737-742 | the same push as `Sequence()` |
| Builder.BehaviorTreeBuilder.Parallel | Assets/Game/Script/BT/NewGen.cs:747-752 | the same push as `Sequence()`; the success count is unused |
| Builder.BehaviorTreeBuilder.End | Assets/Game/Script/BT/NewGen.cs:757-812 | pops into the current list; below the top, appends a SequenceNode over the children; at the bottom, sets the root to a lone child or a SequenceNode over the children; on an empty stack, throws with nothing changed |
| Builder.BehaviorTreeBuilder.Wait | Assets/Game/Script/BT/NewGen.cs:821-825 | appends exactly one WaitNode |
| Builder.BehaviorTreeBuilder.Cooldown | Assets/Game/Script/BT/NewGen.cs:830-839 | replaces the last node by a Cooldown wrapping it, keeping the length; an empty list is left as it is |
| Builder.BehaviorTreeBuilder.Repeat | Assets/Game/Script/BT/NewGen.cs:844-853 | replaces the last node by a Repeater wrapping it, keeping the length; an empty list is left as it is |
| Builder.BuildGuardedMove | Assets/Game/Script/BT/NewGen.cs:757-863 | `Sequence().When().Action().End()` leaves `Build()` null; one more `End()` makes that sequence itself the root |
| Builder.GuardedMoveSkipsMove | Assets/Game/Script/BT/NewGen.cs:236-252 | while the guard key is false, that tree fails with a reset, and the outcome does not depend on the move action |
| Runtime.BehaviorTreeRunner.constructor | Assets/Game/Script/BT/NewGen.cs:898-906 | a new runner holds its root and blackboard and is stopped |
| Runtime.BehaviorTreeRunner.Create | Assets/Game/Script/BT/NewGen.cs:902-906 | construction fails iff the root or the blackboard is null |
| Runtime.BehaviorTreeRunner.Start | Assets/Game/Script/BT/NewGen.cs:911-914 | the runner is running |
| Runtime.BehaviorTreeRunner.Stop | Assets/Game/Script/BT/NewGen.cs:919-923 | clears the flag and resets the whole tree on the blackboard |
| Runtime.BehaviorTreeRunner.Tick | Assets/Game/Script/BT/NewGen.cs:928-934 | stopped: Failure with the blackboard untouched; running: exactly one tick of the root |
| Runtime.BehaviorTreeRunner.IsRunning | Assets/Game/Script/BT/NewGen.cs:939 | reads the running flag; `Start`, `Stop` and the constructor state what it then returns |
| Runtime.StopTwice | Assets/Game/Script/BT/NewGen.cs:919-923 | stopping twice leaves the blackboard as stopping once |
| Health.CharacterBody.constructor | Assets/Game/Script/CharacterBody.cs:10-11 | a body with each delegate subscribed or null, and no invocation yet |
| Health.HealthAfter | Assets/Game/Script/HeathSystem.cs:16-20 | health after a hit is never negative: exactly health − damage when that is positive, and otherwise 0 |
| Health.HitEvents | Assets/Game/Script/HeathSystem.cs:17-21 | TakeDamageAction fires on every hit and first; Death fires after it iff the lowered health is ≤ 0 |
| Health.DeadBodyDiesAgain | Assets/Game/Script/HeathSystem.cs:18-22 | at 0 health, every further non-negative hit fires Death again and leaves 0 |
| Health.HitNeverHeals | Assets/Game/Script/HeathSystem.cs:16-20 | a non-negative hit never raises health |
| Health.HeathSystem.constructor | Assets/Game/Script/HeathSystem.cs:5-7 | no body yet; the given health values |
| Health.HeathSystem.Setup | Assets/Game/Script/HeathSystem.cs:9-12 | sets the body and changes no health value |
| Health.HeathSystem.TakeDamage | Assets/Game/Script/HeathSystem.cs:14-23 | lowers health by the damage, then clamps it at 0 and fires the events in order; a missing body or a null delegate throws NullReferenceException at the point of invocation; MaxHealth and the body reference never change |
| Health.Hit | Assets/Game/Script/HeathSystem.cs:14-23 | with both delegates subscribed, a hit never throws, leaves health ≥ 0 (exactly health − damage when positive) and fires `HitEvents` |
| Int32s.Wrap | Assets/Game/Script/Inventory.cs:11 | the 32-bit result is congruent to the exact one mod 2^32, and equal to it when it fits (also the Repeater's `current++` at NewGen.cs:441) |
| Inventories.Inventory.constructor | Assets/Game/Script/Inventory.cs:6 | money starts at 0 with no subscriber |
| Inventories.Inventory.SetMoneyChanged | Assets/Game/Script/Inventory.cs:7 | subscribing or clearing `MoneyChanged` changes nothing else, and in particular not money |
| Inventories.Inventory.AddMoney | Assets/Game/Script/Inventory.cs:9-14 | money becomes old + amount (wrapped at 32 bits; exact when it fits, so a negative amount lowers it); `MoneyChanged` fires once, after the update, iff it has subscribers |
| Inventories.WrapAddAssociates | Assets/Game/Script/Inventory.cs:11 | adding a and then b gives what adding a + b at once gives |
| Int32s.WrapCongruent | Assets/Game/Script/Inventory.cs:11 | sums equal mod 2^32 wrap to the same money |

## Left out

- `Debug.Log`, `Debug.LogError` and the `Log`/`LogValue` builder steps: output only.
- The builder's `Increment`, `Decrement`, `WhenGreaterThan` and `WhenLessThan`: their float arithmetic and comparisons are not modelled.
- GUID generation: node ids are parameters of the builder methods. Where two ids must differ, the lemmas state it as a precondition; it is not derived.
- The static key cache: it returns a string equal to its argument, so keys are used as given.
- The builder's `_blackboard` field, `WithBlackboard` and `BehaviorTree.Create`: the builder never reads that blackboard, and `Create` only calls the constructor.
- Float rounding: `float` times, durations and health are `real`.
- Stored values are immutable: a list read from the blackboard is a copy, so mutating it in place after the read, or aliasing it between keys, is not captured. Null values written with `Set` are not modelled either.
- Delegate handlers: `CharacterBody`'s handlers and the `MoneyChanged` subscribers are outside the model; each invocation is recorded as an event.
- `Inventory.money` has a private setter: the model's field is public, but only `AddMoney` assigns it.
- The `_current` field of Sequence and Selector is reloaded from the blackboard at the start of every tick, so it is not modelled as node state.
- Blackboards.Blackboard.Get: requires the stored value to fit the type. Mistyped reads, which throw `InvalidCastException`, are modelled in `Stores.Read` and in the node semantics instead.
- Blackboards.BlackboardValue.Set: requires a value of the view's type. C# enforces this statically.
- Builder.BehaviorTreeBuilder.WhenEquals: requires a non-list value, as `where T : IEquatable<T>` does.
- Nodes.Repeater: the repeat count is an unbounded `int` where C# has a 32-bit one; counts beyond the 32-bit range are not excluded.
- Stores.ClearPrefix: the prefix test is ordinal (character by character). C#'s `StartsWith(string)` at `NewGen.cs:93` compares with the current culture, which skips ignorable characters such as a soft hyphen (U+00AD); that matching is not modelled. Node prefixes are GUIDs plus `_`, so it matters only for other keys, such as a key beginning with an ignorable character that `ClearPrefix(id + "_")` would also remove in C#.
- Blackboards.Blackboard.ClearPrefix: proved equal to `Stores.ClearPrefix`, so it has the same ordinal prefix test.
- Nodes.Reset: ends in `Stores.ClearPrefix`, so `ResetProperties.ResetKeepsOthers` holds for the ordinal test; a key that differs from a node's namespace only by ignorable characters is kept by the model and removed in C#.
- Stores.IntV: a stored int is unbounded, so a callback can store values no C# `int` holds; the nodes only ever store 32-bit values.
