/** What `Reset` does to the store, stated once for every node kind:
    it removes exactly the keys in the namespaces of the subtree's ids,
    whatever the node wrote on the way. */
module ResetProperties {
  import opened Stores
  import opened Nodes

  /** The characters of `key` before its first '_'. */
  function Owner(key: string): string
  {
    if |key| == 0 || key[0] == '_' then [] else [key[0]] + Owner(key[1..])
  }

  /** A key in the namespace of `id` has `id` as its owner: ids have no
      '_', so the first '_' of the key ends the id. */
  lemma {:induction false} OwnerOfNamespacedKey(key: string, id: NodeId)
    ensures InNamespace(key, id) ==> Owner(key) == id
    decreases |id|
  {
    if InNamespace(key, id) {
      assert key[..|id| + 1] == id + "_";
      if |id| == 0 {
        assert key[0] == '_';
      } else {
        assert key[0] == id[0];
        var rest: NodeId := id[1..];
        assert key[1..][..|rest| + 1] == rest + "_";
        OwnerOfNamespacedKey(key[1..], rest);
        assert id == [id[0]] + rest;
      }
    }
  }

  /** Two different ids have disjoint namespaces. */
  lemma NamespacesDisjoint(a: NodeId, b: NodeId, key: string)
    requires a != b
    ensures !(InNamespace(key, a) && InNamespace(key, b))
  {
    OwnerOfNamespacedKey(key, a);
    OwnerOfNamespacedKey(key, b);
  }

  /** Every private key of a node lies in that node's namespace. */
  lemma PrivateKeysInNamespace(id: NodeId)
    ensures InNamespace(CurrentKey(id), id) && InNamespace(LastKey(id), id)
    ensures InNamespace(CountKey(id), id) && InNamespace(StartKey(id), id)
    ensures InNamespace(StartedKey(id), id)
  {
    assert CurrentKey(id)[..|id| + 1] == Prefix(id);
    assert LastKey(id)[..|id| + 1] == Prefix(id);
    assert CountKey(id)[..|id| + 1] == Prefix(id);
    assert StartKey(id)[..|id| + 1] == Prefix(id);
    assert StartedKey(id)[..|id| + 1] == Prefix(id);
  }

  lemma ClearPrefixIsScrub(s: Store, id: NodeId)
    ensures ClearPrefix(s, Prefix(id)) == Scrub(s, {id})
  {
    forall k | k in s
      ensures StartsWith(k, Prefix(id)) <==> Owned(k, {id})
    {
      if StartsWith(k, Prefix(id)) {
        assert id in {id} && InNamespace(k, id);
      }
    }
  }

  lemma ScrubTwice(s: Store, a: set<NodeId>, b: set<NodeId>)
    ensures Scrub(Scrub(s, a), b) == Scrub(s, a + b)
  {
    forall k
      ensures Owned(k, a + b) <==> Owned(k, a) || Owned(k, b)
    {
      if Owned(k, a + b) {
        var id :| id in a + b && InNamespace(k, id);
        if id in a { assert Owned(k, a); } else { assert Owned(k, b); }
      }
    }
  }

  /** A write to a key that is about to be scrubbed leaves no trace. */
  lemma ScrubAfterSet(s: Store, key: string, v: Value, id: NodeId, ids: set<NodeId>)
    requires id in ids && InNamespace(key, id)
    ensures Scrub(Set(s, key, v), ids) == Scrub(s, ids)
  {
    assert Owned(key, ids);
  }

  /** The reset theorem: `Reset` removes exactly the keys in the namespaces
      of the subtree's nodes, and changes nothing else. */
  lemma {:induction false} ResetScrubs(n: Node, s: Store)
    ensures Reset(n, s) == Scrub(s, Ids(n))
    decreases n, 1, 0
  {
    PrivateKeysInNamespace(n.id);
    match n
    case Condition(id, _) =>
      ClearPrefixIsScrub(s, id);
    case Action(id, _) =>
      ClearPrefixIsScrub(s, id);
    case Sequence(id, cs) =>
      var s0 := Set(s, CurrentKey(id), IntV(0));
      ResetChildrenScrub(n, |cs|, s0);
      ClearPrefixIsScrub(ResetChildren(n, |cs|, s0), id);
      ScrubTwice(s0, ChildIds(n, |cs|), {id});
      ScrubAfterSet(s, CurrentKey(id), IntV(0), id, ChildIds(n, |cs|) + {id});
      assert ChildIds(n, |cs|) + {id} == Ids(n);
    case Selector(id, cs) =>
      var s0 := Set(s, CurrentKey(id), IntV(0));
      ResetChildrenScrub(n, |cs|, s0);
      ClearPrefixIsScrub(ResetChildren(n, |cs|, s0), id);
      ScrubTwice(s0, ChildIds(n, |cs|), {id});
      ScrubAfterSet(s, CurrentKey(id), IntV(0), id, ChildIds(n, |cs|) + {id});
      assert ChildIds(n, |cs|) + {id} == Ids(n);
    case Parallel(id, _, cs) =>
      ResetChildrenScrub(n, |cs|, s);
      ClearPrefixIsScrub(ResetChildren(n, |cs|, s), id);
      ScrubTwice(s, ChildIds(n, |cs|), {id});
      assert ChildIds(n, |cs|) + {id} == Ids(n);
    case Cooldown(id, child, _) =>
      ResetScrubs(child, s);
      ClearPrefixIsScrub(Reset(child, s), id);
      ScrubTwice(s, Ids(child), {id});
      assert Ids(child) + {id} == Ids(n);
    case Repeater(id, child, _) =>
      var s0 := Set(s, CountKey(id), IntV(0));
      ResetScrubs(child, s0);
      ClearPrefixIsScrub(Reset(child, s0), id);
      ScrubTwice(s0, Ids(child), {id});
      ScrubAfterSet(s, CountKey(id), IntV(0), id, Ids(child) + {id});
      assert Ids(child) + {id} == Ids(n);
    case Wait(id, _) =>
      ClearPrefixIsScrub(Set(s, StartedKey(id), BoolV(false)), id);
      ScrubAfterSet(s, StartedKey(id), BoolV(false), id, {id});
  }

  lemma {:induction false} ResetChildrenScrub(n: Node, i: nat, s: Store)
    requires IsComposite(n) && i <= |n.children|
    ensures ResetChildren(n, i, s) == Scrub(s, ChildIds(n, i))
    decreases n, 0, i
  {
    if i == 0 {
      assert Scrub(s, {}) == s;
    } else {
      ResetChildrenScrub(n, i - 1, s);
      ResetScrubs(n.children[i - 1], ResetChildren(n, i - 1, s));
      ScrubTwice(s, ChildIds(n, i - 1), Ids(n.children[i - 1]));
    }
  }

  /** Calling `Reset` twice leaves the same store as calling it once. */
  lemma ResetIdempotent(n: Node, s: Store)
    ensures Reset(n, Reset(n, s)) == Reset(n, s)
  {
    ResetScrubs(n, s);
    ResetScrubs(n, Reset(n, s));
    ScrubTwice(s, Ids(n), Ids(n));
    assert Ids(n) + Ids(n) == Ids(n);
  }

  /** No key of the node's own namespace survives a reset, not even the
      cursor, counter or flag the reset has just written. */
  lemma ResetClearsNamespace(n: Node, s: Store, key: string)
    requires InNamespace(key, n.id)
    ensures key !in Reset(n, s)
  {
    ResetScrubs(n, s);
    assert n.id in Ids(n) by { match n case _ => {} }
  }

  /** A reset leaves every key of a node outside the subtree as it was. */
  lemma ResetKeepsOthers(n: Node, s: Store, other: NodeId, key: string)
    requires other !in Ids(n) && InNamespace(key, other)
    ensures key in Reset(n, s) <==> key in s
    ensures key in s ==> Reset(n, s)[key] == s[key]
  {
    ResetScrubs(n, s);
    forall id | id in Ids(n)
      ensures !InNamespace(key, id)
    {
      NamespacesDisjoint(id, other, key);
    }
  }
}
