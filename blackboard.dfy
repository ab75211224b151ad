/** The `Blackboard` class: one dictionary, updated in place, shared by all
    nodes of a tree; and `BlackboardValue`, a typed view of one key.
    The static key cache of the source returns a string equal to its
    argument, so keys are used as given. */
module Blackboards {
  import opened Stores

  class Blackboard {
    var data: Store

    constructor ()
      ensures data == map[]
    {
      data := map[];
    }

    method Set(key: string, v: Value)
      modifies this
      ensures data == Stores.Set(old(data), key, v)
    {
      data := data[key := v];
    }

    /** `Get<T>`: requires that the cast to T cannot throw. */
    function Get(key: string, kind: Kind): (r: Option<Value>)
      reads this
      requires Fits(data, key, kind)
      ensures r.Some? ==> KindOf(r.value) == kind
      ensures key in data ==> r == Some(data[key])
      ensures key !in data ==> r == Default(kind)
    {
      Stores.Get(data, key, kind)
    }

    function Has(key: string): bool
      reads this
    {
      key in data
    }

    method Remove(key: string)
      modifies this
      ensures data == Stores.Remove(old(data), key)
    {
      data := data - {key};
    }

    /** Collects the matching keys first, then deletes them one by one,
        so that the dictionary is not changed while it is enumerated. */
    method ClearPrefix(prefix: string)
      modifies this
      ensures data == Stores.ClearPrefix(old(data), prefix)
    {
      var keysToRemove: seq<string> := [];
      var unseen := data.Keys;
      while unseen != {}
        invariant unseen <= data.Keys
        invariant data == old(data)
        invariant forall k :: k in keysToRemove <==>
                    k in data.Keys - unseen && StartsWith(k, prefix)
        decreases unseen
      {
        var k :| k in unseen;
        if StartsWith(k, prefix) {
          keysToRemove := keysToRemove + [k];
        }
        unseen := unseen - {k};
      }
      var i := 0;
      while i < |keysToRemove|
        invariant 0 <= i <= |keysToRemove|
        invariant data == old(data) - set j | 0 <= j < i :: keysToRemove[j]
      {
        data := data - {keysToRemove[i]};
        i := i + 1;
      }
      assert forall k :: k in keysToRemove <==> k in set j | 0 <= j < i :: keysToRemove[j];
    }

    /** `Ref<T>(key)`: a fresh typed view of `key`. */
    method Ref(key: string, kind: Kind) returns (r: BlackboardValue)
      ensures fresh(r) && r.board == this && r.key == key && r.kind == kind
    {
      r := new BlackboardValue(this, key, kind);
    }

    method Clear()
      modifies this
      ensures data == Stores.Clear(old(data))
    {
      data := map[];
    }
  }

  /** `BlackboardValue<T>`: reads and writes one key of one blackboard at
      the type `T` (here `kind`). */
  class BlackboardValue {
    const board: Blackboard
    const key: string
    const kind: Kind

    constructor (board: Blackboard, key: string, kind: Kind)
      ensures this.board == board && this.key == key && this.kind == kind
    {
      this.board := board;
      this.key := key;
      this.kind := kind;
    }

    /** `Value` (and the implicit conversion to T): `Get<T>(key)`. */
    function Value(): (r: Option<Value>)
      reads board
      requires Fits(board.data, key, kind)
      ensures r.Some? ==> KindOf(r.value) == kind
    {
      board.Get(key, kind)
    }

    /** `Set(value)`: writes through to the blackboard; afterwards `Value()`
        reads back what was written. */
    method Set(v: Value)
      requires KindOf(v) == kind
      modifies board
      ensures board.data == Stores.Set(old(board.data), key, v)
      ensures Fits(board.data, key, kind) && Value() == Some(v)
    {
      board.Set(key, v);
    }
  }
}
