/** The value model of the blackboard: a finite map from string keys to
    tagged values, and the store operations as functions on such maps.
    The `Blackboard` class (module Blackboards) updates a field of type
    `Store` in place and is specified by these functions. */
module Stores {

  datatype Option<T> = None | Some(value: T)

  /** The boxed objects the tree and its builder helpers put in the store.
      A list carries its element type: `List<int>` and `List<string>` are
      different types, and a cast from one to the other throws. */
  datatype Value =
    | BoolV(b: bool)
    | IntV(i: int)
    | FloatV(f: real)
    | StrV(str: string)
    | ListV(elem: Kind, items: seq<Value>)

  /** The type argument `T` of `Get<T>`; `ListK(t)` is `List<t>`, so two
      list kinds are equal only when their element kinds are. */
  datatype Kind = BoolK | IntK | FloatK | StrK | ListK(elem: Kind)
  {
    /** bool, int and float are value types; string and List<T> are references. */
    predicate IsValueType() { this == BoolK || this == IntK || this == FloatK }
  }

  function KindOf(v: Value): Kind
  {
    match v
    case BoolV(_) => BoolK
    case IntV(_) => IntK
    case FloatV(_) => FloatK
    case StrV(_) => StrK
    case ListV(elem, _) => ListK(elem)
  }

  /** `default(T)`; `None` stands for the null reference. */
  function Default(kind: Kind): (r: Option<Value>)
    ensures r.Some? <==> kind.IsValueType()
    ensures r.Some? ==> KindOf(r.value) == kind
  {
    match kind
    case BoolK => Some(BoolV(false))
    case IntK => Some(IntV(0))
    case FloatK => Some(FloatV(0.0))
    case StrK => None
    case ListK(_) => None
  }

  type Store = map<string, Value>

  /** The cast `(T)val` in `Get<T>` succeeds: the key is absent or holds a `T`. */
  predicate Fits(s: Store, key: string, kind: Kind)
  {
    key !in s || KindOf(s[key]) == kind
  }

  /** An ordinal prefix test, character by character; C#'s culture-aware
      `StartsWith(string)`, which skips ignorable characters, is not
      modelled. */
  predicate StartsWith(k: string, prefix: string)
  {
    |prefix| <= |k| && k[..|prefix|] == prefix
  }

  /** `Set<T>(key, value)`: the dictionary indexer overwrites. */
  function Set(s: Store, key: string, v: Value): Store
  {
    s[key := v]
  }

  /** `Get<T>(key)`: the stored value, or `default(T)` for an absent key. */
  function Get(s: Store, key: string, kind: Kind): (r: Option<Value>)
    requires Fits(s, key, kind)
    ensures r.Some? ==> KindOf(r.value) == kind
    ensures key in s ==> r == Some(s[key])
    ensures key !in s ==> r == Default(kind)
  {
    if key in s then Some(s[key]) else Default(kind)
  }

  predicate Has(s: Store, key: string)
  {
    key in s
  }

  function Remove(s: Store, key: string): Store
  {
    s - {key}
  }

  /** `ClearPrefix(prefix)`: drop every entry whose key starts with `prefix`. */
  function ClearPrefix(s: Store, prefix: string): (r: Store)
    ensures forall k :: k in r <==> k in s && !StartsWith(k, prefix)
    ensures forall k :: k in r ==> r[k] == s[k]
  {
    map k | k in s && !StartsWith(k, prefix) :: s[k]
  }

  function Clear(s: Store): (r: Store)
    ensures |r| == 0
  {
    map[]
  }

  /** The result of an unchecked cast `(T)val`: the value, or the
      InvalidCastException the cast throws. */
  datatype Cast<T> = Cast(value: T) | InvalidCast

  /** `Get<T>` where the store's content is not known to fit `T`. */
  function Read(s: Store, key: string, kind: Kind): (r: Cast<Option<Value>>)
    ensures r.InvalidCast? <==> !Fits(s, key, kind)
    ensures r.Cast? ==> r.value == Get(s, key, kind)
  {
    if Fits(s, key, kind) then Cast(Get(s, key, kind)) else InvalidCast
  }

  /** `Get<int>` as the nodes use it: 0 when absent. */
  function ReadInt(s: Store, key: string): (r: Cast<int>)
    ensures r.InvalidCast? <==> !Fits(s, key, IntK)
    ensures r.Cast? && key in s ==> s[key] == IntV(r.value)
    ensures r.Cast? && key !in s ==> r.value == 0
  {
    if !Fits(s, key, IntK) then InvalidCast
    else if key in s then Cast(s[key].i) else Cast(0)
  }

  /** `Get<float>`: 0.0 when absent. */
  function ReadFloat(s: Store, key: string): (r: Cast<real>)
    ensures r.InvalidCast? <==> !Fits(s, key, FloatK)
    ensures r.Cast? && key in s ==> s[key] == FloatV(r.value)
    ensures r.Cast? && key !in s ==> r.value == 0.0
  {
    if !Fits(s, key, FloatK) then InvalidCast
    else if key in s then Cast(s[key].f) else Cast(0.0)
  }

  /** `Get<bool>`: false when absent. */
  function ReadBool(s: Store, key: string): (r: Cast<bool>)
    ensures r.InvalidCast? <==> !Fits(s, key, BoolK)
    ensures r.Cast? && key in s ==> s[key] == BoolV(r.value)
    ensures r.Cast? && key !in s ==> !r.value
  {
    if !Fits(s, key, BoolK) then InvalidCast
    else if key in s then Cast(s[key].b) else Cast(false)
  }

  // ---------------------------------------------------------------------
  // Properties of the store operations
  // ---------------------------------------------------------------------

  /** After `Set(k, v)`, `Has(k)` holds and `Get(k)` at v's kind returns v;
      every other key reads as before. */
  lemma GetAfterSet(s: Store, key: string, v: Value, other: string, kind: Kind)
    ensures Has(Set(s, key, v), key)
    ensures Fits(Set(s, key, v), key, KindOf(v))
    ensures Get(Set(s, key, v), key, KindOf(v)) == Some(v)
    ensures other != key ==> (Has(Set(s, key, v), other) <==> Has(s, other))
    ensures other != key && Fits(s, other, kind) ==>
              Fits(Set(s, key, v), other, kind) && Get(Set(s, key, v), other, kind) == Get(s, other, kind)
  {
  }

  /** `Get` of an absent key returns the type default (null for references). */
  lemma GetAbsent(s: Store, key: string, kind: Kind)
    requires !Has(s, key)
    ensures Fits(s, key, kind) && Get(s, key, kind) == Default(kind)
  {
  }

  /** `Remove(k)` deletes exactly k. */
  lemma RemoveExact(s: Store, key: string)
    ensures Remove(s, key).Keys == s.Keys - {key}
    ensures forall k :: k in Remove(s, key) ==> Remove(s, key)[k] == s[k]
  {
  }

  /** Clearing a prefix twice is clearing it once. */
  lemma ClearPrefixIdempotent(s: Store, prefix: string)
    ensures ClearPrefix(ClearPrefix(s, prefix), prefix) == ClearPrefix(s, prefix)
  {
  }

  /** `Clear` leaves no key. */
  lemma ClearEmpties(s: Store, key: string)
    ensures !Has(Clear(s), key)
  {
  }
}
