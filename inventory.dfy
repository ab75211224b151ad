/** `Inventory`: a money counter with a change event. `money` is a C#
    `int`, so `money += amount` wraps around at 32 bits (unchecked
    arithmetic). */
module Inventories {

  import opened Int32s

  class Inventory {
    var money: int32
    /** `MoneyChanged != null`. */
    var hasSubscribers: bool
    /** The value of `money` seen by each invocation of `MoneyChanged`. */
    var notifications: seq<int32>

    /** A new inventory holds no money. */
    constructor ()
      ensures money == 0 && !hasSubscribers && notifications == []
    {
      money := 0;
      hasSubscribers := false;
      notifications := [];
    }

    /** `MoneyChanged` is a public field: subscribing or clearing it
        touches nothing else. */
    method SetMoneyChanged(subscribed: bool)
      modifies this`hasSubscribers
      ensures hasSubscribers == subscribed
    {
      hasSubscribers := subscribed;
    }

    /** `AddMoney(amount)`: no validation, so a negative amount lowers the
        balance; `MoneyChanged?.Invoke()` then fires once, after the
        update, when it has subscribers. */
    method AddMoney(amount: int32)
      modifies this`money, this`notifications
      ensures money == Wrap(old(money) as int + amount as int)
      ensures MinInt32 <= old(money) as int + amount as int < -MinInt32 ==>
        money as int == old(money) as int + amount as int
      ensures notifications == old(notifications) + if hasSubscribers then [money] else []
    {
      money := Wrap(money as int + amount as int);
      if hasSubscribers {
        notifications := notifications + [money];
      }
    }
  }

  /** Adding `a` and then `b` is adding their sum, modulo 2^32. */
  lemma {:induction false} WrapAddAssociates(m: int32, a: int32, b: int32)
    ensures Wrap(Wrap(m as int + a as int) as int + b as int) == Wrap(m as int + a as int + b as int)
  {
    var x := m as int + a as int;
    var y := Wrap(x) as int;
    assert (y - x) % Two32 == 0;
    WrapCongruent(y + b as int, x + b as int);
  }
}
