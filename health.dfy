/** `HeathSystem.TakeDamage` and the two delegates of the `CharacterBody`
    it reports to. Health is a `real` (the source's `float` rounding is not
    modelled). A delegate invocation is recorded as an event on the body;
    what the subscribed handlers then do is outside the model. */
module Health {

  /** `DamageInfo`: only the amount is read here. */
  datatype DamageInfo = DamageInfo(damage: real)

  datatype BodyEvent = TookDamage(info: DamageInfo) | Died(info: DamageInfo)

  /** The delegates `TakeDamageAction` and `Death` of a `CharacterBody`:
      whether each has a subscriber (a null delegate has none), and the
      invocations so far, in order. */
  class CharacterBody {
    var takeDamageSubscribed: bool
    var deathSubscribed: bool
    var events: seq<BodyEvent>

    constructor (takeDamageSubscribed: bool, deathSubscribed: bool)
      ensures this.takeDamageSubscribed == takeDamageSubscribed
      ensures this.deathSubscribed == deathSubscribed
      ensures events == []
    {
      this.takeDamageSubscribed := takeDamageSubscribed;
      this.deathSubscribed := deathSubscribed;
      events := [];
    }
  }

  /** Health after a hit of `damage` from `health`: the difference, or 0
      when that is not positive. */
  function HealthAfter(health: real, damage: real): (r: real)
    ensures r >= 0.0
    ensures health - damage > 0.0 ==> r == health - damage
    ensures health - damage <= 0.0 ==> r == 0.0
  {
    if health - damage <= 0.0 then 0.0 else health - damage
  }

  /** The hit reaches the death branch. */
  predicate Dies(health: real, damage: real)
  {
    health - damage <= 0.0
  }

  /** The invocations one hit makes: TakeDamageAction always, then Death
      when the hit is lethal, both with the same `DamageInfo`. */
  function HitEvents(health: real, d: DamageInfo): (r: seq<BodyEvent>)
    ensures |r| >= 1 && r[0] == TookDamage(d)
    ensures |r| == 2 <==> Dies(health, d.damage)
    ensures |r| == 2 ==> r[1] == Died(d)
  {
    [TookDamage(d)] + if Dies(health, d.damage) then [Died(d)] else []
  }

  /** A body at 0 health dies again on every further hit of non-negative
      damage, and stays at 0: nothing guards the death branch. */
  lemma DeadBodyDiesAgain(damage: real)
    requires damage >= 0.0
    ensures Dies(0.0, damage) && HealthAfter(0.0, damage) == 0.0
  {
  }

  /** Health never goes up from a hit of non-negative damage. */
  lemma HitNeverHeals(health: real, damage: real)
    requires health >= 0.0 && damage >= 0.0
    ensures HealthAfter(health, damage) <= health
  {
  }

  class HeathSystem {
    var characterBody: CharacterBody?
    var maxHealth: real
    var currentHealth: real

    constructor (maxHealth: real, currentHealth: real)
      ensures characterBody == null
      ensures this.maxHealth == maxHealth && this.currentHealth == currentHealth
    {
      characterBody := null;
      this.maxHealth := maxHealth;
      this.currentHealth := currentHealth;
    }

    method Setup(body: CharacterBody?)
      modifies this
      ensures characterBody == body
      ensures maxHealth == old(maxHealth) && currentHealth == old(currentHealth)
    {
      characterBody := body;
    }

    /** `TakeDamage(d)`. Health is lowered first; a missing body or an
        unsubscribed `TakeDamageAction` then throws NullReferenceException
        with health already lowered and nothing recorded. Otherwise health
        becomes `HealthAfter`, and the events are `HitEvents`, except that
        an unsubscribed `Death` throws at the death branch, after health
        was set to 0. `thrown` says whether an exception left the method. */
    method TakeDamage(d: DamageInfo) returns (thrown: bool)
      modifies this, characterBody
      ensures characterBody == old(characterBody) && maxHealth == old(maxHealth)
      ensures characterBody == null || !characterBody.takeDamageSubscribed ==>
        thrown && currentHealth == old(currentHealth) - d.damage
      ensures characterBody != null ==>
        characterBody.takeDamageSubscribed == old(characterBody.takeDamageSubscribed) &&
        characterBody.deathSubscribed == old(characterBody.deathSubscribed)
      ensures characterBody != null && !characterBody.takeDamageSubscribed ==>
        characterBody.events == old(characterBody.events)
      ensures characterBody != null && characterBody.takeDamageSubscribed ==>
        currentHealth == HealthAfter(old(currentHealth), d.damage) &&
        thrown == (Dies(old(currentHealth), d.damage) && !characterBody.deathSubscribed) &&
        characterBody.events == old(characterBody.events) +
          if thrown then [TookDamage(d)] else HitEvents(old(currentHealth), d)
    {
      currentHealth := currentHealth - d.damage;
      if characterBody == null || !characterBody.takeDamageSubscribed {
        return true;
      }
      characterBody.events := characterBody.events + [TookDamage(d)];
      if currentHealth <= 0.0 {
        currentHealth := 0.0;
        if !characterBody.deathSubscribed {
          return true;
        }
        characterBody.events := characterBody.events + [Died(d)];
      }
      thrown := false;
    }
  }

  /** With both delegates subscribed, a hit never throws, leaves health
      non-negative, and lowers it by exactly the damage when the result
      stays positive. */
  method Hit(hs: HeathSystem, d: DamageInfo) returns (health: real)
    requires hs.characterBody != null
    requires hs.characterBody.takeDamageSubscribed && hs.characterBody.deathSubscribed
    modifies hs, hs.characterBody
    ensures hs.characterBody == old(hs.characterBody)
    ensures health == hs.currentHealth && health >= 0.0
    ensures old(hs.currentHealth) - d.damage > 0.0 ==> health == old(hs.currentHealth) - d.damage
    ensures hs.characterBody.events == old(hs.characterBody.events) + HitEvents(old(hs.currentHealth), d)
  {
    var thrown := hs.TakeDamage(d);
    health := hs.currentHealth;
  }
}
