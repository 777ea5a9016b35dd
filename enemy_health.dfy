/** Elemental damage resolution and enemy health (EnemyHealth.cs). */
module Enemies {
  import opened Common
  import opened Definitions

  /** GetElementMultiplier: the matchup table, keyed by (attack, enemy).
      Its only values are 0, 1 and 2, so it is kept integral and the
      rounding of `amount * multiplier` is exact. */
  function ElementMultiplier(attack: ElementType, enemy: ElementType): (m: nat)
    ensures m <= 2
  {
    if attack == ElementType.None || enemy == ElementType.None then 1
    else if attack == Fire && enemy == Fire then 0
    else if attack == Fire && enemy == Ice then 2
    else 1
  }

  /** A neutral attack or a neutral enemy always gives the normal multiplier. */
  lemma NeutralIsNormal(attack: ElementType, enemy: ElementType)
    requires attack == ElementType.None || enemy == ElementType.None
    ensures ElementMultiplier(attack, enemy) == 1
  {
  }

  /** The table differs from 1 exactly on the two listed Fire matchups:
      Fire against Fire is immune (0), Fire against Ice is weak (2). */
  lemma MultiplierTable(attack: ElementType, enemy: ElementType)
    ensures ElementMultiplier(attack, enemy) != 1 <==> attack == Fire && (enemy == Fire || enemy == Ice)
    ensures attack == Fire && enemy == Fire ==> ElementMultiplier(attack, enemy) == 0
    ensures attack == Fire && enemy == Ice ==> ElementMultiplier(attack, enemy) == 2
  {
  }

  /** The damage a positive hit deals after the multiplier (RoundToInt of an
      integral product). Zero exactly when the enemy is immune. */
  function FinalDamage(amount: int, attack: ElementType, enemy: ElementType): (d: int)
    requires amount > 0
    ensures 0 <= d <= 2 * amount
    ensures d == 0 <==> attack == Fire && enemy == Fire
    ensures d == 2 * amount <==> attack == Fire && enemy == Ice
    ensures (attack == ElementType.None || enemy == ElementType.None) ==> d == amount
  {
    amount * ElementMultiplier(attack, enemy)
  }

  /** What one TakeDamage call does to a health value: the new health and
      whether Die is triggered. */
  datatype HitOutcome = HitOutcome(health: int, dies: bool)

  function ResolveHit(health: int, amount: int, attack: ElementType, enemy: ElementType): (r: HitOutcome)
    ensures amount <= 0 ==> r == HitOutcome(health, false)
    ensures amount > 0 ==> r.health == health - FinalDamage(amount, attack, enemy)
    ensures r.dies <==> r.health < health && r.health <= 0
    ensures r.health <= health
  {
    if amount <= 0 then HitOutcome(health, false)
    else
      var d := FinalDamage(amount, attack, enemy);
      if d <= 0 then HitOutcome(health, false)
      else HitOutcome(health - d, health - d <= 0)
  }

  /** Fire against a Fire enemy never changes health and never kills. */
  lemma FireImmunity(health: int, amount: int)
    ensures ResolveHit(health, amount, Fire, Fire) == HitOutcome(health, false)
  {
  }

  /** Fire against an Ice enemy deals exactly twice the amount. */
  lemma FireAgainstIceDoubles(health: int, amount: int)
    requires amount > 0
    ensures ResolveHit(health, amount, Fire, Ice).health == health - 2 * amount
  {
  }

  /** Health after `n` hits of `amount` with the same elements. */
  function HealthAfterHits(health: int, amount: int, attack: ElementType, enemy: ElementType, n: nat): int
  {
    if n == 0 then health
    else ResolveHit(HealthAfterHits(health, amount, attack, enemy, n - 1), amount, attack, enemy).health
  }

  /** Repeated neutral hits accumulate: n hits of a positive amount lower
      health by exactly n times that amount (the multi-hit melee case). */
  lemma {:induction false} RepeatedNeutralHits(health: int, amount: int, enemy: ElementType, n: nat)
    requires amount > 0
    ensures HealthAfterHits(health, amount, ElementType.None, enemy, n) == health - n * amount
  {
    if n > 0 {
      RepeatedNeutralHits(health, amount, enemy, n - 1);
    }
  }

  /** An enemy's health component. `dieCalls` counts the calls of Die
      (each of which requests the destruction of the game object). */
  class EnemyHealth {
    const definition: Option<EnemyDefinition>
    var enabled: bool
    var CurrentHealth: int
    var dieCalls: nat

    /** Awake: a missing definition disables the component; otherwise health
        starts at the definition's maximum. */
    constructor (definition: Option<EnemyDefinition>)
      ensures this.definition == definition && dieCalls == 0
      ensures definition.Nothing? ==> !enabled && CurrentHealth == 0
      ensures definition.Some? ==> enabled && CurrentHealth == definition.value.maxHealth
    {
      this.definition := definition;
      dieCalls := 0;
      if definition.Nothing? {
        enabled := false;
        CurrentHealth := 0;
      } else {
        enabled := true;
        CurrentHealth := definition.value.maxHealth;
      }
    }

    /** The effect of one TakeDamage(amount, damageType) call: with a
        definition, health and the Die count follow ResolveHit; without one,
        nothing changes. */
    twostate predicate TookDamage(amount: int, damageType: ElementType)
      reads this
    {
      if definition.Nothing? then
        CurrentHealth == old(CurrentHealth) && dieCalls == old(dieCalls)
      else
        var r := ResolveHit(old(CurrentHealth), amount, damageType, definition.value.elementType);
        CurrentHealth == r.health && dieCalls == old(dieCalls) + (if r.dies then 1 else 0)
    }

    /** TakeDamage. A disabled component still receives calls; with no
        definition, a positive hit throws on the element lookup before any
        change, so nothing happens. */
    method TakeDamage(amount: int, damageType: ElementType := ElementType.None)
      modifies this`CurrentHealth, this`dieCalls
      ensures TookDamage(amount, damageType)
    {
      if amount <= 0 { return; }
      if definition.Nothing? { return; }
      var multiplier := ElementMultiplier(damageType, definition.value.elementType);
      var finalDamage := amount * multiplier;
      if finalDamage <= 0 { return; }
      CurrentHealth := CurrentHealth - finalDamage;
      if CurrentHealth <= 0 {
        Die();
      }
    }

    method Die()
      modifies this`dieCalls
      ensures dieCalls == old(dieCalls) + 1
    {
      dieCalls := dieCalls + 1;
    }
  }
}
