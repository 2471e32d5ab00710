/** A configured positive magnitude: the inspector's `Min(1)` on damage and healing. */
type Magnitude = n: int | 1 <= n witness 1

/** A weapon applies its fixed damage to a target's health (Assets/Scripts/Weapon.cs). */
class Weapon {
  const damage: Magnitude

  constructor (damage: Magnitude)
    ensures this.damage == damage
  {
    this.damage := damage;
  }

  /** Only the target's health changes, and it strictly drops by `damage`. */
  method Damage(health: Health)
    modifies health`current, health`destroyed
    ensures health.current == old(health.current) - damage
    ensures health.current < old(health.current)
    ensures health.current <= 0 ==> health.destroyed
    ensures 0 < health.current ==> health.destroyed == old(health.destroyed)
    ensures old(health.Valid()) ==> health.Valid()
  {
    health.Damage(damage);
  }
}
