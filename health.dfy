/** Hit points of an entity (Assets/Scripts/Health.cs). */

/** Configured maximum health: the inspector range 1..100. */
type HealthCap = n: int | 1 <= n <= 100 witness 100

/** Health after healing `current` by `heal`: the sum, clamped at `maxHealth`. */
function HealedHealth(current: int, heal: int, maxHealth: int): (r: int)
  ensures r <= maxHealth && r <= current + heal
  ensures r == current + heal || r == maxHealth
  ensures current <= maxHealth && 0 <= heal ==> current <= r
{
  if current + heal > maxHealth then maxHealth else current + heal
}

class Health {
  /** The configured maximum; never written after set-up. */
  const maxHealth: HealthCap
  /** Current hit points. Declared as a float in the source, but only ever
      assigned `maxHealth` or changed by integer amounts. */
  var current: int
  /** Set once the owning game object has been asked to be destroyed. */
  var destroyed: bool

  /** Current never exceeds the maximum. */
  ghost predicate Valid()
    reads this
  {
    current <= maxHealth
  }

  /** Awake: health starts at the maximum. */
  constructor (maxHealth: HealthCap)
    ensures this.maxHealth == maxHealth && current == maxHealth && !destroyed
    ensures Valid()
  {
    this.maxHealth := maxHealth;
    current := maxHealth;
    destroyed := false;
  }

  /** Adds `heal` and clamps at the maximum; never destroys. */
  method Heal(heal: int)
    modifies this`current
    ensures current == HealedHealth(old(current), heal, maxHealth)
    ensures Valid()
  {
    current := current + heal;
    if current > maxHealth {
      current := maxHealth;
    }
  }

  /** Subtracts `damage` with no lower clamp; at or below zero the entity is destroyed. */
  method Damage(damage: int)
    modifies this`current, this`destroyed
    ensures current == old(current) - damage
    ensures current <= 0 ==> destroyed
    ensures 0 < current ==> destroyed == old(destroyed)
    ensures old(Valid()) && 0 <= damage ==> Valid()
  {
    current := current - damage;
    if current <= 0 {
      destroyed := true;
    }
  }
}
