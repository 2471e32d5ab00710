/** A med kit applies its fixed healing to a target's health (Assets/Scripts/MedKit.cs). */
class MedKit {
  const healing: Magnitude

  constructor (healing: Magnitude)
    ensures this.healing == healing
  {
    this.healing := healing;
  }

  /** Only the target's current health changes: it rises towards, and never past, the maximum. */
  method Heal(health: Health)
    modifies health`current
    ensures health.current == HealedHealth(old(health.current), healing, health.maxHealth)
    ensures old(health.Valid()) ==> old(health.current) <= health.current
    ensures health.Valid()
  {
    health.Heal(healing);
  }
}
