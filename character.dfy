/** A character on a team, with a required health and an optional weapon and med kit
    (Assets/Scripts/Character.cs). The engine's Start and OnDestroy callbacks become the
    explicit Spawn and Despawn, and one frame's action is Act. */
class Character {
  /** The team that separates allies from enemies; nothing writes it after set-up. */
  const teamNumber: int
  const health: Health
  const weapon: Weapon?
  const medKit: MedKit?

  /** The component wiring that Start does with GetComponent. */
  constructor (teamNumber: int, health: Health, weapon: Weapon?, medKit: MedKit?)
    ensures this.teamNumber == teamNumber && this.health == health
    ensures this.weapon == weapon && this.medKit == medKit
  {
    this.teamNumber := teamNumber;
    this.health := health;
    this.weapon := weapon;
    this.medKit := medKit;
  }

  /** Start: register with the game manager, exactly once more than before. */
  method Spawn(gm: GameManager)
    modifies gm`characters
    ensures gm.characters == old(gm.characters) + [this]
    ensures multiset(gm.characters)[this] == multiset(old(gm.characters))[this] + 1
    ensures old(gm.Valid()) && (forall d :: d in old(gm.characters) ==> d.health != health) ==> gm.Valid()
  {
    gm.AddCharacter(this);
  }

  /** OnDestroy: deregister from the game manager. */
  method Despawn(gm: GameManager)
    modifies gm`characters, gm`characterIndex
    ensures gm.characters == RemoveFirst(old(gm.characters), this)
    ensures this in old(gm.characters) ==>
      multiset(gm.characters)[this] == multiset(old(gm.characters))[this] - 1
    ensures this !in old(gm.characters) ==> gm.characterIndex == old(gm.characterIndex)
    ensures this in old(gm.characters) ==>
      gm.characterIndex == (if old(gm.characterIndex) - 1 < 0 then 0 else old(gm.characterIndex) - 1)
    ensures old(gm.Valid()) ==> gm.Valid()
  {
    gm.RemoveCharacter(this);
  }

  /** One frame's action: with a weapon, damage a random enemy; then, with a med kit, heal a
      random ally. The chosen targets are returned (the source logs their names). Only the
      chosen targets' health changes; the roster and this character's own health do not. */
  method Act(gm: GameManager) returns (enemy: Option<Character>, ally: Option<Character>)
    requires OwnHealth(gm.characters)
    requires forall c :: c in gm.characters && c != this ==> c.health != health
    modifies set c | c in gm.characters :: c.health
    ensures weapon == null ==> enemy.None?
    ensures weapon != null ==>
      (enemy.None? <==> forall c :: c in gm.characters ==> c.teamNumber == teamNumber)
    ensures enemy.Some? ==> enemy.value in gm.characters && enemy.value.teamNumber != teamNumber
    ensures medKit == null ==> ally.None?
    ensures medKit != null ==>
      (ally.None? <==> forall c :: c in gm.characters ==> c.teamNumber != teamNumber || c == this)
    ensures ally.Some? ==>
      ally.value in gm.characters && ally.value.teamNumber == teamNumber && ally.value != this
    ensures enemy.Some? ==>
      var h := enemy.value.health;
      && h.current == old(h.current) - weapon.damage
      && h.current < old(h.current)
      && (h.current <= 0 ==> h.destroyed)
      && (0 < h.current ==> h.destroyed == old(h.destroyed))
    ensures ally.Some? ==>
      var h := ally.value.health;
      && h.current == HealedHealth(old(h.current), medKit.healing, h.maxHealth)
      && h.destroyed == old(h.destroyed)
    ensures forall c :: c in gm.characters && enemy != Some(c) && ally != Some(c) ==>
      c.health.current == old(c.health.current) && c.health.destroyed == old(c.health.destroyed)
    ensures health.current == old(health.current) && health.destroyed == old(health.destroyed)
  {
    enemy, ally := None, None;
    if weapon != null {
      enemy := gm.FindEnemy(this);
      if enemy.Some? {
        weapon.Damage(enemy.value.health);
      }
    }
    if medKit != null {
      ally := gm.FindAlly(this);
      if ally.Some? {
        medKit.Heal(ally.value.health);
      }
    }
  }
}
