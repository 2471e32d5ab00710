/** Worked examples of the documented behaviour, built from the classes alone. */

/** A full-health entity with maximum 100 takes 30 damage, then heals 50: the heal is clamped. */
method DamageThenHealScenario() returns (afterDamage: int, afterHeal: int, destroyed: bool)
  ensures afterDamage == 70 && afterHeal == 100 && !destroyed
{
  var health := new Health(100);
  health.Damage(30);
  afterDamage := health.current;
  health.Heal(50);
  afterHeal := health.current;
  destroyed := health.destroyed;
}

/** Two characters of one team; the medic (healing 5) heals its only ally, who is at 50 of 100. */
method MedicScenario() returns (healed: int, ally: Option<Character>)
  ensures healed == 55
  ensures ally.Some?
{
  var gm := new GameManager();
  var kit := new MedKit(5);
  var medicHealth := new Health(100);
  var medic := new Character(1, medicHealth, null, kit);
  var patientHealth := new Health(100);
  patientHealth.Damage(50);
  var patient := new Character(1, patientHealth, null, null);
  medic.Spawn(gm);
  patient.Spawn(gm);
  assert gm.characters == [medic, patient];
  var enemy;
  enemy, ally := medic.Act(gm);
  healed := patient.health.current;
}

/** A lone armed character finds no enemy, so its action damages nobody. */
method LoneFighterScenario() returns (enemy: Option<Character>, current: int)
  ensures enemy.None?
  ensures current == 100
{
  var gm := new GameManager();
  var sword := new Weapon(10);
  var fighterHealth := new Health(100);
  var fighter := new Character(2, fighterHealth, sword, null);
  fighter.Spawn(gm);
  var ally;
  enemy, ally := fighter.Act(gm);
  current := fighter.health.current;
}

/** Spawning onto a roster that does not hold the character, then despawning it, restores the
    roster; the cursor, though, steps back as after any successful removal. */
method SpawnDespawnScenario(gm: GameManager, c: Character)
  requires c !in gm.characters
  modifies gm
  ensures gm.characters == old(gm.characters)
  ensures gm.characterIndex == (if old(gm.characterIndex) - 1 < 0 then 0 else old(gm.characterIndex) - 1)
{
  c.Spawn(gm);
  c.Despawn(gm);
  RemoveUndoesAppend(old(gm.characters), c);
}
