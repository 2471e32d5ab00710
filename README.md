# Unity-Review game logic in Dafny

A model of the game logic of a small Unity sample. Characters on numbered teams each own a
`Health`, and may own a `Weapon` and a `MedKit`. Once per frame a character acts: with a
weapon it damages a random enemy (a character on another team), and with a med kit it heals a
random ally (a character on its own team other than itself). A `GameManager` singleton keeps
the roster of live characters in insertion order. Characters join the roster when they start
and leave it when they are destroyed.

The model is imperative, like the source. `Health`, `Weapon`, `MedKit`, `Character` and
`GameManager` are Dafny classes. Their methods update fields in place and say in their
`ensures` exactly what changed and what did not. The engine is replaced by explicit calls:

- The static singleton is a `GameManager` object passed to every operation. The static field
  that holds it is a `SingletonSlot` object.
- Unity's `Start` and `OnDestroy` become `Character.Spawn` and `Character.Despawn`.
- `Destroy(gameObject)` on a health at or below zero sets the `destroyed` flag of that `Health`.
- `GetComponent` wiring becomes constructor arguments. Weapon and med kit are nullable fields.
- Inspector ranges become subset types: `HealthCap` (1..100) and `Magnitude` (at least 1).
  Configuration fields are `const`, so nothing can write them after set-up. This covers the
  team number, the maximum health, the weapon damage and the med kit healing.
- The random pick is a nondeterministic choice (`:|`) among the filtered candidates. Every
  candidate is a permitted result, and "none" is returned exactly when there are no candidates.
- The `Debug.Log` lines that name the attacked and healed characters become `Act`'s two
  results, so its contract can name the targets.

The current health is declared `float` in the source. It is only ever set to the integer
maximum or changed by integer amounts, so it is an `int` here.

`Damage` has no lower clamp (Assets/Scripts/Health.cs:42), so health can go below zero; the
model keeps that.

## Model

| member | source | states |
|---|---|---|
| `HealedHealth` | Assets/Scripts/Health.cs:26-34 | the healed value is the least of `current + heal` and the maximum; it never exceeds the maximum, and it does not drop when the heal is non-negative and the start value was within the maximum |
| `Health.constructor` | Assets/Scripts/Health.cs:51-56 | a new health starts at its maximum, not destroyed, within the 1..100 cap |
| `Health.Heal` | Assets/Scripts/Health.cs:26-34 | current becomes `min(old + heal, max)`; only `current` changes, so healing never destroys; the result is within the maximum |
| `Health.Damage` | Assets/Scripts/Health.cs:40-49 | current becomes exactly `old - damage` with no lower clamp; the entity is destroyed when the new value is at most 0, and the flag is untouched otherwise |
| `Weapon.constructor` | Assets/Scripts/Weapon.cs:10-13 | the damage is the configured value, at least 1 |
| `Weapon.Damage` | Assets/Scripts/Weapon.cs:19-22 | the target's health drops by exactly the weapon's damage, so it strictly decreases; destruction follows `Health.Damage`; only the target's health changes |
| `MedKit.constructor` | Assets/Scripts/MedKit.cs:10-13 | the healing is the configured value, at least 1 |
| `MedKit.Heal` | Assets/Scripts/MedKit.cs:19-22 | the target's health becomes `min(old + healing, max)`: it never decreases from a valid state and never exceeds the maximum; only the target's current health changes |
| `IndexOf` | Assets/Scripts/GameManager.cs:59 | the index of the first occurrence of the character, or -1 exactly when it is absent |
| `RemoveFirst` | Assets/Scripts/GameManager.cs:59 | list removal: an absent element leaves the list as it is; otherwise the length drops by one and exactly one copy of the element leaves the multiset of elements |
| `RemoveFirstAt` | Assets/Scripts/GameManager.cs:59 | removing an element whose first occurrence is at position `i` yields the list without position `i`, everything else in order |
| `RemoveFirstSplices` | Assets/Scripts/GameManager.cs:59 | removal cuts out exactly the first occurrence; the elements before and after it keep their order |
| `RemoveUndoesAppend` | Assets/Scripts/GameManager.cs:48-63 | appending a character that is not on the roster and then removing it restores the roster |
| `Enemies` | Assets/Scripts/GameManager.cs:89 | the filtered sequence holds exactly the roster members whose team differs from the acting character's |
| `Allies` | Assets/Scripts/GameManager.cs:79 | the filtered sequence holds exactly the roster members on the acting character's team other than the character itself |
| `AppendKeepsOwnHealth` | Assets/Scripts/GameManager.cs:48-51 | adding a character whose health component is its own keeps every roster member's health distinct |
| `RemoveKeepsOwnHealth` | Assets/Scripts/GameManager.cs:57-70 | removing a character keeps every remaining roster member's health distinct |
| `AwakeSlot` | Assets/Scripts/GameManager.cs:103-118 | after a manager's Awake the singleton slot is filled: an empty slot takes the waking manager, and an already filled slot keeps its manager |
| `InstalledSingletonStays` | Assets/Scripts/GameManager.cs:103-118 | once a singleton is installed, no number of later managers running Awake replaces it |
| `FirstManagerIsSingleton` | Assets/Scripts/GameManager.cs:103-118 | of any sequence of managers running Awake from an empty slot, the first becomes the singleton |
| `SingletonSlot.constructor` | Assets/Scripts/GameManager.cs:15 | the static slot starts empty |
| `GameManager.constructor` | Assets/Scripts/GameManager.cs:25-30 | the roster starts empty and the cursor at 0 |
| `GameManager.Awake` | Assets/Scripts/GameManager.cs:103-118 | the slot becomes `AwakeSlot(old slot, this)`; the manager survives exactly when it is the singleton afterwards, and a duplicate is destroyed |
| `GameManager.AddCharacter` | Assets/Scripts/GameManager.cs:48-51 | the roster becomes `old + [c]`, so `c` occurs once more than before; the cursor is not touched; the roster invariant is kept when `c` brings its own health component |
| `GameManager.RemoveCharacter` | Assets/Scripts/GameManager.cs:57-70 | an absent character changes neither roster nor cursor; a present one is removed at its first occurrence, the length drops by 1 and the cursor becomes `max(old - 1, 0)`; the roster invariant is kept |
| `GameManager.FindAlly` | Assets/Scripts/GameManager.cs:77-80 | the result is none exactly when no roster member is on the character's team apart from the character itself; otherwise it is such a member |
| `GameManager.FindEnemy` | Assets/Scripts/GameManager.cs:87-90 | the result is none exactly when every roster member is on the character's team; otherwise it is a roster member on another team |
| `GameManager.RandomCharacter` | Assets/Scripts/GameManager.cs:97-101 | the pick is none exactly when there are no candidates, and otherwise one of the candidates |
| `Character.constructor` | Assets/Scripts/Character.cs:72-78 | the team, health, weapon and med kit are the given components |
| `Character.Spawn` | Assets/Scripts/Character.cs:72-82 | the character is appended to the roster and occurs exactly once more than before; the roster invariant is kept when its health component is its own |
| `Character.Despawn` | Assets/Scripts/Character.cs:93-98 | the character's first occurrence leaves the roster, with the cursor bookkeeping of RemoveCharacter |
| `Character.Act` | Assets/Scripts/Character.cs:45-70 | without a weapon nobody is attacked; with one, an enemy is attacked exactly when one exists, and its health drops by exactly the weapon's damage, once; likewise for the med kit and an ally healed to `min(old + healing, max)`; every other roster member's health and the actor's own health are unchanged |
| `DamageThenHealScenario` | Assets/Scripts/Health.cs:26-56 | with maximum 100, damage 30 leaves 70 and a heal of 50 then gives 100, and the entity is alive |
| `MedicScenario` | Assets/Scripts/Character.cs:59-69 | a medic with healing 5 and one same-team ally at 50 of 100 heals that ally to 55 |
| `LoneFighterScenario` | Assets/Scripts/Character.cs:47-57 | a lone armed character finds no enemy, and its own health stays at 100 |
| `SpawnDespawnScenario` | Assets/Scripts/Character.cs:72-98 | spawning a character not on the roster and then despawning it leaves the roster as it was, but the cursor moves back to `max(old - 1, 0)` |

## Left out

- `RandomPosition`, `gameRadius`, `moveSpeed` and the movement in `Character.Update`: floating-point vectors, the engine's random source and frame time.
- The shuffle in `RandomCharacter` (`System.Random` and `OrderBy`): the model states which characters may be picked, not how likely each is.
- Unity's scheduling of `Awake`, `Start`, `Update` and `OnDestroy`, and the end-of-frame timing of `Destroy`. A destroyed health only raises its flag. Deregistration is the separate `Character.Despawn`, to be called by whoever drives the loop.
- The round-robin `Update` of the game manager, which is commented out; only its cursor bookkeeping in `RemoveCharacter` remains.
- `Debug.Log` output, apart from the two target names that `Act` returns.
- The duplicate game manager's own destruction is reported by `GameManager.Awake` returning false; what happens to its game object afterwards is not modelled.
- Character.Act: requires that no two roster characters share a `Health`, and that the actor's own `Health` is not shared with anyone else on the roster. The source sets this up through Unity's component rules rather than a runtime check: `[DisallowMultipleComponent]` on `Health` and `Character` (Assets/Scripts/Health.cs:9, Assets/Scripts/Character.cs:9), `[RequireComponent(typeof(Health))]` (Assets/Scripts/Character.cs:10), and `GetComponent<Health>()` on the character's own game object (Assets/Scripts/Character.cs:76).
- Health.Damage / Health.Heal: `_health` is a float in the source (Assets/Scripts/Health.cs:20), so once its value passes 2^24 in magnitude it is rounded to the nearest float; the model uses exact integers. Rounding keeps the sign, so the destroyed flag is the same either way. Only a health already at or below zero, after a very large damage, can hold a rounded value.
- GameManager.Awake / InstalledSingletonStays: the source's `_singleton == null` test (Assets/Scripts/GameManager.cs:107) uses Unity's overloaded equality, which is also true once the installed manager's game object has been destroyed (a scene unload, say). A later manager's Awake then installs itself. The model has no operation that destroys the installed manager, so "an installed singleton is never replaced" holds only while that manager lives.
- The roster size after a run of adds and removes is stated one step at a time, through the length clauses of `RemoveCharacter` and `AddCharacter`, not as a lemma over whole runs.
