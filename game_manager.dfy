/** The roster bookkeeping of the game manager (Assets/Scripts/GameManager.cs). The
    static singleton is an explicit GameManager object passed to each operation. */

/** Index of the first occurrence of `x` in `s`, or -1 when there is none. */
function IndexOf<T(==)>(s: seq<T>, x: T): (i: int)
  ensures -1 <= i < |s|
  ensures i == -1 <==> x !in s
  ensures 0 <= i ==> s[i] == x && x !in s[..i]
{
  if s == [] then -1
  else if s[0] == x then 0
  else
    var j := IndexOf(s[1..], x);
    assert s == [s[0]] + s[1..];
    if j < 0 then -1
    else
      assert s[..j + 1] == [s[0]] + s[1..][..j];
      j + 1
}

/** The list after removing the first occurrence of `x`, as List.Remove does. */
function RemoveFirst<T(==)>(s: seq<T>, x: T): (r: seq<T>)
  ensures x !in s ==> r == s
  ensures x in s ==> |r| == |s| - 1
  ensures multiset(r) == multiset(s) - multiset{x}
{
  if s == [] then []
  else
    assert s == [s[0]] + s[1..];
    if s[0] == x then s[1..] else [s[0]] + RemoveFirst(s[1..], x)
}

/** Removing `x` whose first occurrence is at `i` cuts out exactly position `i`. */
lemma {:induction false} RemoveFirstAt<T>(s: seq<T>, x: T, i: nat)
  requires i < |s| && s[i] == x && x !in s[..i]
  ensures RemoveFirst(s, x) == s[..i] + s[i + 1..]
{
  if 0 < i {
    assert s[0] == s[..i][0];
    var t := s[1..];
    assert t[..i - 1] == s[1..i];
    RemoveFirstAt(t, x, i - 1);
    assert [s[0]] + t[..i - 1] == s[..i];
    assert t[i..] == s[i + 1..];
  }
}

/** RemoveFirst removes exactly the element at the first occurrence; every other
    element keeps its relative order. */
lemma RemoveFirstSplices<T>(s: seq<T>, x: T)
  requires x in s
  ensures RemoveFirst(s, x) == s[..IndexOf(s, x)] + s[IndexOf(s, x) + 1..]
{
  RemoveFirstAt(s, x, IndexOf(s, x));
}

/** Despawning a character that was spawned onto a roster not holding it restores the roster. */
lemma {:induction false} RemoveUndoesAppend<T>(s: seq<T>, x: T)
  requires x !in s
  ensures RemoveFirst(s + [x], x) == s
{
  if s != [] {
    assert (s + [x])[1..] == s[1..] + [x];
    RemoveUndoesAppend(s[1..], x);
  }
}

/** The roster members on a team other than `me`'s, in roster order. */
function Enemies(roster: seq<Character>, me: Character): (r: seq<Character>)
  ensures forall i :: 0 <= i < |r| ==> r[i] in roster && r[i].teamNumber != me.teamNumber
  ensures forall i :: 0 <= i < |roster| && roster[i].teamNumber != me.teamNumber ==> roster[i] in r
  ensures |r| <= |roster|
{
  if roster == [] then []
  else
    var rest := Enemies(roster[1..], me);
    assert forall i :: 0 < i < |roster| ==> roster[i] == roster[1..][i - 1];
    if roster[0].teamNumber != me.teamNumber then [roster[0]] + rest else rest
}

/** The roster members on `me`'s team other than `me` itself, in roster order. */
function Allies(roster: seq<Character>, me: Character): (r: seq<Character>)
  ensures forall i :: 0 <= i < |r| ==>
    r[i] in roster && r[i].teamNumber == me.teamNumber && r[i] != me
  ensures forall i :: 0 <= i < |roster| && roster[i].teamNumber == me.teamNumber && roster[i] != me ==>
    roster[i] in r
  ensures |r| <= |roster|
{
  if roster == [] then []
  else
    var rest := Allies(roster[1..], me);
    assert forall i :: 0 < i < |roster| ==> roster[i] == roster[1..][i - 1];
    if roster[0].teamNumber == me.teamNumber && roster[0] != me then [roster[0]] + rest else rest
}

/** No two distinct roster characters share one Health component: Unity allows a single
    Health per game object, and each character sits on its own game object. */
ghost predicate OwnHealth(roster: seq<Character>)
{
  forall i, j :: 0 <= i < |roster| && 0 <= j < |roster| && roster[i].health == roster[j].health ==> roster[i] == roster[j]
}

/** Appending a character whose health no roster member shares keeps health ownership. */
lemma AppendKeepsOwnHealth(roster: seq<Character>, c: Character)
  requires OwnHealth(roster)
  requires forall d :: d in roster ==> d.health != c.health
  ensures OwnHealth(roster + [c])
{
}

/** Removing a character keeps health ownership of the rest. */
lemma RemoveKeepsOwnHealth(roster: seq<Character>, c: Character)
  requires OwnHealth(roster)
  ensures OwnHealth(RemoveFirst(roster, c))
{
  if c in roster {
    var i := IndexOf(roster, c);
    RemoveFirstAt(roster, c, i);
    var r := RemoveFirst(roster, c);
    forall a, b | 0 <= a < |r| && 0 <= b < |r| && r[a].health == r[b].health
      ensures r[a] == r[b]
    {
      var a' := if a < i then a else a + 1;
      var b' := if b < i then b else b + 1;
      assert r[a] == roster[a'] && r[b] == roster[b'];
    }
  }
}

/** The value of the static singleton slot after a manager's Awake: the first manager
    installs itself, a later one leaves the slot as it was. */
function AwakeSlot(slot: GameManager?, gm: GameManager): (r: GameManager?)
  ensures r != null
  ensures slot == null ==> r == gm
  ensures slot != null ==> r == slot
{
  if slot == null then gm else slot
}

/** The singleton slot after each of `gms` runs Awake, in order: a proof helper that
    stands for a sequence of GameManager.Awake calls, used by the two lemmas below. */
function AwakeAll(slot: GameManager?, gms: seq<GameManager>): GameManager?
  decreases gms
{
  if gms == [] then slot else AwakeAll(AwakeSlot(slot, gms[0]), gms[1..])
}

/** An installed singleton is never replaced by later managers. */
lemma {:induction false} InstalledSingletonStays(slot: GameManager, gms: seq<GameManager>)
  ensures AwakeAll(slot, gms) == slot
{
  if gms != [] {
    InstalledSingletonStays(slot, gms[1..]);
  }
}

/** Whatever managers are created, the first one to run Awake is the singleton. */
lemma {:induction false} FirstManagerIsSingleton(gms: seq<GameManager>)
  requires gms != []
  ensures AwakeAll(null, gms) == gms[0]
{
  InstalledSingletonStays(gms[0], gms[1..]);
}

/** The process-wide slot that holds the singleton game manager. */
class SingletonSlot {
  var instance: GameManager?

  constructor ()
    ensures instance == null
  {
    instance := null;
  }
}

class GameManager {
  /** All live characters, in the order they were added. */
  var characters: seq<Character>
  /** Cursor of the disabled round-robin scheduler; only RemoveCharacter moves it. */
  var characterIndex: int

  ghost predicate Valid()
    reads this
  {
    0 <= characterIndex && OwnHealth(characters)
  }

  constructor ()
    ensures characters == [] && characterIndex == 0
    ensures Valid()
  {
    characters := [];
    characterIndex := 0;
  }

  /** Awake: become the singleton if there is none yet; otherwise this manager survives
      only if it already is the singleton (a duplicate destroys its own game object). */
  method Awake(slot: SingletonSlot) returns (survives: bool)
    modifies slot
    ensures slot.instance == AwakeSlot(old(slot.instance), this)
    ensures survives <==> slot.instance == this
  {
    if slot.instance == null {
      slot.instance := this;
      return true;
    }
    survives := slot.instance == this;
  }

  /** Appends a character; the cursor is untouched. */
  method AddCharacter(character: Character)
    modifies this`characters
    ensures characters == old(characters) + [character]
    ensures multiset(characters)[character] == multiset(old(characters))[character] + 1
    ensures old(Valid()) && (forall d :: d in old(characters) ==> d.health != character.health) ==> Valid()
  {
    if OwnHealth(characters) && forall d :: d in characters ==> d.health != character.health {
      AppendKeepsOwnHealth(characters, character);
    }
    characters := characters + [character];
  }

  /** Removes the first occurrence of a character; on success the cursor steps back,
      clamped at 0. An absent character changes nothing. */
  method RemoveCharacter(character: Character)
    modifies this`characters, this`characterIndex
    ensures character !in old(characters) ==>
      characters == old(characters) && characterIndex == old(characterIndex)
    ensures character in old(characters) ==>
      && characters == RemoveFirst(old(characters), character)
      && |characters| == |old(characters)| - 1
      && characterIndex == (if old(characterIndex) - 1 < 0 then 0 else old(characterIndex) - 1)
    ensures old(Valid()) ==> Valid()
  {
    var removed := character in characters;
    if !removed {
      return;
    }
    if OwnHealth(characters) {
      RemoveKeepsOwnHealth(characters, character);
    }
    characters := RemoveFirst(characters, character);
    characterIndex := characterIndex - 1;
    if characterIndex < 0 {
      characterIndex := 0;
    }
  }

  /** A random roster member on `character`'s team other than itself, or none when there is no such member. */
  method FindAlly(character: Character) returns (ally: Option<Character>)
    ensures ally.Some? ==>
      ally.value in characters && ally.value.teamNumber == character.teamNumber && ally.value != character
    ensures ally.None? <==>
      forall c :: c in characters ==> c.teamNumber != character.teamNumber || c == character
  {
    ally := RandomCharacter(Allies(characters, character));
  }

  /** A random roster member on another team than `character`'s, or none when there is no such member. */
  method FindEnemy(character: Character) returns (enemy: Option<Character>)
    ensures enemy.Some? ==> enemy.value in characters && enemy.value.teamNumber != character.teamNumber
    ensures enemy.None? <==> forall c :: c in characters ==> c.teamNumber == character.teamNumber
  {
    enemy := RandomCharacter(Enemies(characters, character));
  }

  /** Picks any one of `candidates` (the source shuffles them randomly and takes the
      first), or none when there are none. */
  static method RandomCharacter(candidates: seq<Character>) returns (r: Option<Character>)
    ensures r.None? <==> candidates == []
    ensures r.Some? ==> r.value in candidates
  {
    if candidates == [] {
      return None;
    }
    var i :| 0 <= i < |candidates|;
    r := Some(candidates[i]);
  }
}
