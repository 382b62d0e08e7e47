/** The state of the tracker page (the `Home` component): the team roster, the enemy
    catalog, the combat session and the draft of the "Add New Operative" form, with the
    handlers that replace them. Every handler swaps in a whole new list, so the roster, the
    catalog and the session never share a record. */
module HomeState {
  import opened Text
  import opened Entities
  import opened Roster
  import opened TurnOrder

  /** The condition tags offered on every roster card. */
  const ConditionsList: seq<string> :=
    ["Poisoned", "Prone", "Paralyzed", "Concentration", "Advantage", "Disadvantage", "Invisible"]

  const SeedCharacters: seq<Character> := [
    Character("1", "Raul", "Operative", 5, 45, 45, Some("/images/raul.jpg"), Some(16), Some(0), Some([])),
    Character("2", "Sog.Wog", "Specialist", 5, 32, 32, None, Some(15), Some(0), Some([]))
  ]

  const SeedMonsters: seq<Monster> := [
    Monster("m1", "Eldar Team", "Astra Militarum", 15, 7, Some("1d6+2"), Some(["Lasgun", "Bayonet"])),
    Monster("m2", "Necron Team", "Xenos", 13, 15, Some("1d8+3"), Some(["Gauss Flayer", "Melee"])),
    Monster("m3", "Chaos Team", "Heretic Astartes", 16, 27, Some("1d8+4"), Some(["Bolter", "Chain Sword"]))
  ]

  const SeedCombatants: seq<Character> := [
    Character("1", "Raul", "Operative", 5, 45, 45, None, Some(16), Some(0), Some(["Concentration"])),
    Character("e1", "Eldar Operative", "Xenos Team", 1, 7, 7, None, Some(15), Some(0), Some([]))
  ]

  /** On the initial roster, toggling the first offered tag for operative "1" gives it
      exactly that tag and leaves the other operative as it was. */
  lemma ToggleOfferedTagOnSeed()
    ensures ConditionsOf(Roster.ToggleCondition(SeedCharacters, "1", ConditionsList[0])[0]) == ["Poisoned"]
    ensures Roster.ToggleCondition(SeedCharacters, "1", ConditionsList[0])[1] == SeedCharacters[1]
  {
    assert ConditionsOf(SeedCharacters[0]) + [ConditionsList[0]] == ["Poisoned"];
  }

  class Home {
    var characters: seq<Character>
    var monsters: seq<Monster>
    var combatants: seq<Character>
    // The draft of the "Add New Operative" form; its inputs write these fields directly.
    var newCharName: string
    var newCharClass: string
    var newCharLevel: int

    /** Every record of the roster and of the session has its hit points within range and
        no repeated condition tag, and every catalog template has non-negative hit points. */
    ghost predicate Valid()
      reads this
    {
      && AllHpInRange(characters)
      && AllHpInRange(combatants)
      && AllTagsDistinct(characters)
      && AllTagsDistinct(combatants)
      && forall m :: m in monsters ==> m.hp >= 0
    }

    /** The page as it is first shown. */
    constructor ()
      ensures Valid()
      ensures characters == SeedCharacters && monsters == SeedMonsters && combatants == SeedCombatants
      ensures UniqueIds(characters) && UniqueIds(combatants)
      ensures newCharName == "" && newCharClass == "Fighter" && newCharLevel == 1
    {
      characters := SeedCharacters;
      monsters := SeedMonsters;
      combatants := SeedCombatants;
      newCharName := "";
      newCharClass := "Fighter";
      newCharLevel := 1;
    }

    /** `addCharacter`: a draft name that trims to nothing changes nothing; otherwise one new
        operative made from the draft is appended and the name field is cleared. */
    method AddCharacter(freshId: string)
      requires Valid()
      modifies this
      ensures Valid()
      ensures monsters == old(monsters) && combatants == old(combatants)
      ensures newCharClass == old(newCharClass) && newCharLevel == old(newCharLevel)
      ensures Trim(old(newCharName)) == "" ==>
                characters == old(characters) && newCharName == old(newCharName)
      ensures Trim(old(newCharName)) != "" ==>
                characters == old(characters) + [NewCharacter(freshId, old(newCharName), newCharClass, newCharLevel)] &&
                newCharName == ""
      ensures UniqueIds(old(characters)) && !HasId(old(characters), freshId) ==> UniqueIds(characters)
    {
      if Trim(newCharName) != "" {
        var c := NewCharacter(freshId, newCharName, newCharClass, newCharLevel);
        if UniqueIds(characters) && !HasId(characters, freshId) {
          AppendFreshKeepsUniqueIds(characters, c);
        }
        characters := characters + [c];
        newCharName := "";
      }
    }

    /** `updateCharacterHp`: the typed value, clamped, becomes the hit points of the
        operative with the id. */
    method UpdateCharacterHp(id: string, newHp: int)
      requires Valid()
      modifies this`characters
      ensures Valid()
      ensures characters == SetHp(old(characters), id, newHp)
      ensures UniqueIds(old(characters)) ==> UniqueIds(characters)
    {
      SetHpKeepsRange(characters, id, newHp);
      if UniqueIds(characters) {
        UpdateWhereKeepsUniqueIds(characters, id, (c: Character) => c.(hp := ClampHp(newHp, c.maxHp)));
      }
      characters := SetHp(characters, id, newHp);
    }

    /** `deleteCharacter`: the operatives with the id leave the roster. */
    method DeleteCharacter(id: string)
      requires Valid()
      modifies this`characters
      ensures Valid()
      ensures characters == RemoveById(old(characters), id)
      ensures UniqueIds(old(characters)) ==> UniqueIds(characters)
    {
      if UniqueIds(characters) {
        RemoveByIdKeepsUniqueIds(characters, id);
      }
      characters := RemoveById(characters, id);
    }

    /** `toggleCondition`: the tag is switched on or off for the operative with the id. */
    method ToggleCondition(id: string, tag: string)
      requires Valid()
      modifies this`characters
      ensures Valid()
      ensures characters == Roster.ToggleCondition(old(characters), id, tag)
      ensures UniqueIds(old(characters)) ==> UniqueIds(characters)
    {
      ToggleConditionKeepsAllTagsDistinct(characters, id, tag);
      var next := Roster.ToggleCondition(characters, id, tag);
      forall c | c in next ensures HpInRange(c) {
        var i :| 0 <= i < |next| && next[i] == c;
        assert HpInRange(characters[i]);
      }
      if UniqueIds(characters) {
        UpdateWhereKeepsUniqueIds(characters, id,
          (c: Character) => c.(conditions := Some(ToggleIn(ConditionsOf(c), tag))));
      }
      characters := next;
    }

    /** The update the image-upload callback makes once the file is read: the operative
        with the id takes the image reference. */
    method StoreUploadedImage(id: string, imageData: string)
      requires Valid()
      modifies this`characters
      ensures Valid()
      ensures characters == SetCustomImage(old(characters), id, imageData)
      ensures UniqueIds(old(characters)) ==> UniqueIds(characters)
    {
      var next := SetCustomImage(characters, id, imageData);
      forall c | c in next ensures HpInRange(c) {
        var i :| 0 <= i < |next| && next[i] == c;
        assert HpInRange(characters[i]);
      }
      if UniqueIds(characters) {
        UpdateWhereKeepsUniqueIds(characters, id, (c: Character) => c.(customImage := Some(imageData)));
      }
      characters := next;
    }

    /** `addMonsterToCombat`: a new combatant made from a catalog template joins the session;
        the catalog is untouched. */
    method AddMonsterToCombat(m: Monster, freshId: string)
      requires Valid() && m in monsters
      modifies this`combatants
      ensures Valid()
      ensures combatants == old(combatants) + [FromMonster(m, freshId)]
      ensures UniqueIds(old(combatants)) && !HasId(old(combatants), freshId) ==> UniqueIds(combatants)
    {
      var c := FromMonster(m, freshId);
      FromMonsterInRange(m, freshId);
      if UniqueIds(combatants) && !HasId(combatants, freshId) {
        AppendFreshKeepsUniqueIds(combatants, c);
      }
      combatants := combatants + [c];
    }

    /** The combat "-1 HP" button of the combatant with the id. */
    method DamageCombatant(id: string)
      requires Valid()
      modifies this`combatants
      ensures Valid()
      ensures combatants == DamageOne(old(combatants), id)
      ensures UniqueIds(old(combatants)) ==> UniqueIds(combatants)
    {
      CombatStepsKeepRange(combatants, id);
      if UniqueIds(combatants) {
        UpdateWhereKeepsUniqueIds(combatants, id, LoseOneHp);
      }
      combatants := DamageOne(combatants, id);
    }

    /** The combat "+1 HP" button of the combatant with the id. */
    method HealCombatant(id: string)
      requires Valid()
      modifies this`combatants
      ensures Valid()
      ensures combatants == HealOne(old(combatants), id)
      ensures UniqueIds(old(combatants)) ==> UniqueIds(combatants)
    {
      CombatStepsKeepRange(combatants, id);
      if UniqueIds(combatants) {
        UpdateWhereKeepsUniqueIds(combatants, id, GainOneHp);
      }
      combatants := HealOne(combatants, id);
    }

    /** `sortedCombatants`: the session's combatants, highest armour first, ties in the
        order they joined; the session itself keeps its order. */
    function SortedCombatants(): (r: seq<Character>)
      reads this
      ensures multiset(r) == multiset(combatants)
      ensures SortedByAc(r)
      ensures KeepsTies(combatants, r)
    {
      SortByAcIsPermutation(combatants);
      SortByAc(combatants)
    }

    /** The combatant marked "Active Turn": the first of the turn order, if there is one. */
    function ActiveTurn(): (r: Option<Character>)
      reads this
      ensures r.None? <==> combatants == []
      ensures r.Some? ==> r.value in combatants
      ensures r.Some? ==> forall c :: c in combatants ==> RankKey(c) <= RankKey(r.value)
      ensures r.Some? ==>
                exists i :: 0 <= i < |combatants| && combatants[i] == r.value &&
                            forall j :: 0 <= j < i ==> RankKey(combatants[j]) < RankKey(r.value)
    {
      if combatants == [] then None
      else
        ActiveIsFirstOfHighest(combatants);
        Some(SortedCombatants()[0])
    }
  }
}
