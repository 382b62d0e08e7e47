/** The records of the tracker: roster members and combatants (`Character`), enemy
    templates (`Monster`), the read-time fallbacks for their optional fields, and the two
    ways a new record is made. */
module Entities {

  datatype Option<T> = None | Some(value: T)

  /** A roster member or a combatant. The TypeScript fields `class` and the optional
      `customImage`, `ac`, `spellSlots`, `conditions` are `role` and `Option`s here. */
  datatype Character = Character(
    id: string,
    name: string,
    role: string,
    level: int,
    hp: int,
    maxHp: int,
    customImage: Option<string>,
    ac: Option<int>,
    spellSlots: Option<int>,
    conditions: Option<seq<string>>)

  /** An enemy team template of the catalog; the TypeScript field `type` is `faction`. */
  datatype Monster = Monster(
    id: string,
    name: string,
    faction: string,
    ac: int,
    hp: int,
    damage: Option<string>,
    abilities: Option<seq<string>>)

  /** Hit points of one record lie between 0 and its maximum. */
  predicate HpInRange(c: Character)
  {
    0 <= c.hp <= c.maxHp
  }

  ghost predicate AllHpInRange(cs: seq<Character>)
  {
    forall c :: c in cs ==> HpInRange(c)
  }

  /** Hit points every new roster member starts with, as current and as maximum. */
  const StartingHp := 30

  /** The record `addCharacter` appends: the name as typed (not trimmed), the chosen role
      and level, full hit points, and no armour, spell slots, conditions or image. */
  function NewCharacter(id: string, name: string, role: string, level: int): (c: Character)
    ensures c.id == id && c.name == name && c.role == role && c.level == level
    ensures c.hp == c.maxHp == StartingHp && HpInRange(c)
    ensures c.ac.None? && c.spellSlots.None? && c.conditions.None? && c.customImage.None?
  {
    Character(id, name, role, level, StartingHp, StartingHp, None, None, None, None)
  }

  /** The combatant `addMonsterToCombat` builds from a catalog template. */
  function FromMonster(m: Monster, id: string): (c: Character)
    ensures c.id == id && c.name == m.name && c.role == m.faction && c.level == 1
    ensures c.hp == c.maxHp == m.hp && c.ac == Some(m.ac)
    ensures c.spellSlots == Some(0) && c.conditions == Some([]) && c.customImage.None?
  {
    Character(id, m.name, m.faction, 1, m.hp, m.hp, None, Some(m.ac), Some(0), Some([]))
  }

  /** A combatant made from a template with non-negative hit points starts at full health,
      within range, and ranks by the template's armour. */
  lemma FromMonsterInRange(m: Monster, id: string)
    requires m.hp >= 0
    ensures HpInRange(FromMonster(m, id)) && FromMonster(m, id).hp == FromMonster(m, id).maxHp
    ensures RankKey(FromMonster(m, id)) == m.ac
  {
  }

  /** `ac || 10`: the armour shown on a roster card; an absent or zero armour shows as 10. */
  function DisplayAc(c: Character): (r: int)
    ensures r != 0
    ensures c.ac.Some? && c.ac.value != 0 ==> r == c.ac.value
    ensures c.ac.None? || c.ac.value == 0 ==> r == 10
  {
    match c.ac
    case Some(a) => if a != 0 then a else 10
    case None => 10
  }

  /** `ac || 0`: the armour used to rank combatants; absent armour ranks as 0. */
  function RankKey(c: Character): (r: int)
    ensures c.ac.Some? ==> r == c.ac.value
    ensures c.ac.None? ==> r == 0
  {
    match c.ac
    case Some(a) => a
    case None => 0
  }

  /** The shown armour and the ranking armour agree except where the ranking one is 0. */
  lemma DisplayAcAgreesWithRank(c: Character)
    ensures RankKey(c) != 0 ==> DisplayAc(c) == RankKey(c)
    ensures RankKey(c) == 0 ==> DisplayAc(c) == 10
  {
  }

  /** `spellSlots || 0`: the spell slots shown on a roster card. */
  function DisplaySpellSlots(c: Character): (r: int)
    ensures c.spellSlots.Some? ==> r == c.spellSlots.value
    ensures c.spellSlots.None? ==> r == 0
  {
    match c.spellSlots
    case Some(n) => n
    case None => 0
  }

  /** `c.conditions || []`: the condition tags of a record; absent means none. */
  function ConditionsOf(c: Character): (r: seq<string>)
    ensures c.conditions.Some? ==> r == c.conditions.value
    ensures c.conditions.None? ==> r == []
  {
    match c.conditions
    case Some(cs) => cs
    case None => []
  }

  const AvatarPrefix := "https://api.dicebear.com/7.x/lorelei/svg?seed="
  const AvatarSuffix := "&scale=80&backgroundColor=b6e3f5"

  /** `getCharacterImage`: the uploaded image when there is a non-empty one, otherwise the
      generated-avatar address whose seed is the URI-encoded name. `encode` stands for
      ECMAScript's `encodeURIComponent`. */
  function CharacterImage(c: Character, encode: string -> string): (r: string)
    ensures c.customImage.Some? && c.customImage.value != "" ==> r == c.customImage.value
    ensures c.customImage.None? || c.customImage.value == "" ==>
              r == AvatarPrefix + encode(c.name) + AvatarSuffix
  {
    match c.customImage
    case Some(img) => if img != "" then img else AvatarPrefix + encode(c.name) + AvatarSuffix
    case None => AvatarPrefix + encode(c.name) + AvatarSuffix
  }

  /** Without an uploaded image the avatar depends on the name alone: two records with the
      same name get the same address, and the address always starts with the service's
      template. */
  lemma GeneratedAvatarDependsOnNameOnly(a: Character, b: Character, encode: string -> string)
    requires a.customImage.None? || a.customImage.value == ""
    requires b.customImage.None? || b.customImage.value == ""
    requires a.name == b.name
    ensures CharacterImage(a, encode) == CharacterImage(b, encode)
    ensures AvatarPrefix <= CharacterImage(a, encode)
  {
  }
}
