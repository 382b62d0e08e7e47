/** The list transforms behind the handlers of the tracker: each takes the current list of
    records (the team roster or the combat session) and returns the list to store next.
    Records are matched by `id`; every record with the id is affected, the rest are kept. */
module Roster {
  import opened Seqs
  import opened Entities

  /** `list.map(c => c.id === id ? f(c) : c)` */
  function UpdateWhere(cs: seq<Character>, id: string, f: Character -> Character): (r: seq<Character>)
    ensures |r| == |cs|
    ensures forall i :: 0 <= i < |cs| && cs[i].id == id ==> r[i] == f(cs[i])
    ensures forall i :: 0 <= i < |cs| && cs[i].id != id ==> r[i] == cs[i]
  {
    if cs == [] then []
    else [if cs[0].id == id then f(cs[0]) else cs[0]] + UpdateWhere(cs[1..], id, f)
  }

  ghost predicate HasId(cs: seq<Character>, id: string)
  {
    exists c :: c in cs && c.id == id
  }

  predicate DifferentIds(a: Character, b: Character)
  {
    a.id != b.id
  }

  /** No two records of the list share an id. */
  ghost predicate UniqueIds(cs: seq<Character>)
  {
    Pairwise(cs, DifferentIds)
  }

  /** A per-record update that keeps ids keeps the list's ids unique. */
  lemma UpdateWhereKeepsUniqueIds(cs: seq<Character>, id: string, f: Character -> Character)
    requires UniqueIds(cs)
    requires forall c :: f(c).id == c.id
    ensures UniqueIds(UpdateWhere(cs, id, f))
  {
    var r := UpdateWhere(cs, id, f);
    forall i, j | 0 <= i < j < |r| ensures DifferentIds(r[i], r[j]) {
      assert r[i].id == cs[i].id && r[j].id == cs[j].id;
    }
  }

  /** Appending a record whose id is not yet used keeps the ids unique. */
  lemma AppendFreshKeepsUniqueIds(cs: seq<Character>, c: Character)
    requires UniqueIds(cs)
    requires !HasId(cs, c.id)
    ensures UniqueIds(cs + [c])
  {
    var r := cs + [c];
    forall i, j | 0 <= i < j < |r| ensures DifferentIds(r[i], r[j]) {
      if j == |cs| {
        assert r[i] in cs;
      } else {
        assert r[i] == cs[i] && r[j] == cs[j];
      }
    }
  }

  // ---------------------------------------------------------------- hit points

  /** `Math.max(0, Math.min(v, maxHp))` */
  function ClampHp(v: int, maxHp: int): (r: int)
    ensures 0 <= r
    ensures maxHp >= 0 ==> r <= maxHp
    ensures v < 0 ==> r == 0
    ensures 0 <= v <= maxHp ==> r == v
    ensures 0 <= maxHp < v ==> r == maxHp
    ensures maxHp < 0 ==> r == 0
  {
    var m := if v < maxHp then v else maxHp;
    if 0 < m then m else 0
  }

  /** `updateCharacterHp(id, v)`: every record with the id gets `v` clamped into its range. */
  function SetHp(cs: seq<Character>, id: string, v: int): (r: seq<Character>)
    ensures |r| == |cs|
    ensures forall i :: 0 <= i < |cs| && cs[i].id != id ==> r[i] == cs[i]
    ensures forall i :: 0 <= i < |cs| && cs[i].id == id ==>
              r[i] == cs[i].(hp := r[i].hp) &&
              (v < 0 ==> r[i].hp == 0) &&
              (0 <= v <= cs[i].maxHp ==> r[i].hp == v) &&
              (0 <= cs[i].maxHp < v ==> r[i].hp == cs[i].maxHp) &&
              (cs[i].maxHp < 0 ==> r[i].hp == 0)
  {
    UpdateWhere(cs, id, (c: Character) => c.(hp := ClampHp(v, c.maxHp)))
  }

  /** Setting hit points keeps every record within range (the stored maxima are not negative). */
  lemma SetHpKeepsRange(cs: seq<Character>, id: string, v: int)
    requires AllHpInRange(cs)
    ensures AllHpInRange(SetHp(cs, id, v))
  {
    var r := SetHp(cs, id, v);
    forall c | c in r ensures HpInRange(c) {
      var i :| 0 <= i < |r| && r[i] == c;
      assert HpInRange(cs[i]);
    }
  }

  /** An id no record has leaves the list as it was. */
  lemma SetHpUnknownId(cs: seq<Character>, id: string, v: int)
    requires !HasId(cs, id)
    ensures SetHp(cs, id, v) == cs
  {
    var r := SetHp(cs, id, v);
    forall i | 0 <= i < |cs| ensures r[i] == cs[i] {
      assert cs[i] in cs;
    }
  }

  /** Entering the same value twice has the effect of entering it once. */
  lemma SetHpIdempotent(cs: seq<Character>, id: string, v: int)
    ensures SetHp(SetHp(cs, id, v), id, v) == SetHp(cs, id, v)
  {
    var r := SetHp(cs, id, v);
    var rr := SetHp(r, id, v);
    forall i | 0 <= i < |cs| ensures rr[i] == r[i] {
      if cs[i].id == id {
        assert rr[i].hp == ClampHp(v, r[i].maxHp);
      }
    }
  }

  /** The combat "-1 HP" step: `Math.max(0, hp - 1)`. */
  function LoseOneHp(c: Character): (r: Character)
    ensures r == c.(hp := r.hp)
    ensures c.hp > 0 ==> r.hp == c.hp - 1
    ensures c.hp <= 0 ==> r.hp == 0
  {
    c.(hp := if c.hp - 1 > 0 then c.hp - 1 else 0)
  }

  /** The combat "+1 HP" step: `Math.min(maxHp, hp + 1)`. */
  function GainOneHp(c: Character): (r: Character)
    ensures r == c.(hp := r.hp)
    ensures c.hp < c.maxHp ==> r.hp == c.hp + 1
    ensures c.hp >= c.maxHp ==> r.hp == c.maxHp
  {
    c.(hp := if c.hp + 1 < c.maxHp then c.hp + 1 else c.maxHp)
  }

  /** Within range the one-sided clamps of the combat steps agree with clamping
      `hp - 1` and `hp + 1` into the whole range, and they stay within range. */
  lemma StepsAreClamps(c: Character)
    requires HpInRange(c)
    ensures LoseOneHp(c).hp == ClampHp(c.hp - 1, c.maxHp) && HpInRange(LoseOneHp(c))
    ensures GainOneHp(c).hp == ClampHp(c.hp + 1, c.maxHp) && HpInRange(GainOneHp(c))
  {
  }

  /** Within range, a step that changed something is undone by the opposite step. */
  lemma StepsUndo(c: Character)
    requires HpInRange(c)
    ensures c.hp > 0 ==> GainOneHp(LoseOneHp(c)) == c
    ensures c.hp < c.maxHp ==> LoseOneHp(GainOneHp(c)) == c
  {
  }

  /** The list update of the combat "-1 HP" button for the combatant with the id. */
  function DamageOne(cs: seq<Character>, id: string): (r: seq<Character>)
    ensures |r| == |cs|
    ensures forall i :: 0 <= i < |cs| && cs[i].id != id ==> r[i] == cs[i]
    ensures forall i :: 0 <= i < |cs| && cs[i].id == id ==>
              r[i] == LoseOneHp(cs[i]) &&
              r[i] == cs[i].(hp := r[i].hp) && 0 <= r[i].hp && r[i].hp >= cs[i].hp - 1 &&
              (cs[i].hp > 0 ==> r[i].hp == cs[i].hp - 1) && (cs[i].hp <= 0 ==> r[i].hp == 0)
  {
    UpdateWhere(cs, id, LoseOneHp)
  }

  /** The list update of the combat "+1 HP" button for the combatant with the id. */
  function HealOne(cs: seq<Character>, id: string): (r: seq<Character>)
    ensures |r| == |cs|
    ensures forall i :: 0 <= i < |cs| && cs[i].id != id ==> r[i] == cs[i]
    ensures forall i :: 0 <= i < |cs| && cs[i].id == id ==>
              r[i] == GainOneHp(cs[i]) &&
              r[i] == cs[i].(hp := r[i].hp) && r[i].hp <= cs[i].maxHp && r[i].hp <= cs[i].hp + 1 &&
              (cs[i].hp < cs[i].maxHp ==> r[i].hp == cs[i].hp + 1) &&
              (cs[i].hp >= cs[i].maxHp ==> r[i].hp == cs[i].maxHp)
  {
    UpdateWhere(cs, id, GainOneHp)
  }

  /** Both combat steps keep every combatant within range. */
  lemma CombatStepsKeepRange(cs: seq<Character>, id: string)
    requires AllHpInRange(cs)
    ensures AllHpInRange(DamageOne(cs, id)) && AllHpInRange(HealOne(cs, id))
  {
    var d, h := DamageOne(cs, id), HealOne(cs, id);
    forall c | c in d ensures HpInRange(c) {
      var i :| 0 <= i < |d| && d[i] == c;
      assert HpInRange(cs[i]);
    }
    forall c | c in h ensures HpInRange(c) {
      var i :| 0 <= i < |h| && h[i] == c;
      assert HpInRange(cs[i]);
    }
  }

  // ---------------------------------------------------------------- removal

  function OtherId(id: string): Character -> bool
  {
    (c: Character) => c.id != id
  }

  /** `deleteCharacter(id)`: `list.filter(c => c.id !== id)`. */
  function RemoveById(cs: seq<Character>, id: string): (r: seq<Character>)
    ensures |r| <= |cs|
    ensures forall c :: c in r <==> c in cs && c.id != id
    ensures !HasId(r, id)
  {
    Filter(cs, OtherId(id))
  }

  /** Removal keeps the survivors in their original order: it works piecewise on any split. */
  lemma RemoveByIdKeepsOrder(a: seq<Character>, b: seq<Character>, id: string)
    ensures RemoveById(a + b, id) == RemoveById(a, id) + RemoveById(b, id)
  {
    FilterConcat(a, b, OtherId(id));
  }

  /** Removing an id no record has changes nothing. */
  lemma RemoveByIdAbsent(cs: seq<Character>, id: string)
    requires !HasId(cs, id)
    ensures RemoveById(cs, id) == cs
  {
    FilterKeepsAll(cs, OtherId(id));
  }

  /** Removing twice is removing once. */
  lemma RemoveByIdIdempotent(cs: seq<Character>, id: string)
    ensures RemoveById(RemoveById(cs, id), id) == RemoveById(cs, id)
  {
    FilterIdempotent(cs, OtherId(id));
  }

  lemma RemoveByIdKeepsUniqueIds(cs: seq<Character>, id: string)
    requires UniqueIds(cs)
    ensures UniqueIds(RemoveById(cs, id))
  {
    FilterPairwise(cs, OtherId(id), DifferentIds);
  }

  // ---------------------------------------------------------------- conditions

  function Except(tag: string): string -> bool
  {
    (t: string) => t != tag
  }

  /** The inner rule of `toggleCondition`: drop every occurrence of a present tag,
      append an absent one at the end. */
  function ToggleIn(tags: seq<string>, tag: string): (r: seq<string>)
    ensures tag in r <==> tag !in tags
    ensures forall t :: t != tag ==> (t in r <==> t in tags)
    ensures tag !in tags ==> r == tags + [tag]
    ensures tag in tags ==> r == Filter(tags, Except(tag))
  {
    if tag in tags then Filter(tags, Except(tag)) else tags + [tag]
  }

  /** Toggling an absent tag twice gives back the very same list. */
  lemma {:induction false} ToggleTwiceRestoresAbsent(tags: seq<string>, tag: string)
    requires tag !in tags
    ensures ToggleIn(ToggleIn(tags, tag), tag) == tags
  {
    FilterConcat(tags, [tag], Except(tag));
    FilterKeepsAll(tags, Except(tag));
    assert Filter([tag], Except(tag)) == [] by {
      assert [tag][1..] == [];
    }
  }

  /** Toggling twice gives back membership of every tag. */
  lemma ToggleTwiceRestoresMembership(tags: seq<string>, tag: string)
    ensures forall t :: t in ToggleIn(ToggleIn(tags, tag), tag) <==> t in tags
  {
  }

  /** A list of distinct tags stays a list of distinct tags. */
  lemma ToggleKeepsNoDuplicates(tags: seq<string>, tag: string)
    requires NoDuplicates(tags)
    ensures NoDuplicates(ToggleIn(tags, tag))
  {
    if tag in tags {
      FilterPairwise(tags, Except(tag), Distinct);
    } else {
      var r := tags + [tag];
      forall i, j | 0 <= i < j < |r| ensures Distinct(r[i], r[j]) {
        if j == |tags| {
          assert r[i] in tags;
        } else {
          assert r[i] == tags[i] && r[j] == tags[j];
        }
      }
    }
  }

  /** `toggleCondition(id, tag)`: each record with the id gets its tags (absent meaning
      none) toggled; its other fields and the other records stay as they were. */
  function ToggleCondition(cs: seq<Character>, id: string, tag: string): (r: seq<Character>)
    ensures |r| == |cs|
    ensures forall i :: 0 <= i < |cs| && cs[i].id != id ==> r[i] == cs[i]
    ensures forall i :: 0 <= i < |cs| && cs[i].id == id ==>
              r[i] == cs[i].(conditions := Some(ToggleIn(ConditionsOf(cs[i]), tag))) &&
              (tag in ConditionsOf(r[i]) <==> tag !in ConditionsOf(cs[i]))
  {
    UpdateWhere(cs, id, (c: Character) => c.(conditions := Some(ToggleIn(ConditionsOf(c), tag))))
  }

  /** A record with the id whose tags were distinct still has distinct tags after the toggle. */
  lemma ToggleConditionKeepsNoDuplicates(cs: seq<Character>, id: string, tag: string, i: nat)
    requires i < |cs| && cs[i].id == id && NoDuplicates(ConditionsOf(cs[i]))
    ensures NoDuplicates(ConditionsOf(ToggleCondition(cs, id, tag)[i]))
  {
    ToggleKeepsNoDuplicates(ConditionsOf(cs[i]), tag);
  }

  /** No record of the list repeats a condition tag. */
  ghost predicate AllTagsDistinct(cs: seq<Character>)
  {
    forall i :: 0 <= i < |cs| ==> NoDuplicates(ConditionsOf(cs[i]))
  }

  /** Toggling keeps every record of the list free of repeated tags. */
  lemma ToggleConditionKeepsAllTagsDistinct(cs: seq<Character>, id: string, tag: string)
    requires AllTagsDistinct(cs)
    ensures AllTagsDistinct(ToggleCondition(cs, id, tag))
  {
    forall i | 0 <= i < |cs| && cs[i].id == id
      ensures NoDuplicates(ConditionsOf(ToggleCondition(cs, id, tag)[i]))
    {
      ToggleConditionKeepsNoDuplicates(cs, id, tag, i);
    }
  }

  /** Toggling the same tag twice on a list restores every record's tags up to order, and
      restores them exactly where the tag was absent (an absent field becomes the empty list). */
  lemma ToggleConditionTwice(cs: seq<Character>, id: string, tag: string)
    ensures |ToggleCondition(ToggleCondition(cs, id, tag), id, tag)| == |cs|
    ensures forall i :: 0 <= i < |cs| && cs[i].id != id ==>
              ToggleCondition(ToggleCondition(cs, id, tag), id, tag)[i] == cs[i]
    ensures forall i, t :: 0 <= i < |cs| ==>
              (t in ConditionsOf(ToggleCondition(ToggleCondition(cs, id, tag), id, tag)[i]) <==>
               t in ConditionsOf(cs[i]))
    ensures forall i :: 0 <= i < |cs| && tag !in ConditionsOf(cs[i]) ==>
              ConditionsOf(ToggleCondition(ToggleCondition(cs, id, tag), id, tag)[i]) == ConditionsOf(cs[i])
  {
    var once := ToggleCondition(cs, id, tag);
    var twice := ToggleCondition(once, id, tag);
    forall i | 0 <= i < |cs| && cs[i].id == id
      ensures ConditionsOf(twice[i]) == ToggleIn(ToggleIn(ConditionsOf(cs[i]), tag), tag)
    {
    }
    forall i | 0 <= i < |cs| && tag !in ConditionsOf(cs[i])
      ensures ConditionsOf(twice[i]) == ConditionsOf(cs[i])
    {
      if cs[i].id == id {
        ToggleTwiceRestoresAbsent(ConditionsOf(cs[i]), tag);
      }
    }
  }

  // ---------------------------------------------------------------- image

  /** The list update of the image-upload callback: each record with the id gets the new
      image reference; nothing else changes. */
  function SetCustomImage(cs: seq<Character>, id: string, image: string): (r: seq<Character>)
    ensures |r| == |cs|
    ensures forall i :: 0 <= i < |cs| && cs[i].id != id ==> r[i] == cs[i]
    ensures forall i :: 0 <= i < |cs| && cs[i].id == id ==> r[i] == cs[i].(customImage := Some(image))
  {
    UpdateWhere(cs, id, (c: Character) => c.(customImage := Some(image)))
  }

  /** After an upload the record shows the uploaded image, unless the upload produced an
      empty reference, in which case it shows the generated avatar again. */
  lemma UploadedImageIsShown(cs: seq<Character>, id: string, image: string, encode: string -> string, i: nat)
    requires i < |cs| && cs[i].id == id
    ensures image != "" ==> CharacterImage(SetCustomImage(cs, id, image)[i], encode) == image
    ensures image == "" ==>
              CharacterImage(SetCustomImage(cs, id, image)[i], encode) == AvatarPrefix + encode(cs[i].name) + AvatarSuffix
  {
  }
}
