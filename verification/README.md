# Game tracker state engine, modelled in Dafny

The tracker page (`app/page.tsx`, component `Home`) keeps three lists: the team roster
(`characters`), the enemy catalog (`monsters`) and the combat session (`combatants`). It
also keeps the draft of the "Add New Operative" form. Its handlers replace these lists
with new ones built by `map`, `filter` and spread. This project models that state engine:

- `seqs.dfy` (module `Seqs`): `Array.prototype.filter` as `Filter`, and pairwise
  properties of a list (`Pairwise`, `NoDuplicates`).
- `text.dfy` (module `Text`): `String.prototype.trim`. It strips the ECMAScript 2019
  WhiteSpace and LineTerminator code points.
- `entities.dfy` (module `Entities`): the `Character` and `Monster` records and their
  optional fields. It holds the read-time fallbacks `ac || 10`, `ac || 0`,
  `spellSlots || 0` and `conditions || []`. It builds the two kinds of new record
  (`addCharacter`, `addMonsterToCombat`) and resolves the avatar address
  (`getCharacterImage`).
- `roster.dfy` (module `Roster`): the list transforms of the handlers. These are the HP
  clamp, delete by id, condition toggle, image replacement and the combat ±1 HP steps.
  Each comes with the invariants it keeps: HP within range, unique ids, no duplicate tags.
- `turn_order.dfy` (module `TurnOrder`): `sortedCombatants`. It copies the combatants
  and sorts them stably by `ac || 0`, highest first; index 0 is the "Active Turn".
  `SortByAc` is written as an insertion sort. `StableSortIsUnique` proves that every
  stable sort by the same key gives the same result. So the engine's actual algorithm
  (section 22.1.3.27 of ECMAScript 2019 only requires stability) does not matter.
- `home.dfy` (module `HomeState`): class `Home`, holding the component state. It has one
  method per handler. Each method states the new state as a function of the old one and
  keeps the object invariant `Valid()`: every HP value lies within `0..maxHp`, no record
  of the roster or the session repeats a condition tag, and every catalog template has
  non-negative HP.

Records are datatype values, so the roster, the catalog and the session never share a
record. Changing a combatant cannot change a roster entry, and no handler changes the
catalog.

In these places the code differs from a plain reading of its intent. The model follows
the code each time:
- An id that matches no record makes the HP, toggle and image handlers return the list
  unchanged; no error is raised (`Roster.SetHpUnknownId`).
- Every record carrying the id is updated, and every one is removed.
- The combat buttons clamp on one side only (`Math.max(0, hp - 1)`,
  `Math.min(maxHp, hp + 1)`). Inside the HP range this equals clamping `hp ± 1` into
  `0..maxHp` (`Roster.StepsAreClamps`).
- Conditions are a list, not a set. Toggling a tag twice restores which tags are
  present. When the tag was absent, the exact list comes back. When it was present, all
  its occurrences are dropped and one copy is put back at the end, so the list comes back
  exactly only if the tag occurred once, as the last element. An absent `conditions` field
  becomes `[]` (`Roster.ToggleConditionTwice`).
- The new operative keeps its name untrimmed. Only the guard looks at the trimmed name.

## Model

| member | source | states |
|---|---|---|
| `Seqs.Filter` | app/page.tsx:143 | the result keeps exactly the elements satisfying the predicate and is no longer than the input |
| `Seqs.FilterConcat` | app/page.tsx:143 | filtering distributes over concatenation, so survivors keep their relative order |
| `Text.TrimStart` | app/page.tsx:118 | the result is a suffix of the input; only whitespace was dropped; it does not start with whitespace |
| `Text.TrimEnd` | app/page.tsx:118 | the result is a prefix of the input; only whitespace was dropped; it does not end with whitespace |
| `Text.Trim` | app/page.tsx:118 | `name.trim()`: no longer than the name, and either empty or beginning and ending with a non-whitespace character |
| `Text.TrimEmptyIff` | app/page.tsx:118 | `name.trim()` is empty exactly when every character of the name is whitespace |
| `Text.TrimIsInnerSlice` | app/page.tsx:118 | the trimmed name is a contiguous slice of the name with whitespace outside it and non-whitespace at both of its ends |
| `Entities.NewCharacter` | app/page.tsx:121-128 | the new operative has the given id, the untrimmed name, role and level, hp = maxHp = 30, within range, and no ac, spell slots, conditions or image |
| `Entities.FromMonster` | app/page.tsx:191-201 | the combatant copies name, faction (as role), hp into hp and maxHp and ac; level 1, 0 spell slots, no conditions |
| `Entities.FromMonsterInRange` | app/page.tsx:188-203 | a template with non-negative hp yields a combatant at full health within range, ranked by the template's ac |
| `Entities.DisplayAc` | app/page.tsx:357 | the shown armour is never 0; it equals a set non-zero ac and is 10 otherwise |
| `Entities.RankKey` | app/page.tsx:206 | the ranking key is the ac when set and 0 when absent |
| `Entities.DisplayAcAgreesWithRank` | app/page.tsx:357 | shown armour equals the ranking key unless that key is 0, when it shows 10 |
| `Entities.DisplaySpellSlots` | app/page.tsx:361 | the shown spell slots are the stored value when set and 0 when absent |
| `Entities.ConditionsOf` | app/page.tsx:150 | the tags are the stored list when set and empty when absent |
| `Entities.CharacterImage` | app/page.tsx:179-186 | a non-empty uploaded image is returned as is; otherwise the DiceBear address with the encoded name as seed |
| `Entities.GeneratedAvatarDependsOnNameOnly` | app/page.tsx:183-185 | without an uploaded image, equal names give equal avatar addresses, which start with the service template |
| `Roster.UpdateWhere` | app/page.tsx:136-138 | same length; records with the id are replaced by `f` of themselves; all others are unchanged in place |
| `Roster.UpdateWhereKeepsUniqueIds` | app/page.tsx:136-138 | an id-preserving per-record update keeps ids unique |
| `Roster.AppendFreshKeepsUniqueIds` | app/page.tsx:119-129 | appending a record with an unused id keeps ids unique |
| `Roster.ClampHp` | app/page.tsx:137 | result is 0 for negative input, maxHp above maxHp, the input itself within range, 0 when maxHp is negative, and never negative |
| `Roster.SetHp` | app/page.tsx:134-140 | records with the id get only their hp changed, to 0 / v / maxHp by case (0 when maxHp is negative); other records and the order are unchanged |
| `Roster.SetHpKeepsRange` | app/page.tsx:134-140 | setting hp keeps every record within `0..maxHp` |
| `Roster.SetHpUnknownId` | app/page.tsx:134-140 | an id no record has leaves the list equal to the input |
| `Roster.SetHpIdempotent` | app/page.tsx:134-140 | entering the same value twice equals entering it once |
| `Roster.LoseOneHp` | app/page.tsx:450 | only hp changes; it drops by one when positive and becomes 0 otherwise |
| `Roster.GainOneHp` | app/page.tsx:464 | only hp changes; it rises by one below maxHp and becomes maxHp otherwise |
| `Roster.StepsAreClamps` | app/page.tsx:446-467 | within range, the ±1 steps equal the two-sided clamp of hp ± 1 and stay within range |
| `Roster.StepsUndo` | app/page.tsx:446-467 | within range, a step that changed hp is undone by the opposite step |
| `Roster.DamageOne` | app/page.tsx:446-453 | each combatant with the id becomes `LoseOneHp` of itself: hp drops by exactly one when positive and becomes 0 otherwise; other combatants unchanged |
| `Roster.HealOne` | app/page.tsx:460-467 | each combatant with the id becomes `GainOneHp` of itself: hp rises by exactly one when below maxHp and becomes maxHp otherwise; other combatants unchanged |
| `Roster.CombatStepsKeepRange` | app/page.tsx:446-467 | both combat steps keep every combatant within `0..maxHp` |
| `Roster.RemoveById` | app/page.tsx:142-144 | the result holds exactly the records without the id, and no record with the id |
| `Roster.RemoveByIdKeepsOrder` | app/page.tsx:143 | removal works piecewise on any split of the list, so survivors keep their order |
| `Roster.RemoveByIdAbsent` | app/page.tsx:142-144 | removing an absent id leaves the list unchanged |
| `Roster.RemoveByIdIdempotent` | app/page.tsx:142-144 | a second removal of the same id changes nothing |
| `Roster.RemoveByIdKeepsUniqueIds` | app/page.tsx:143 | removal keeps ids unique |
| `Roster.ToggleIn` | app/page.tsx:153-155 | the tag's membership flips; every other tag's membership is unchanged; an absent tag is appended at the end; a present tag is filtered out, keeping the other tags in order with their repeats |
| `Roster.ToggleTwiceRestoresAbsent` | app/page.tsx:153-155 | toggling an absent tag twice returns exactly the original list |
| `Roster.ToggleTwiceRestoresMembership` | app/page.tsx:153-155 | toggling twice restores membership of every tag |
| `Roster.ToggleKeepsNoDuplicates` | app/page.tsx:153-155 | a duplicate-free tag list stays duplicate-free |
| `Roster.ToggleCondition` | app/page.tsx:146-161 | each record with the id changes only in its tags, which become `ToggleIn` of its old tags (absent counting as none), so the tag's membership flips; other records unchanged |
| `Roster.ToggleConditionKeepsNoDuplicates` | app/page.tsx:146-161 | a record with the id whose tags were distinct still has distinct tags after the toggle |
| `Roster.ToggleConditionKeepsAllTagsDistinct` | app/page.tsx:146-161 | if no record of the list repeats a tag, none does after the toggle |
| `Roster.ToggleConditionTwice` | app/page.tsx:146-161 | two toggles leave other records unchanged, restore every record's tag membership, and restore the exact tags where the tag was absent |
| `Roster.SetCustomImage` | app/page.tsx:169-173 | records with the id get the image reference and nothing else; other records unchanged |
| `Roster.UploadedImageIsShown` | app/page.tsx:169-186 | after an upload the record's avatar is the uploaded image, or the generated one when the reference is empty |
| `TurnOrder.InsertAddsOne` | app/page.tsx:205-207 | inserting adds exactly the one element |
| `TurnOrder.InsertKeepsSorted` | app/page.tsx:205-207 | inserting into a list sorted by descending key keeps it sorted |
| `TurnOrder.InsertTies` | app/page.tsx:205-207 | the inserted element goes in front of the others with its key and disturbs no other key's order |
| `TurnOrder.SortByAcIsPermutation` | app/page.tsx:205 | the turn order is a permutation of the combatants |
| `TurnOrder.SortByAc` | app/page.tsx:205-207 | the turn order is as long as the session, keys never increase along it, and combatants with equal keys keep their relative order (stability) |
| `TurnOrder.EmptyIffNoKeys` | app/page.tsx:205-207 | a list is empty exactly when no key selects any element |
| `TurnOrder.SortedTiesDetermineOrder` | app/page.tsx:205-207 | two key-sorted lists that agree within every key are equal |
| `TurnOrder.StableSortIsUnique` | app/page.tsx:205-207 | every sorted, tie-preserving rearrangement of the combatants equals `SortByAc` |
| `TurnOrder.ActiveIsFirstOfHighest` | app/page.tsx:422-438 | the active combatant is a combatant with the highest key, the first such in insertion order |
| `TurnOrder.ExampleOrder` | app/page.tsx:205-207 | ranks 15, 15, 18, 10 are ordered 18, 15, 15, 10 with the two 15s in original order |
| `HomeState.ToggleOfferedTagOnSeed` | app/page.tsx:111 | on the initial roster, toggling the first offered tag ("Poisoned") for operative "1" gives it exactly that tag and leaves the other operative unchanged |
| `HomeState.Home.constructor` | app/page.tsx:29-115 | the initial roster, catalog, session and form draft, which satisfy the invariant (so no record repeats a tag) and have unique ids |
| `HomeState.Home.AddCharacter` | app/page.tsx:117-132 | a blank (after trim) name changes nothing; otherwise exactly one new operative is appended and the name is cleared; the other lists are unchanged; the invariant is kept; ids stay unique given a fresh id |
| `HomeState.Home.UpdateCharacterHp` | app/page.tsx:134-140 | the roster becomes `SetHp` of the old roster; invariant and unique ids kept |
| `HomeState.Home.DeleteCharacter` | app/page.tsx:142-144 | the roster becomes `RemoveById` of the old roster; invariant and unique ids kept |
| `HomeState.Home.ToggleCondition` | app/page.tsx:146-161 | the roster becomes `ToggleCondition` of the old roster; invariant (which includes tag lists without repeats) and unique ids kept |
| `HomeState.Home.StoreUploadedImage` | app/page.tsx:167-173 | the roster becomes `SetCustomImage` of the old roster; invariant and unique ids kept |
| `HomeState.Home.AddMonsterToCombat` | app/page.tsx:188-203 | exactly one combatant built from the template is appended; catalog and roster unchanged; invariant kept; ids stay unique given a fresh id |
| `HomeState.Home.DamageCombatant` | app/page.tsx:446-453 | the session becomes `DamageOne` of the old session; invariant and unique ids kept |
| `HomeState.Home.HealCombatant` | app/page.tsx:460-467 | the session becomes `HealOne` of the old session; invariant and unique ids kept |
| `HomeState.Home.SortedCombatants` | app/page.tsx:205-207 | a permutation of the session, sorted by descending key, stable; the session itself is not reordered |
| `HomeState.Home.ActiveTurn` | app/page.tsx:422-438 | none exactly when the session is empty; otherwise a combatant with the highest key, the first such in the session |

## Left out

- Rendering, Tailwind classes, the tab switch (`activeTab`) and the dashboard texts are presentation only.
- The form inputs' `onChange` setters are not modelled as methods. They write the draft fields (`newCharName`, `newCharClass`, `newCharLevel`) directly.
- `FileReader` and `readAsDataURL` in `handleImageUpload` are asynchronous browser I/O and are not modelled. Only the list update the callback makes is modelled, with the image data as an opaque string. That callback reads the `characters` captured when the upload started; this stale-closure interleaving is not modelled.
- Ids from `Math.random().toString()` are parameters (`freshId`). The code does not guarantee they are fresh, so unique ids are proved only under the hypothesis that the new id is unused.
- `parseInt` on form input and the `NaN` it can produce are not modelled. Hit points and levels are unbounded integers, and JavaScript numbers' floating-point behaviour is not modelled.
- The average-status percentage and the HP-bar width are floating-point displays and are left out.
- `encodeURIComponent` is not modelled. It is the parameter `encode` of `Entities.CharacterImage`, and its percent-encoding is left out. The DiceBear service is external; only the address string is computed.
- `Monster.damage` and `Monster.abilities` are carried in the record but only displayed. `setMonsters` is never called, so the catalog has no operations.
- `HomeState.Home.Valid`: the invariant also asks that catalog templates have non-negative hp. The code does not check this. It holds for the built-in catalog, and it is what keeps a new combatant within range.
- `TurnOrder.SortByAc`: V8 actually runs TimSort, not insertion sort. `TurnOrder.StableSortIsUnique` shows that any stable sort gives the same result.
