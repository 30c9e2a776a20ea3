# Character resource engine

A Dafny model of the resource bookkeeping of avrae's `Character` object
(`cogs5e/models/character.py`). This is the part of a Discord D&D character
that changes during play:

- hit points and temporary hit points;
- death saves, capped at three successes and three failures;
- character variables (cvars) and the expression resolver that evaluates them;
- the spell-slot ledger, one pool per spell level 1-9 with maxima read from the spellbook;
- named custom counters, whose bounds are cvar expressions and which have a reset scope (`short`, `long`, `none`, `hp`);
- the rests (`on_hp`, `short_rest`, `long_rest`, `reset_all_consumables`), which reset these in a fixed order and report what they reset.

The model has two layers:

- **Pure specification modules.** `Text`, `Cvars`, `SpellSlots`, `CustomCounters`, `DeathSaving` (the capping rule and the bubble line) and `Rests` give each operation as a function. An exception is an `Err` of the `Outcomes.Error` kind the source raises.
- **Imperative classes.** `Characters.Character` and `DeathSaving.DeathSaves` hold the fields the source updates in place. Each method is proved to leave the object in the state the matching function computes, and to return the same outcome.

The two Python dictionaries keep their key order, and `_reset_custom` and `select_consumable` depend on that order. The `custom` dictionary is therefore modelled as a list of names plus a map (`CustomCounters.Registry`). An operation that raises part-way keeps the changes it made before raising: `_reset_custom` leaves the counters it already reset, and a rest keeps the steps it finished. The functions return that partial state next to the exception.

The dice roller that `evaluate_cvar` hands its text to is an outside function, `roll: string -> int`, in `Cvars.Env`. Properties that need it to read integer literals as themselves assume that explicitly (`Cvars.ReadsIntegers`).

Where the code and its documentation disagree, the model follows the code:

- Missing counter bounds default to `-(2**32)` and `2**32 - 1`.
- A maximum of 0 is refused only when both bounds are given.
- `hp` is not an accepted reset token for `create_consumable`.
- `reset_consumable` refuses a counter only when its scope is `none` or it has no maximum.
- In `set_remaining_slots`, the chained test `0 <= value <= max` stops at a negative value. It raises CounterOutOfBounds before the spellbook is consulted.
- `create_consumable` without a maximum evaluates the text `str(None)`, which is `"None"`, for the starting value.
- The `on_hp` that `reset_hp` runs inside `long_rest` resets counters, but its list of names is dropped.

## Model

| member | source | states |
|---|---|---|
| DeathSaving.Capped | cogs5e/models/character.py:83-87 | `min(3, count + num)`: never above 3, equal to 3 exactly when the sum reaches 3, otherwise the sum |
| DeathSaving.CappedStaysInRange | cogs5e/models/character.py:83-87 | raising a count within 0-3 by a non-negative amount keeps it within 0-3 and never lowers it |
| DeathSaving.ThreeSavesSuffice | cogs5e/models/character.py:83-93 | three single saves reach 3 (stable or dead) from any count within 0-3 |
| DeathSaving.DeathSaves.Succeed | cogs5e/models/character.py:83-84 | successes become `Capped(successes, num)`, failures unchanged; `IsStable` (successes equal 3) holds afterwards iff the old count plus `num` reaches 3 |
| DeathSaving.DeathSaves.Fail | cogs5e/models/character.py:86-87 | failures become `Capped(fails, num)`, successes unchanged; `IsDead` (failures equal 3) holds afterwards iff the old count plus `num` reaches 3 |
| DeathSaving.DeathSaves.Reset | cogs5e/models/character.py:95-97 | both counts become 0, so neither stable nor dead |
| DeathSaving.DsStr | cogs5e/models/character.py:359-366 | the death-save line starts with `F ` and ends with ` S` |
| DeathSaving.DsStrCounts | cogs5e/models/character.py:359-366 | for counts within 0-3 the death-save line is 13 characters long, has one filled bubble per save made and one empty bubble per save left |
| Rests.TempHp | cogs5e/models/character.py:355-356 | temporary hit points are never negative; a non-negative value is kept |
| Rests.ModifyHp | cogs5e/models/character.py:336-345 | healing or ignore-temp damage changes only hit points, by the value; other damage sets temporary hit points to `max(0, temp + value)` |
| Rests.DamageAbsorbed | cogs5e/models/character.py:336-345 | damage lowers hit points plus temporary hit points by exactly its amount; hit points drop only once temporary ones are used up, and then temporary ones are 0 |
| Rests.HpStr | cogs5e/models/character.py:321-326 | the hit-point text starts with the current hit points followed by `/` |
| Rests.HpStrShowsTemp | cogs5e/models/character.py:321-326 | the hit-point text ends in `)` exactly when there are temporary hit points |
| Rests.SetHp | cogs5e/models/character.py:328-334 | hit points become the new value, temporary hit points and slots are kept; with a spellbook on_hp completes and, for a positive value, zeroes the death saves; a failure is OutdatedSheet without a spellbook |
| Rests.OnHp | cogs5e/models/character.py:684-692 | hit points, temporary hit points and slots are unchanged; it fails only with OutdatedSheet and no spellbook, and always completes with one; on completion with positive hit points the death saves are zeroed and "Death Saves" reported; with hit points at or below 0 the death saves are kept |
| Rests.ResetHp | cogs5e/models/character.py:347-350 | afterwards temporary hit points are 0 and hit points are the maximum |
| Rests.OnHpSpec | cogs5e/models/character.py:684-692 | with a spellbook, on_hp reports the due `hp` counters, then "Death Saves" iff hit points are positive; death saves are zeroed iff hit points are positive; hit points, slots and counter shapes are unchanged |
| Rests.ShortRestNeedsSpellbook | cogs5e/models/character.py:694-703 | without a spellbook, a short rest that resets slots ends in OutdatedSheet |
| Rests.LongRestNeedsSpellbook | cogs5e/models/character.py:705-717 | without a spellbook no long rest completes: it raises OutdatedSheet |
| Rests.SlotsSucceed | cogs5e/models/character.py:511-518 | with a sound spellbook, resetting slots succeeds and each level holds its maximum with its minimum kept |
| Rests.ShortRestSpec | cogs5e/models/character.py:694-703 | with a sound spellbook, short_rest reports due `hp` counters, "Death Saves" if hp > 0, due `short` counters, then "Spell Slots" iff `srslots`; hit points unchanged; counters of other scopes untouched |
| Rests.LongRestRestoresHp | cogs5e/models/character.py:705-717 | a completed long rest leaves full hit points and no temporary ones, and reports "HP" |
| Rests.LongRestFillsSlots | cogs5e/models/character.py:705-717 | with a sound spellbook a long rest completes and every level holds its maximum |
| Rests.LongRestOpening | cogs5e/models/character.py:705-717 | with a sound spellbook, long_rest's on_hp and short rest complete, report their names in order, keep hit points and counter shapes, and leave counters outside `hp` and `short` alone |
| Rests.LongRestClosing | cogs5e/models/character.py:705-717 | with a sound spellbook, the `long` sweep changes no counter outside `long`; after it long_rest completes with "HP" and then "Spell Slots" unless `srslots`; hit points end full, temporary ones at 0, and no counter outside `hp` changes |
| Rests.LongRestSpec | cogs5e/models/character.py:705-717 | with a sound spellbook long_rest completes and reports, in order: its on_hp names, its short rest's names, the due `long` counters, "HP", and "Spell Slots" iff `srslots` is not set; hit points end full and temporary ones at 0; counter shapes kept |
| Rests.LongRestKeepsUnscoped | cogs5e/models/character.py:705-717 | with a sound spellbook, counters whose scope is not `hp`, `short` or `long` keep their values through a long rest |
| Rests.LongRestFillsLong | cogs5e/models/character.py:705-717 | with a sound spellbook, every due `long` counter with ordered bounds holds its evaluated maximum after a long rest |
| Rests.ResetAllSpec | cogs5e/models/character.py:719-728 | with a sound spellbook reset_all_consumables completes and reports, in order: the on_hp names, the short rest's names, the long rest's names, then the due counters without a scope; hit points end full |
| Rests.ResetAllSucceeds | cogs5e/models/character.py:719-728 | with a sound spellbook reset_all_consumables completes |
| Rests.ShortRest | cogs5e/models/character.py:694-703 | the ledger still has every level 1-9 afterwards |
| Rests.LongRest | cogs5e/models/character.py:705-717 | the ledger still has every level 1-9 afterwards |
| Rests.ResetAll | cogs5e/models/character.py:719-728 | the ledger still has every level 1-9 afterwards |
| Cvars.SetCvar | cogs5e/models/character.py:283-287 | succeeds iff the name has none of `/()[]\.^$*+?\|{}`, else InvalidArgument; on success the value is stored under the name and every other entry keeps its value |
| Cvars.Split | cogs5e/models/character.py:264-276 | `re.split` on the operator class: an odd number of pieces, operator-free text at even positions, single operators at odd ones |
| Cvars.SplitConcat | cogs5e/models/character.py:264-276 | the split pieces concatenate back to the input |
| Cvars.SplitPlain | cogs5e/models/character.py:264-276 | text without operators is a single piece |
| Cvars.SplitAtOperator | cogs5e/models/character.py:264-276 | text before the first operator, the operator, then the split of the rest |
| Cvars.StatTable | cogs5e/models/character.py:267-269 | the stat-variable table has the stored names plus `spell`; `spell` is the spell attack bonus minus the proficiency bonus, and every other name maps to its stored value as decimal text |
| Cvars.Substitute | cogs5e/models/character.py:272-277 | one pass yields at least one character per piece, and ends in a space when there is any piece |
| Cvars.Resolve | cogs5e/models/character.py:264-277 | the text handed to the roller is never empty and ends in the space that follows each token |
| Cvars.Evaluate | cogs5e/models/character.py:260-278 | fails iff there is no spellbook, with OutdatedSheet, because the spell attack bonus is read first |
| Cvars.ResolveLiteral | cogs5e/models/character.py:264-277 | the integer text `n` resolves to `"d "` or `" - d "` when no table names its tokens |
| Cvars.LiteralIgnoresTables | cogs5e/models/character.py:264-277 | a literal's resolved text does not depend on tables that do not name its tokens |
| Cvars.EvaluateLiteral | cogs5e/models/character.py:260-278 | with a spellbook and an integer-reading roller, the text of `n` evaluates to `n` |
| Cvars.CvarNamesStatVariable | cogs5e/models/character.py:270-277 | a cvar whose value names a stat variable resolves to that stat variable's value, because the cvar pass runs before the stat pass |
| SpellSlots.EnsureInitialized | cogs5e/models/character.py:488 | every level 1-9 gets a pool; existing pools are kept and new ones are `0/0` |
| SpellSlots.MaxSlots | cogs5e/models/character.py:385-394 | OutdatedSheet iff there is no spellbook, else the listed maximum or 0 |
| SpellSlots.Remaining | cogs5e/models/character.py:439-447 | levels outside 0-9 are InvalidSpellLevel; a cantrip always has 1; otherwise the pool's value |
| SpellSlots.SetRemaining | cogs5e/models/character.py:474-494 | succeeds iff level is 1-9, value is at least 0, a book exists and value is at most the maximum; each failure gets its exception; only that level's value changes |
| SpellSlots.UseSlot | cogs5e/models/character.py:496-509 | cantrips change nothing; otherwise the level drops by exactly one, or CounterOutOfBounds below the pool minimum |
| SpellSlots.UseTimes | cogs5e/models/character.py:496-509 | repeated uses keep a pool for every level 1-9 |
| SpellSlots.CantripsAreFree | cogs5e/models/character.py:496-501 | any number of level-0 uses leaves the ledger as it was |
| SpellSlots.UseUntilEmpty | cogs5e/models/character.py:496-509 | a level can be used exactly `value - floor` times in a row, each use lowering it by one; the next use raises CounterOutOfBounds |
| SpellSlots.ResetFrom | cogs5e/models/character.py:511-518 | the partial sweep keeps every level 1-9 and the same keys |
| SpellSlots.ResetSlots | cogs5e/models/character.py:511-518 | the ledger keeps every level 1-9 and its keys; without a spellbook it fails with OutdatedSheet and changes nothing |
| SpellSlots.ResetFromFills | cogs5e/models/character.py:511-518 | with non-negative maxima the sweep from a level succeeds, fills every level it visits and leaves the others alone |
| SpellSlots.ResetSlotsFills | cogs5e/models/character.py:511-518 | after reset_spellslots each level 1-9 holds its maximum, minimum kept |
| SpellSlots.ResetSlotsWithoutBook | cogs5e/models/character.py:511-518 | without a spellbook the reset fails at once with OutdatedSheet and changes nothing |
| SpellSlots.SlotLineCounts | cogs5e/models/character.py:457-460 | a level line shows `remaining` filled and `max - remaining` empty bubbles |
| SpellSlots.SlotLine | cogs5e/models/character.py:457-460 | a level line starts with a backquote and ends with a newline |
| SpellSlots.LinesFrom | cogs5e/models/character.py:461-469 | the loop over the remaining levels fails with OutdatedSheet without a spellbook; with one it completes, and the text is empty iff nothing was built yet and every remaining maximum is 0 |
| SpellSlots.SlotsStr | cogs5e/models/character.py:449-472 | the result is never empty; an out-of-range non-zero level fails its assert; without a spellbook it raises OutdatedSheet; a level 1-9 gives exactly its line with the book's maximum and the pool's value; for all levels the text is "No spell slots." iff every maximum 1-9 is 0 |
| CustomCounters.ParseReset | cogs5e/models/character.py:569-570 | accepts exactly no token, `short`, `long` or `none` (never `hp`), else InvalidArgument; the scope's name is the token |
| CustomCounters.Put | cogs5e/models/character.py:592 | a new name is appended to the order and an existing one keeps its place; other counters are unchanged; the registry stays consistent |
| CustomCounters.Get | cogs5e/models/character.py:620-625 | ConsumableNotFound exactly when the name is absent, otherwise the stored counter itself |
| CustomCounters.ValueOf | cogs5e/models/character.py:627-629 | ConsumableNotFound exactly when the name is absent, otherwise the stored counter's value |
| CustomCounters.SetThenValue | cogs5e/models/character.py:596-629 | after a set, the counter reads back the given value (strict) or the clamped value (lenient); every other counter reads as before |
| CustomCounters.Without | cogs5e/models/character.py:649-657 | the order without one name: exactly the other names, in their order (a subsequence) |
| CustomCounters.Remove | cogs5e/models/character.py:649-657 | ConsumableNotFound iff absent; otherwise that name is gone from the table and the order, and the order is the old one without it, the rest in their order |
| CustomCounters.RemoveValid | cogs5e/models/character.py:649-657 | deleting keeps the registry consistent |
| CustomCounters.Create | cogs5e/models/character.py:562-594 | succeeds iff there is a book, a valid reset token, no `.`/`$` in the name, accepted bounds, no reset without a maximum and no bubble display without both bounds; otherwise InvalidArgument (or OutdatedSheet); the stored counter starts at the evaluated maximum |
| CustomCounters.CreateWellFormed | cogs5e/models/character.py:562-594 | a created counter is found under its name, keeps its bounds, has a reset only if a maximum was given and never `hp`, and the registry stays consistent |
| CustomCounters.Bounds | cogs5e/models/character.py:604-605 | the evaluated minimum and maximum, with default texts for missing ones; OutdatedSheet iff no book |
| CustomCounters.DefaultBounds | cogs5e/models/character.py:604-605 | a counter without bounds is bounded by -(2^32) and 2^32 - 1 |
| CustomCounters.Clamp | cogs5e/models/character.py:609 | `min(max(lo, v), hi)`: within the bounds when they are ordered, `v` itself when it is inside |
| CustomCounters.ClampIdempotent | cogs5e/models/character.py:609 | clamping twice is clamping once |
| CustomCounters.SetValue | cogs5e/models/character.py:596-618 | ConsumableNotFound or OutdatedSheet first; strict mode raises CounterOutOfBounds iff the value is out of bounds, lenient mode clamps; only that counter's value changes |
| CustomCounters.SetValueSettles | cogs5e/models/character.py:596-618 | a lenient set stays within ordered bounds, and setting the stored value again changes nothing |
| CustomCounters.ResetOne | cogs5e/models/character.py:659-668 | ConsumableNotFound, NoReset for scope `none` or no maximum, OutdatedSheet without a book; otherwise the value becomes the clamped evaluated maximum and nothing else changes |
| CustomCounters.ResetOneFills | cogs5e/models/character.py:659-668 | with ordered bounds a reset counter holds its evaluated maximum |
| CustomCounters.Due | cogs5e/models/character.py:670-681 | every name on the due list is a listed counter of that scope that can be reset |
| CustomCounters.DueComplete | cogs5e/models/character.py:670-681 | no counter of the scope that can be reset is missing from the due list, and the list keeps the registry's order |
| CustomCounters.SweepFrom | cogs5e/models/character.py:670-681 | counter shapes kept; counters of other scopes and names not visited are untouched; fails only with OutdatedSheet and no book; with a book it reports exactly the due names |
| CustomCounters.ResetCustom | cogs5e/models/character.py:670-681 | the same as SweepFrom, for the whole registry |
| CustomCounters.SweepFills | cogs5e/models/character.py:670-681 | every counter the sweep reports holds its evaluated maximum afterwards, given ordered bounds |
| CustomCounters.SweepAsWritten | cogs5e/models/character.py:12-13 | the sweep as written can fail only with NameError: any exception that reaches the `except NoReset` clause becomes a NameError |
| CustomCounters.AsWrittenAgrees | cogs5e/models/character.py:659-681 | where the as-written sweep completes, it equals the intended one |
| CustomCounters.UnboundedCounterStopsSweep | cogs5e/models/character.py:12-13 | a counter with no maximum and no scope, which create_consumable accepts, stops the as-written sweep with NameError, while the intended sweep skips it |
| CustomCounters.Matching | cogs5e/models/character.py:636-638 | exactly the names equal to (or containing) the query ignoring case, in registry order, and empty iff there is none |
| CustomCounters.Candidates | cogs5e/models/character.py:631-642 | a non-empty list of existing names, or ConsumableNotFound; a name is offered iff it equals the query ignoring case, or, when no name does, iff it contains the query ignoring case; the offered names keep registry order |
| CustomCounters.CandidatesSpec | cogs5e/models/character.py:631-642 | not found iff no name contains the query ignoring case; an exact match excludes partial ones |
| Characters.Character.constructor | cogs5e/models/character.py:112-163 | the loaded state, with the ledger completed to levels 1-9 |
| Characters.Character.SetTempHp | cogs5e/models/character.py:355-356 | temporary hit points become `TempHp(v)`, nothing else changes |
| Characters.Character.ModifyHp | cogs5e/models/character.py:336-345 | hit points and temporary hit points become `Rests.ModifyHp` of the old ones, nothing else changes |
| Characters.Character.SetHp | cogs5e/models/character.py:328-334 | the new state and outcome are `Rests.SetHp` of the old state |
| Characters.Character.ResetHp | cogs5e/models/character.py:347-350 | the new state and outcome are `Rests.ResetHp` of the old state |
| Characters.Character.AddSuccessfulDs | cogs5e/models/character.py:368-372 | one capped success; returns true iff now stable |
| Characters.Character.AddFailedDs | cogs5e/models/character.py:374-378 | one capped failure; returns true iff now dead |
| Characters.Character.ResetDeathSaves | cogs5e/models/character.py:380-382 | both death-save counts become 0, nothing else changes |
| Characters.Character.SetCvar | cogs5e/models/character.py:283-287 | the cvar table and outcome are those of `Cvars.SetCvar`; the resources are unchanged |
| Characters.Character.SetRemainingSlots | cogs5e/models/character.py:474-494 | the ledger and outcome are those of `SpellSlots.SetRemaining` |
| Characters.Character.UseSlot | cogs5e/models/character.py:496-509 | the ledger and outcome are those of `SpellSlots.UseSlot` |
| Characters.Character.ResetSpellslots | cogs5e/models/character.py:511-518 | the loop over levels 1-9 ends with the ledger and outcome of `SpellSlots.ResetSlots` |
| Characters.Character.GetRemainingSlotsStr | cogs5e/models/character.py:449-472 | the loop builds exactly `SpellSlots.SlotsStr` |
| Characters.Character.CreateConsumable | cogs5e/models/character.py:562-594 | the registry and outcome are those of `CustomCounters.Create`; the registry stays consistent |
| Characters.Character.SetConsumable | cogs5e/models/character.py:596-618 | the registry and outcome are those of `CustomCounters.SetValue` |
| Characters.Character.DeleteConsumable | cogs5e/models/character.py:649-657 | the registry and outcome are those of `CustomCounters.Remove` |
| Characters.Character.ResetConsumable | cogs5e/models/character.py:659-668 | the registry and outcome are those of `CustomCounters.ResetOne` |
| Characters.Character.ResetCustom | cogs5e/models/character.py:670-681 | the loop over the counter names ends in the registry and list (or exception) of `CustomCounters.ResetCustom` |
| Characters.Character.OnHp | cogs5e/models/character.py:684-692 | the new state and list are `Rests.OnHp` of the old state |
| Characters.Character.ShortRest | cogs5e/models/character.py:694-703 | the new state and list are `Rests.ShortRest` of the old state |
| Characters.Character.LongRest | cogs5e/models/character.py:705-717 | the new state and list are `Rests.LongRest` of the old state |
| Characters.Character.ResetAllConsumables | cogs5e/models/character.py:719-728 | the new state and list are `Rests.ResetAll` of the old state |

## Left out

- Discord I/O, database commits, sheet embeds and colours: `get_sheet_embed` and `get_color`, which draws from `random`.
- Live-sheet synchronisation: the `_live_integration.sync_*` calls are side effects on an outside service. `set_consumable`'s sync branch names an undefined `counter`; that branch is only reached with a live integration.
- The internals of the dice roller are not modelled: `roll` is a parameter. So is the scripting evaluator behind `parse_cvars`.
- `select_consumable`'s interactive `get_selection` prompt: only the list of candidates it is offered is modelled (`Candidates`).
- Known spells, spell overrides, attacks, skills and saves are not part of the resource engine. The `CustomCounter` class is an empty stub.
- `evaluate_cvar` writes the derived `spell` stat variable back into the stored `stat_cvars`. The model builds that table fresh on each evaluation and does not record the write.
- `_initialize_spellslots` is not defined in the module. Its effect is modelled once, in the constructor (`EnsureInitialized`), and kept as the invariant `Character.Valid`. A ledger that lacks a level would make `get_spellslots()[str(level)]` raise KeyError; the invariant rules that out.
- Text.Lower: only ASCII letters are folded. Python's `str.lower` also folds other Unicode letters.
- Text.TrimLeft, Text.TrimRight: no contract of their own; the strip facts the resolver needs are lemmas about `Strip` and `StripBy`.
- Dice: `roll` is a deterministic function of the text, while the source re-rolls a counter's bound each time it evaluates it (574, 584, 605, 666). Statements about a counter's value after evaluating its maximum hold for bounds whose text contains no dice.
- CustomCounters.ResetOneFills: holds for bounds without dice; with dice the re-rolled maximum may differ from the one read later.
- CustomCounters.SweepFills: holds for bounds without dice, for the same reason.
- CustomCounters.SetValueSettles: holds for bounds without dice, for the same reason.
- CustomCounters.Create: the starting value is the evaluated maximum for bounds without dice; with dice the source rolls it again at 584.
- Rests.LongRestFillsLong: holds for bounds without dice, for the same reason.
- DeathSaving.DeathSaves.IsStable, DeathSaving.DeathSaves.IsDead: plain predicates without a contract of their own; their meaning is stated in the contracts of `Succeed`, `Fail` and `Reset`.
- Integers are unbounded, as in Python. `int(...)` conversions of values that are already integers are the identity.

## Findings

| source | as written | input that shows it | evidently intended | confidence | as-written member | corrected member |
|---|---|---|---|---|---|---|
| cogs5e/models/character.py:12-13 | `NoReset` is raised at 663-664 and caught at 677, but the module never imports it, so `raise NoReset()` raises NameError; any exception that reaches the `except NoReset` clause at 677 also turns into NameError, which escapes `_reset_custom` | a counter created with no maximum and no reset (accepted by `create_consumable`), then `reset_all_consumables()`: its final `_reset_custom(None)` reaches that counter and stops with NameError | a counter that cannot be reset is skipped and the rest completes | high, not executed | CustomCounters.UnboundedCounterStopsSweep | CustomCounters.SweepFrom |
