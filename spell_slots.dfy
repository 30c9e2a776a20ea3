/** The spell-slot ledger: one slot pool (remaining value and minimum) per
    spell level 1-9, maxima read from the character's spellbook, and level 0
    (cantrips) that is never consumed. */
module SpellSlots {
  import opened Outcomes
  import opened Text

  /** One level's pool: `{'value': ..., 'min': ...}`. */
  datatype Slot = Slot(value: int, min: int)

  /** The part of the spellbook the resource engine reads: the per-level
      maxima (a missing level has 0 slots) and the spell attack bonus. */
  datatype Spellbook = Spellbook(slotMax: map<int, int>, attackBonus: int)

  /** The spell levels that have slot pools. */
  const Levels: set<int> := {1, 2, 3, 4, 5, 6, 7, 8, 9}

  /** The ledger holds a pool for each of the levels 1-9. */
  predicate Initialized(slots: map<int, Slot>) {
    forall l :: 1 <= l <= 9 ==> l in slots
  }

  /** The zeroed pools a ledger is completed with before first use; pools
      already present are kept. */
  function EnsureInitialized(slots: map<int, Slot>): (r: map<int, Slot>)
    ensures Initialized(r)
    ensures forall l :: l in slots ==> l in r && r[l] == slots[l]
    ensures forall l :: l in r && l !in slots ==> 1 <= l <= 9 && r[l] == Slot(0, 0)
  {
    map l | l in slots.Keys + Levels :: if l in slots then slots[l] else Slot(0, 0)
  }

  /** The spellbook's maximum for a level; 0 when it lists none. */
  function MaxOf(book: Spellbook, level: int): (m: int) {
    if level in book.slotMax then book.slotMax[level] else 0
  }

  /** get_max_spellslots: OutdatedSheet when there is no spellbook. */
  function MaxSlots(book: Option<Spellbook>, level: int): (r: Result<int>)
    ensures r.Err? <==> book.None?
    ensures r.Err? ==> r.error == OutdatedSheet
    ensures r.Ok? ==> r.value == MaxOf(book.value, level)
  {
    match book
    case None => Err(OutdatedSheet)
    case Some(b) => Ok(MaxOf(b, level))
  }

  /** get_remaining_slots: levels outside 0-9 are rejected and cantrips
      always have one use left. */
  function Remaining(slots: map<int, Slot>, level: int): (r: Result<int>)
    requires Initialized(slots)
    ensures r.Ok? <==> 0 <= level <= 9
    ensures r.Err? ==> r.error == InvalidSpellLevel
    ensures level == 0 ==> r == Ok(1)
    ensures 1 <= level <= 9 ==> r == Ok(slots[level].value)
  {
    if !(0 <= level < 10) then Err(InvalidSpellLevel)
    else if level == 0 then Ok(1)
    else Ok(slots[level].value)
  }

  /** set_remaining_slots. The bounds test `0 <= value <= max` stops at its
      first half, so a negative value is out of bounds even when there is no
      spellbook to read the maximum from. */
  function SetRemaining(slots: map<int, Slot>, book: Option<Spellbook>, level: int, value: int): (r: Result<map<int, Slot>>)
    requires Initialized(slots)
    ensures r.Ok? <==> 1 <= level <= 9 && 0 <= value && book.Some? && value <= MaxOf(book.value, level)
    ensures !(1 <= level <= 9) ==> r == Err(InvalidSpellLevel)
    ensures 1 <= level <= 9 && value < 0 ==> r == Err(CounterOutOfBounds)
    ensures 1 <= level <= 9 && 0 <= value && book.None? ==> r == Err(OutdatedSheet)
    ensures 1 <= level <= 9 && book.Some? && value > MaxOf(book.value, level) ==> r == Err(CounterOutOfBounds)
    ensures r.Ok? ==> r.value.Keys == slots.Keys && Initialized(r.value)
    ensures r.Ok? ==> r.value[level] == Slot(value, slots[level].min)
    ensures r.Ok? ==> forall l :: l in slots && l != level ==> r.value[l] == slots[l]
  {
    if !(0 < level < 10) then Err(InvalidSpellLevel)
    else if value < 0 then Err(CounterOutOfBounds)
    else match MaxSlots(book, level)
      case Err(e) => Err(e)
      case Ok(m) =>
        if value <= m then Ok(slots[level := Slot(value, slots[level].min)])
        else Err(CounterOutOfBounds)
  }

  /** use_slot: a cantrip changes nothing; otherwise the level's value drops
      by one unless that would pass the pool's minimum, and the lowered value
      must still pass set_remaining_slots' checks. */
  function UseSlot(slots: map<int, Slot>, book: Option<Spellbook>, level: int): (r: Result<map<int, Slot>>)
    requires Initialized(slots)
    ensures !(0 <= level <= 9) ==> r == Err(InvalidSpellLevel)
    ensures level == 0 ==> r == Ok(slots)
    ensures 1 <= level <= 9 && slots[level].value - 1 < slots[level].min ==> r == Err(CounterOutOfBounds)
    ensures r.Ok? ==> r.value.Keys == slots.Keys && Initialized(r.value)
    ensures r.Ok? && level != 0 ==> r.value == slots[level := Slot(slots[level].value - 1, slots[level].min)]
    ensures r.Err? ==> r.error in {InvalidSpellLevel, CounterOutOfBounds, OutdatedSheet}
  {
    if !(0 <= level < 10) then Err(InvalidSpellLevel)
    else if level == 0 then Ok(slots)
    else
      var lowered := slots[level].value - 1;
      if lowered < slots[level].min then Err(CounterOutOfBounds)
      else SetRemaining(slots, book, level, lowered)
  }

  /** `k` consecutive use_slot calls on one level, stopping at the first error. */
  function UseTimes(slots: map<int, Slot>, book: Option<Spellbook>, level: int, k: nat): (r: Result<map<int, Slot>>)
    requires Initialized(slots)
    ensures r.Ok? ==> Initialized(r.value)
    decreases k
  {
    if k == 0 then Ok(slots)
    else match UseSlot(slots, book, level)
      case Err(e) => Err(e)
      case Ok(next) => UseTimes(next, book, level, k - 1)
  }

  /** Casting cantrips never changes the ledger, however often. */
  lemma {:induction false} CantripsAreFree(slots: map<int, Slot>, book: Option<Spellbook>, k: nat)
    requires Initialized(slots)
    ensures UseTimes(slots, book, 0, k) == Ok(slots)
  {
    if k > 0 {
      CantripsAreFree(slots, book, k - 1);
    }
  }

  /** A level whose value `v` lies between its floor (the pool minimum, but
      never below 0) and the spellbook maximum can be used `v - floor` times
      in a row, each use lowering it by one, and the next use is out of bounds. */
  lemma {:induction false} UseUntilEmpty(slots: map<int, Slot>, b: Spellbook, level: int, k: nat)
    requires Initialized(slots) && 1 <= level <= 9
    requires var floor := if slots[level].min < 0 then 0 else slots[level].min;
             floor <= slots[level].value <= MaxOf(b, level)
    ensures var s := slots[level];
            var floor := if s.min < 0 then 0 else s.min;
            && (k <= s.value - floor ==> UseTimes(slots, Some(b), level, k) == Ok(slots[level := Slot(s.value - k, s.min)]))
            && (k == s.value - floor + 1 ==> UseTimes(slots, Some(b), level, k) == Err(CounterOutOfBounds))
    decreases k
  {
    var s := slots[level];
    var floor := if s.min < 0 then 0 else s.min;
    if k > 0 {
      if s.value == floor {
        assert UseSlot(slots, Some(b), level) == Err(CounterOutOfBounds);
      } else {
        var next := slots[level := Slot(s.value - 1, s.min)];
        assert UseSlot(slots, Some(b), level) == Ok(next);
        assert UseTimes(slots, Some(b), level, k) == UseTimes(next, Some(b), level, k - 1);
        UseUntilEmpty(next, b, level, k - 1);
        assert next[level] == Slot(s.value - 1, s.min);
        assert next[level := Slot(s.value - 1 - (k - 1), s.min)] == slots[level := Slot(s.value - k, s.min)];
      }
    } else {
      assert slots[level := Slot(s.value, s.min)] == slots;
    }
  }

  /** reset_spellslots from `level` on: each level in turn is set to its
      maximum; the first failure stops the sweep, keeping the levels already
      reset. */
  function ResetFrom(slots: map<int, Slot>, book: Option<Spellbook>, level: int): (r: (map<int, Slot>, Outcome))
    requires Initialized(slots) && 1 <= level <= 10
    ensures Initialized(r.0) && r.0.Keys == slots.Keys
    ensures book.None? && level < 10 ==> r == (slots, Fail(OutdatedSheet))
    decreases 10 - level
  {
    if level == 10 then (slots, Pass)
    else match MaxSlots(book, level)
      case Err(e) => (slots, Fail(e))
      case Ok(m) =>
        match SetRemaining(slots, book, level, m)
        case Err(e) => (slots, Fail(e))
        case Ok(next) => ResetFrom(next, book, level + 1)
  }

  /** reset_spellslots: levels 1-9. */
  function ResetSlots(slots: map<int, Slot>, book: Option<Spellbook>): (r: (map<int, Slot>, Outcome))
    requires Initialized(slots)
    ensures Initialized(r.0) && r.0.Keys == slots.Keys
    ensures book.None? ==> r == (slots, Fail(OutdatedSheet))
  {
    ResetFrom(slots, book, 1)
  }

  /** A spellbook whose maxima are all non-negative. */
  predicate SoundMaxima(b: Spellbook) {
    forall l :: 1 <= l <= 9 ==> MaxOf(b, l) >= 0
  }

  /** With a spellbook of non-negative maxima the sweep from `level` succeeds,
      fills every level it visits and leaves the rest alone. */
  lemma {:induction false} ResetFromFills(slots: map<int, Slot>, b: Spellbook, level: int)
    requires Initialized(slots) && 1 <= level <= 10 && SoundMaxima(b)
    ensures ResetFrom(slots, Some(b), level).1 == Pass
    ensures var after := ResetFrom(slots, Some(b), level).0;
            forall l :: l in slots ==>
              after[l] == if level <= l <= 9 then Slot(MaxOf(b, l), slots[l].min) else slots[l]
    decreases 10 - level
  {
    if level < 10 {
      var next := slots[level := Slot(MaxOf(b, level), slots[level].min)];
      assert SetRemaining(slots, Some(b), level, MaxOf(b, level)) == Ok(next);
      assert ResetFrom(slots, Some(b), level) == ResetFrom(next, Some(b), level + 1);
      ResetFromFills(next, b, level + 1);
    }
  }

  /** After reset_spellslots every level 1-9 holds its maximum. */
  lemma ResetSlotsFills(slots: map<int, Slot>, b: Spellbook)
    requires Initialized(slots) && SoundMaxima(b)
    ensures ResetSlots(slots, Some(b)).1 == Pass
    ensures forall l :: 1 <= l <= 9 ==> ResetSlots(slots, Some(b)).0[l] == Slot(MaxOf(b, l), slots[l].min)
  {
    ResetFromFills(slots, b, 1);
  }

  /** Without a spellbook reset_spellslots fails at once and changes nothing. */
  lemma ResetSlotsWithoutBook(slots: map<int, Slot>)
    requires Initialized(slots)
    ensures ResetSlots(slots, None) == (slots, Fail(OutdatedSheet))
  {
  }

  /** One line of get_remaining_slots_str: the level, then a filled bubble per
      remaining slot and an empty bubble per used one. */
  function SlotLine(level: int, max: int, remaining: int): (line: string)
    ensures line != "" && line[0] == '`' && line[|line| - 1] == '\n'
  {
    "`" + IntStr(level) + "` " + Repeat('\U{25C9}', remaining) + Repeat('\U{3007}', max - remaining) + "\n"
  }

  /** The all-levels loop of get_remaining_slots_str from `level` on, with the
      lines built so far in `acc`; a level whose maximum is 0 prints nothing. */
  function LinesFrom(slots: map<int, Slot>, book: Option<Spellbook>, level: int, acc: string): (r: Result<string>)
    requires Initialized(slots) && 1 <= level <= 10
    ensures book.None? && level < 10 ==> r == Err(OutdatedSheet)
    ensures book.Some? ==> r.Ok? && (r.value == "" <==> acc == "" && forall l :: level <= l <= 9 ==> MaxOf(book.value, l) == 0)
    ensures r.Ok? && acc != "" ==> r.value != "" && r.value[0] == acc[0]
    ensures r.Ok? && acc == "" && r.value != "" ==> r.value[0] == '`'
    decreases 10 - level
  {
    if level == 10 then Ok(acc)
    else match MaxSlots(book, level)
      case Err(e) => Err(e)
      case Ok(m) =>
        LinesFrom(slots, book, level + 1, acc + if m != 0 then SlotLine(level, m, slots[level].value) else "")
  }

  /** get_remaining_slots_str: one level when a non-zero level is given (a
      failing `assert` outside 1-9), otherwise every level with slots, and
      "No spell slots." when nothing was printed. */
  function SlotsStr(slots: map<int, Slot>, book: Option<Spellbook>, level: Option<int>): (r: Result<string>)
    requires Initialized(slots)
    ensures r.Ok? ==> r.value != ""
    ensures level.Some? && level.value != 0 && !(1 <= level.value <= 9) ==> r == Err(AssertionFailure)
    ensures book.None? && (level.None? || 1 <= level.value <= 9 || level.value == 0) ==> r == Err(OutdatedSheet)
    ensures book.Some? && level.Some? && 1 <= level.value <= 9 ==>
              r == Ok(SlotLine(level.value, MaxOf(book.value, level.value), slots[level.value].value))
    ensures book.Some? && (level.None? || level.value == 0) ==>
              (r == Ok("No spell slots.") <==> forall l :: 1 <= l <= 9 ==> MaxOf(book.value, l) == 0)
  {
    var out :=
      if level.Some? && level.value != 0 then
        if !(0 < level.value < 10) then Err(AssertionFailure)
        else match MaxSlots(book, level.value)
          case Err(e) => Err(e)
          case Ok(m) => Ok(SlotLine(level.value, m, slots[level.value].value))
      else LinesFrom(slots, book, 1, "");
    match out
    case Err(e) => Err(e)
    case Ok(s) => Ok(if s == "" then "No spell slots." else s)
  }

  lemma NoBubblesInNumber(i: int)
    ensures Count(IntStr(i), '\U{25C9}') == 0 && Count(IntStr(i), '\U{3007}') == 0
  {
    var digits := NatStr(if i < 0 then -i else i);
    assert '\U{25C9}' !in IntStr(i) && '\U{3007}' !in IntStr(i);
    CountAbsent(IntStr(i), '\U{25C9}');
    CountAbsent(IntStr(i), '\U{3007}');
  }

  /** A level line shows exactly `remaining` filled and `max - remaining`
      empty bubbles when the remaining count is within 0 and the maximum. */
  lemma SlotLineCounts(level: int, max: int, remaining: int)
    requires 0 <= remaining <= max
    ensures Count(SlotLine(level, max, remaining), '\U{25C9}') == remaining
    ensures Count(SlotLine(level, max, remaining), '\U{3007}') == max - remaining
  {
    NoBubblesInNumber(level);
    var n := IntStr(level);
    var a, b := Repeat('\U{25C9}', remaining), Repeat('\U{3007}', max - remaining);
    forall k: char | k == '\U{25C9}' || k == '\U{3007}'
      ensures Count(SlotLine(level, max, remaining), k) == Count(a, k) + Count(b, k)
    {
      CountAppend("`" + n + "` " + a + b, "\n", k);
      CountAppend("`" + n + "` " + a, b, k);
      CountAppend("`" + n + "` ", a, k);
      CountAppend("`" + n, "` ", k);
      CountAppend("`", n, k);
    }
  }
}
