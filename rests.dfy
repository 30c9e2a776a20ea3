/** Hit points and the rest coordinator: damage and healing with temporary
    hit points, and on_hp, short_rest, long_rest and reset_all_consumables,
    which call the lower tiers in a fixed order and report what they reset. */
module Rests {
  import opened Outcomes
  import opened Text
  import opened SpellSlots
  import opened Cvars
  import opened CustomCounters

  /** set_temp_hp: temporary hit points never go below 0. */
  function TempHp(v: int): (r: int)
    ensures r >= 0
    ensures r >= v
    ensures v >= 0 ==> r == v
  {
    if v < 0 then 0 else v
  }

  /** modify_hp: damage (a negative value) goes to temporary hit points
      first unless `ignoreTemp`; the result is the new hit points and
      temporary hit points. */
  function ModifyHp(hp: int, tempHp: int, value: int, ignoreTemp: bool): (r: (int, int))
    ensures value >= 0 || ignoreTemp ==> r == (hp + value, tempHp)
    ensures value < 0 && !ignoreTemp ==> r.1 == TempHp(tempHp + value)
  {
    if value < 0 && !ignoreTemp then
      var absorbed := if tempHp < -value then tempHp else -value;
      (hp + value + absorbed, TempHp(tempHp + value))
    else (hp + value, tempHp)
  }

  /** With non-negative temporary hit points, damage lowers the sum of hit
      points and temporary hit points by exactly its amount, takes hit
      points only once the temporary ones are gone, and leaves the
      temporary ones non-negative. */
  lemma DamageAbsorbed(hp: int, tempHp: int, value: int)
    requires tempHp >= 0 && value < 0
    ensures var (hp', temp') := ModifyHp(hp, tempHp, value, false);
            && hp' + temp' == hp + tempHp + value
            && temp' >= 0
            && hp' <= hp
            && (hp' == hp <==> -value <= tempHp)
            && (temp' == 0 <==> -value >= tempHp)
  {
  }

  /** get_hp_str: `hp/max`, followed by ` (t temp)` when there are
      temporary hit points. */
  function HpStr(hp: int, maxHp: int, tempHp: int): (s: string)
    ensures |s| > |IntStr(hp)| && s[..|IntStr(hp)| + 1] == IntStr(hp) + "/"
  {
    IntStr(hp) + "/" + IntStr(maxHp) + (if tempHp != 0 then " (" + IntStr(tempHp) + " temp)" else "")
  }

  /** The text ends in a parenthesis exactly when temporary hit points are
      shown. */
  lemma HpStrShowsTemp(hp: int, maxHp: int, tempHp: int)
    ensures var s := HpStr(hp, maxHp, tempHp);
            s != [] && (s[|s| - 1] == ')' <==> tempHp != 0)
  {
    var m := NatStr(if maxHp < 0 then -maxHp else maxHp);
    assert IntStr(maxHp)[|IntStr(maxHp)| - 1] == m[|m| - 1];
    assert IsDigit(m[|m| - 1]);
  }

  /** The resources the rests change. */
  datatype Resources = Resources(
    hp: int,
    tempHp: int,
    successes: int,
    fails: int,
    slots: map<int, Slot>,
    counters: Registry)

  /** What the rests read and do not change: the maximum hit points, the
      `srslots` setting (spell slots come back on a short rest) and the
      cvar environment. */
  datatype Sheet = Sheet(maxHp: int, srslots: bool, env: Env)

  /** A rest's result: the resources as far as it got, and the names of what
      it reset or the exception that stopped it. */
  datatype Step = Step(res: Resources, reset: Result<seq<string>>)

  /** _reset_custom on the resources. */
  function Custom(res: Resources, sheet: Sheet, scope: Option<Scope>): (r: Step) {
    var s := ResetCustom(res.counters, sheet.env, scope);
    Step(res.(counters := s.reg), SweepResult(s))
  }

  /** on_hp: counters of the `hp` scope are reset, then the death saves when
      the character has hit points left. */
  function OnHp(res: Resources, sheet: Sheet): (r: Step)
    ensures r.res.hp == res.hp && r.res.tempHp == res.tempHp && r.res.slots == res.slots
    ensures r.reset.Err? ==> r.reset.error == OutdatedSheet && sheet.env.book.None?
    ensures sheet.env.book.Some? ==> r.reset.Ok?
    ensures r.reset.Ok? && res.hp > 0 ==> r.res.successes == 0 && r.res.fails == 0 && "Death Saves" in r.reset.value
    ensures res.hp <= 0 ==> r.res.successes == res.successes && r.res.fails == res.fails
  {
    var s := Custom(res, sheet, Some(Hp));
    match s.reset
    case Err(e) => s
    case Ok(names) =>
      if s.res.hp > 0 then Step(s.res.(successes := 0, fails := 0), Ok(names + ["Death Saves"]))
      else s
  }

  /** set_hp: the new hit points, then on_hp, whose list is dropped. */
  function SetHp(res: Resources, sheet: Sheet, v: int): (r: (Resources, Outcome))
    ensures r.0.hp == v && r.0.tempHp == res.tempHp && r.0.slots == res.slots
    ensures r.1.Fail? ==> r.1.error == OutdatedSheet && sheet.env.book.None?
    ensures sheet.env.book.Some? ==> r.1 == Pass
    ensures r.1 == Pass && v > 0 ==> r.0.successes == 0 && r.0.fails == 0
  {
    var s := OnHp(res.(hp := v), sheet);
    (s.res, if s.reset.Ok? then Pass else Fail(s.reset.error))
  }

  /** reset_hp: temporary hit points to 0, then hit points to the maximum. */
  function ResetHp(res: Resources, sheet: Sheet): (r: (Resources, Outcome))
    ensures r.0.tempHp == 0 && r.0.hp == sheet.maxHp
  {
    SetHp(res.(tempHp := TempHp(0)), sheet, sheet.maxHp)
  }

  /** reset_spellslots on the resources. */
  function Slots(res: Resources, sheet: Sheet): (r: (Resources, Outcome))
    requires Initialized(res.slots)
    ensures Initialized(r.0.slots)
  {
    var (slots, out) := ResetSlots(res.slots, sheet.env.book);
    (res.(slots := slots), out)
  }

  /** Runs `next` after a step that succeeded, appending its names. */
  function Then(first: Step, next: Step): (r: Step) {
    match first.reset
    case Err(_) => first
    case Ok(a) =>
      match next.reset
      case Err(e) => Step(next.res, Err(e))
      case Ok(b) => Step(next.res, Ok(a + b))
  }

  /** short_rest: on_hp, the `short` counters, then the spell slots when
      `srslots` is set. */
  function ShortRest(res: Resources, sheet: Sheet): (r: Step)
    requires Initialized(res.slots)
    ensures Initialized(r.res.slots)
  {
    var s1 := OnHp(res, sheet);
    if s1.reset.Err? then s1
    else
      var s2 := Then(s1, Custom(s1.res, sheet, Some(Short)));
      if s2.reset.Err? || !sheet.srslots then s2
      else
        var (after, out) := Slots(s2.res, sheet);
        if out.Fail? then Step(after, Err(out.error))
        else Step(after, Ok(s2.reset.value + ["Spell Slots"]))
  }

  /** long_rest: on_hp, short_rest, the `long` counters, reset_hp, then the
      spell slots when `srslots` is not set. */
  function LongRest(res: Resources, sheet: Sheet): (r: Step)
    requires Initialized(res.slots)
    ensures Initialized(r.res.slots)
  {
    var s1 := OnHp(res, sheet);
    if s1.reset.Err? then s1
    else
      var s2 := Then(s1, ShortRest(s1.res, sheet));
      if s2.reset.Err? then s2
      else
        var s3 := Then(s2, Custom(s2.res, sheet, Some(Long)));
        if s3.reset.Err? then s3
        else
          var (hpDone, hpOut) := ResetHp(s3.res, sheet);
          if hpOut.Fail? then Step(hpDone, Err(hpOut.error))
          else
            var names := s3.reset.value + ["HP"];
            if sheet.srslots then Step(hpDone, Ok(names))
            else
              var (after, out) := Slots(hpDone, sheet);
              if out.Fail? then Step(after, Err(out.error))
              else Step(after, Ok(names + ["Spell Slots"]))
  }

  /** reset_all_consumables: on_hp, short_rest, long_rest, then the counters
      without a reset scope. */
  function ResetAll(res: Resources, sheet: Sheet): (r: Step)
    requires Initialized(res.slots)
    ensures Initialized(r.res.slots)
  {
    var s1 := OnHp(res, sheet);
    if s1.reset.Err? then s1
    else
      var s2 := Then(s1, ShortRest(s1.res, sheet));
      if s2.reset.Err? then s2
      else
        var s3 := Then(s2, LongRest(s2.res, sheet));
        if s3.reset.Err? then s3
        else Then(s3, Custom(s3.res, sheet, None))
  }

  // ---------- properties ----------

  /** on_hp resets exactly the due `hp` counters, then the death saves iff
      the character has hit points; nothing else changes. */
  lemma OnHpSpec(res: Resources, sheet: Sheet)
    requires sheet.env.book.Some?
    ensures var r := OnHp(res, sheet);
            && r.reset == Ok(Due(res.counters.names, res.counters, Some(Hp))
                             + (if res.hp > 0 then ["Death Saves"] else []))
            && (res.hp > 0 ==> r.res.successes == 0 && r.res.fails == 0)
            && (res.hp <= 0 ==> r.res.successes == res.successes && r.res.fails == res.fails)
            && r.res.hp == res.hp && r.res.tempHp == res.tempHp && r.res.slots == res.slots
            && SameShape(res.counters, r.res.counters)
            && (forall n :: n in res.counters.table && res.counters.table[n].reset != Some(Hp) ==>
                  r.res.counters.table[n] == res.counters.table[n])
  {
    var due := Due(res.counters.names, res.counters, Some(Hp));
    assert due + [] == due;
  }

  /** Without a spellbook a short rest that resets spell slots cannot
      complete. */
  lemma ShortRestNeedsSpellbook(res: Resources, sheet: Sheet)
    requires Initialized(res.slots) && sheet.env.book.None? && sheet.srslots
    ensures ShortRest(res, sheet).reset == Err(OutdatedSheet)
  {
    var s1 := OnHp(res, sheet);
    if s1.reset.Ok? {
      var s2 := Then(s1, Custom(s1.res, sheet, Some(Short)));
      if s2.reset.Ok? {
        ResetSlotsWithoutBook(s2.res.slots);
      }
    }
  }

  /** Without a spellbook no long rest can complete: it resets the spell
      slots either in its short rest or at its end. */
  lemma LongRestNeedsSpellbook(res: Resources, sheet: Sheet)
    requires Initialized(res.slots) && sheet.env.book.None?
    ensures LongRest(res, sheet).reset == Err(OutdatedSheet)
  {
    var s1 := OnHp(res, sheet);
    if s1.reset.Ok? {
      if sheet.srslots {
        ShortRestNeedsSpellbook(s1.res, sheet);
      } else {
        var s2 := Then(s1, ShortRest(s1.res, sheet));
        var s3 := Then(s2, Custom(s2.res, sheet, Some(Long)));
        if s3.reset.Ok? {
          var (hpDone, _) := ResetHp(s3.res, sheet);
          ResetSlotsWithoutBook(hpDone.slots);
        }
      }
    }
  }

  /** A spellbook with non-negative maxima: then every rest completes. */
  predicate Sound(sheet: Sheet) {
    sheet.env.book.Some? && SoundMaxima(sheet.env.book.value)
  }

  lemma SlotsSucceed(res: Resources, sheet: Sheet)
    requires Initialized(res.slots) && Sound(sheet)
    ensures Slots(res, sheet).1 == Pass
    ensures forall l :: 1 <= l <= 9 ==>
              Slots(res, sheet).0.slots[l] == Slot(MaxOf(sheet.env.book.value, l), res.slots[l].min)
  {
    ResetSlotsFills(res.slots, sheet.env.book.value);
  }

  /** short_rest completes with a sound spellbook, reports the due `hp`
      counters, "Death Saves" when there are hit points, the due `short`
      counters and "Spell Slots" iff `srslots` is set; it does not touch the
      hit points or any counter of another scope. */
  lemma ShortRestSpec(res: Resources, sheet: Sheet)
    requires Initialized(res.slots) && Sound(sheet)
    ensures var r := ShortRest(res, sheet);
            var c := res.counters;
            && r.reset == Ok(Due(c.names, c, Some(Hp)) + (if res.hp > 0 then ["Death Saves"] else [])
                             + Due(c.names, c, Some(Short)) + (if sheet.srslots then ["Spell Slots"] else []))
            && r.res.hp == res.hp && r.res.tempHp == res.tempHp
            && SameShape(c, r.res.counters)
            && (forall n :: n in c.table && c.table[n].reset !in {Some(Hp), Some(Short)} ==>
                  r.res.counters.table[n] == c.table[n])
  {
    var c := res.counters;
    OnHpSpec(res, sheet);
    var s1 := OnHp(res, sheet);
    DueSameShape(c.names, c, s1.res.counters, Some(Short));
    var s2 := Then(s1, Custom(s1.res, sheet, Some(Short)));
    SameShapeTrans(c, s1.res.counters, s2.res.counters);
    var labels := Due(c.names, c, Some(Hp)) + (if res.hp > 0 then ["Death Saves"] else [])
                  + Due(c.names, c, Some(Short));
    assert s2.reset == Ok(labels);
    if sheet.srslots {
      SlotsSucceed(s2.res, sheet);
    } else {
      assert labels + [] == labels;
    }
  }

  /** After a long rest that completes, hit points are full, temporary hit
      points are gone and "HP" is reported. */
  lemma LongRestRestoresHp(res: Resources, sheet: Sheet)
    requires Initialized(res.slots)
    ensures var r := LongRest(res, sheet);
            r.reset.Ok? ==> r.res.hp == sheet.maxHp && r.res.tempHp == 0 && "HP" in r.reset.value
  {
    var s1 := OnHp(res, sheet);
    if s1.reset.Ok? {
      var s2 := Then(s1, ShortRest(s1.res, sheet));
      if s2.reset.Ok? {
        var s3 := Then(s2, Custom(s2.res, sheet, Some(Long)));
        if s3.reset.Ok? {
          var (hpDone, _) := ResetHp(s3.res, sheet);
          assert hpDone.hp == sheet.maxHp && hpDone.tempHp == 0;
          assert "HP" in s3.reset.value + ["HP"];
        }
      }
    }
  }

  /** With a sound spellbook a long rest completes and every spell level
      holds its maximum afterwards. */
  lemma LongRestFillsSlots(res: Resources, sheet: Sheet)
    requires Initialized(res.slots) && Sound(sheet)
    ensures var r := LongRest(res, sheet);
            && r.reset.Ok?
            && forall l :: 1 <= l <= 9 ==> r.res.slots[l] == Slot(MaxOf(sheet.env.book.value, l), res.slots[l].min)
  {
    OnHpSpec(res, sheet);
    var s1 := OnHp(res, sheet);
    ShortRestSpec(s1.res, sheet);
    var s2 := Then(s1, ShortRest(s1.res, sheet));
    var s3 := Then(s2, Custom(s2.res, sheet, Some(Long)));
    var (hpDone, _) := ResetHp(s3.res, sheet);
    OnHpSpec(s3.res.(tempHp := 0, hp := sheet.maxHp), sheet);
    if sheet.srslots {
      SlotsSucceed(s1.res, sheet);
    } else {
      SlotsSucceed(hpDone, sheet);
    }
  }

  /** The names on_hp reports for counters `c` and hit points `hp`. */
  function OnHpNames(c: Registry, hp: int): (r: seq<string>) {
    Due(c.names, c, Some(Hp)) + (if hp > 0 then ["Death Saves"] else [])
  }

  /** The names short_rest reports. */
  function ShortRestNames(c: Registry, hp: int, srslots: bool): (r: seq<string>) {
    OnHpNames(c, hp) + Due(c.names, c, Some(Short)) + (if srslots then ["Spell Slots"] else [])
  }

  /** The names long_rest reports: its own on_hp, its short rest, the `long`
      counters, "HP", and the spell slots when the short rest did not reset
      them. */
  function LongRestNames(c: Registry, hp: int, srslots: bool): (r: seq<string>) {
    OnHpNames(c, hp) + ShortRestNames(c, hp, srslots) + Due(c.names, c, Some(Long)) + ["HP"]
    + (if srslots then [] else ["Spell Slots"])
  }

  /** short_rest reports the same names for every registry of one shape. */
  lemma ShortRestNamesSameShape(a: Registry, b: Registry, hp: int, srslots: bool)
    requires SameShape(a, b)
    ensures ShortRestNames(a, hp, srslots) == ShortRestNames(b, hp, srslots)
    ensures OnHpNames(a, hp) == OnHpNames(b, hp)
  {
    DueSameShape(a.names, a, b, Some(Hp));
    DueSameShape(a.names, a, b, Some(Short));
  }

  /** The first two stages of long_rest with a sound spellbook: on_hp, then
      the short rest, reporting their names and keeping the shape. */
  lemma LongRestOpening(res: Resources, sheet: Sheet)
    requires Initialized(res.slots) && Sound(sheet)
    ensures var s1 := OnHp(res, sheet);
            var s2 := Then(s1, ShortRest(s1.res, sheet));
            && s2.reset == Ok(OnHpNames(res.counters, res.hp) + ShortRestNames(res.counters, res.hp, sheet.srslots))
            && s2.res.hp == res.hp
            && Initialized(s2.res.slots)
            && SameShape(res.counters, s2.res.counters)
            && (forall n :: n in res.counters.table && res.counters.table[n].reset !in {Some(Hp), Some(Short)} ==>
                  s2.res.counters.table[n] == res.counters.table[n])
  {
    OnHpSpec(res, sheet);
    var s1 := OnHp(res, sheet);
    ShortRestSpec(s1.res, sheet);
    ShortRestNamesSameShape(res.counters, s1.res.counters, res.hp, sheet.srslots);
    SameShapeTrans(res.counters, s1.res.counters, ShortRest(s1.res, sheet).res.counters);
  }

  /** The stages of long_rest after its `long` sweep: reset_hp, which
      changes no counter outside the `hp` scope, "HP", then the spell slots
      unless the short rest reset them. */
  lemma LongRestClosing(res: Resources, sheet: Sheet)
    requires Initialized(res.slots) && Sound(sheet)
    ensures var s1 := OnHp(res, sheet);
            var s2 := Then(s1, ShortRest(s1.res, sheet));
            var s3 := Then(s2, Custom(s2.res, sheet, Some(Long)));
            var r := LongRest(res, sheet);
            && s3.reset.Ok?
            && r.reset == Ok(s3.reset.value + ["HP"] + (if sheet.srslots then [] else ["Spell Slots"]))
            && r.res.hp == sheet.maxHp && r.res.tempHp == 0
            && SameShape(s3.res.counters, r.res.counters)
            && (forall n :: n in s2.res.counters.table && s2.res.counters.table[n].reset != Some(Long) ==>
                  n in s3.res.counters.table && s3.res.counters.table[n] == s2.res.counters.table[n])
            && forall n :: n in s3.res.counters.table && s3.res.counters.table[n].reset != Some(Hp) ==>
                 n in r.res.counters.table && r.res.counters.table[n] == s3.res.counters.table[n]
  {
    LongRestOpening(res, sheet);
    var s1 := OnHp(res, sheet);
    var s2 := Then(s1, ShortRest(s1.res, sheet));
    var s3 := Then(s2, Custom(s2.res, sheet, Some(Long)));
    assert s3.reset.Ok?;
    var (hpDone, hpOut) := ResetHp(s3.res, sheet);
    OnHpSpec(s3.res.(tempHp := 0, hp := sheet.maxHp), sheet);
    assert hpOut == Pass;
    var names := s3.reset.value + ["HP"];
    if sheet.srslots {
      assert names + [] == names;
    } else {
      SlotsSucceed(hpDone, sheet);
    }
    assert LongRest(res, sheet).res.counters == hpDone.counters;
  }

  /** long_rest completes with a sound spellbook and reports, in order, its
      on_hp names, its short rest's names, the due `long` counters, "HP" and
      "Spell Slots" unless the short rest reset them; hit points end full and
      temporary hit points at 0. */
  lemma LongRestSpec(res: Resources, sheet: Sheet)
    requires Initialized(res.slots) && Sound(sheet)
    ensures var r := LongRest(res, sheet);
            var c := res.counters;
            && r.reset == Ok(LongRestNames(c, res.hp, sheet.srslots))
            && r.res.hp == sheet.maxHp && r.res.tempHp == 0
            && SameShape(c, r.res.counters)
  {
    var c := res.counters;
    LongRestOpening(res, sheet);
    LongRestClosing(res, sheet);
    var s1 := OnHp(res, sheet);
    var s2 := Then(s1, ShortRest(s1.res, sheet));
    var s3 := Then(s2, Custom(s2.res, sheet, Some(Long)));
    DueSameShape(c.names, c, s2.res.counters, Some(Long));
    assert s3.reset == Ok(s2.reset.value + Due(c.names, c, Some(Long)));
    SameShapeTrans(c, s2.res.counters, s3.res.counters);
    SameShapeTrans(c, s3.res.counters, LongRest(res, sheet).res.counters);
  }

  /** A long rest with a sound spellbook leaves every counter of no rest
      scope as it was. */
  lemma LongRestKeepsUnscoped(res: Resources, sheet: Sheet)
    requires Initialized(res.slots) && Sound(sheet)
    ensures var r := LongRest(res, sheet);
            var c := res.counters;
            forall n :: n in c.table && c.table[n].reset !in {Some(Hp), Some(Short), Some(Long)} ==>
              n in r.res.counters.table && r.res.counters.table[n] == c.table[n]
  {
    LongRestOpening(res, sheet);
    LongRestClosing(res, sheet);
    var c := res.counters;
    var s1 := OnHp(res, sheet);
    var s2 := Then(s1, ShortRest(s1.res, sheet));
    var s3 := Then(s2, Custom(s2.res, sheet, Some(Long)));
    var c2, c3 := s2.res.counters, s3.res.counters;
    forall n | n in c.table && c.table[n].reset !in {Some(Hp), Some(Short), Some(Long)}
      ensures n in c3.table && c3.table[n] == c.table[n]
    {
      assert c2.table[n] == c.table[n];
    }
  }

  /** After a long rest with a sound spellbook, every due `long` counter
      whose minimum does not exceed its maximum holds its evaluated maximum. */
  lemma LongRestFillsLong(res: Resources, sheet: Sheet, n: string)
    requires Initialized(res.slots) && Sound(sheet) && Valid(res.counters)
    requires n in Due(res.counters.names, res.counters, Some(Long))
    requires Bounds(sheet.env, res.counters.table[n]).value.0 <= Bounds(sheet.env, res.counters.table[n]).value.1
    ensures var after := LongRest(res, sheet).res.counters;
            n in after.table && after.table[n].value == Evaluate(sheet.env, res.counters.table[n].max.value).value
  {
    var c := res.counters;
    LongRestOpening(res, sheet);
    var s1 := OnHp(res, sheet);
    var s2 := Then(s1, ShortRest(s1.res, sheet));
    var c2 := s2.res.counters;
    SameShapeValid(c, c2);
    DueSameShape(c.names, c, c2, Some(Long));
    assert c2.table[n] == c.table[n].(value := c2.table[n].value);
    SweepFills(c2, sheet.env, Some(Long), c2.names, [], n);
    var swept := Then(s2, Custom(s2.res, sheet, Some(Long))).res.counters;
    assert swept.table[n].value == Evaluate(sheet.env, c.table[n].max.value).value;
    assert swept.table[n].reset == Some(Long);
    LongRestClosing(res, sheet);
  }

  /** reset_all_consumables completes with a sound spellbook and reports, in
      order, its on_hp names, its short rest's names, its long rest's names
      and the due counters without a reset scope. */
  lemma ResetAllSpec(res: Resources, sheet: Sheet)
    requires Initialized(res.slots) && Sound(sheet)
    ensures var r := ResetAll(res, sheet);
            var c := res.counters;
            && r.reset == Ok(OnHpNames(c, res.hp) + ShortRestNames(c, res.hp, sheet.srslots)
                             + LongRestNames(c, res.hp, sheet.srslots) + Due(c.names, c, None))
            && r.res.hp == sheet.maxHp && r.res.tempHp == 0
            && SameShape(c, r.res.counters)
  {
    var c := res.counters;
    LongRestOpening(res, sheet);
    var s1 := OnHp(res, sheet);
    var s2 := Then(s1, ShortRest(s1.res, sheet));
    LongRestSpec(s2.res, sheet);
    var c2 := s2.res.counters;
    ShortRestNamesSameShape(c, c2, res.hp, sheet.srslots);
    DueSameShape(c.names, c, c2, Some(Long));
    var s3 := Then(s2, LongRest(s2.res, sheet));
    SameShapeTrans(c, c2, s3.res.counters);
    DueSameShape(c.names, c, s3.res.counters, None);
    SameShapeTrans(c, s3.res.counters, ResetAll(res, sheet).res.counters);
  }

  /** reset_all_consumables completes with a sound spellbook. */
  lemma ResetAllSucceeds(res: Resources, sheet: Sheet)
    requires Initialized(res.slots) && Sound(sheet)
    ensures ResetAll(res, sheet).reset.Ok?
  {
    var s1 := OnHp(res, sheet);
    OnHpSpec(res, sheet);
    ShortRestSpec(s1.res, sheet);
    var s2 := Then(s1, ShortRest(s1.res, sheet));
    LongRestFillsSlots(s2.res, sheet);
  }
}
