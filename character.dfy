/** The character object: the resource fields the engine updates in place
    (hit points, temporary hit points, death saves, cvars, the spell-slot
    ledger and the custom counters) and the methods that update them, each
    proved to leave the object in the state its specification function
    computes. */
module Characters {
  import opened Outcomes
  import opened Text
  import opened SpellSlots
  import opened Cvars
  import opened CustomCounters
  import opened Rests
  import opened DeathSaving

  class Character {
    var hp: int
    const maxHp: int
    var tempHp: int
    const deathSaves: DeathSaves
    var cvars: map<string, string>
    const statVars: map<string, int>
    const profBonus: int
      /** The `srslots` setting: spell slots come back on a short rest. */
    const srslots: bool
    const book: Option<Spellbook>
      /** The dice roller the evaluated cvar text is handed to. */
    const roll: string -> int
    var slots: map<int, Slot>
    var counters: Registry

    /** The ledger has every level 1-9 and the counter registry is
        consistent. */
    ghost predicate Valid()
      reads this
    {
      Initialized(slots) && CustomCounters.Valid(counters)
    }

    /** What evaluate_cvar reads. */
    function CvarEnv(): Env
      reads this
    {
      Env(cvars, statVars, profBonus, book, roll)
    }

    /** What the rests read and do not change. */
    function Sheet(): Sheet
      reads this
    {
      Rests.Sheet(maxHp, srslots, CvarEnv())
    }

    /** What the rests change. */
    function State(): Resources
      reads this, deathSaves
    {
      Resources(hp, tempHp, deathSaves.successes, deathSaves.fails, slots, counters)
    }

    /** A character loaded from its stored fields; missing spell levels are
        completed with empty pools. */
    constructor(maxHp: int, hp: int, tempHp: int, successes: int, fails: int,
                cvars: map<string, string>, statVars: map<string, int>, profBonus: int,
                srslots: bool, book: Option<Spellbook>, roll: string -> int,
                slots: map<int, Slot>, counters: Registry)
      requires CustomCounters.Valid(counters)
      ensures Valid() && fresh(deathSaves)
      ensures State() == Resources(hp, tempHp, successes, fails, EnsureInitialized(slots), counters)
      ensures Sheet() == Rests.Sheet(maxHp, srslots, Env(cvars, statVars, profBonus, book, roll))
    {
      this.maxHp := maxHp;
      this.hp := hp;
      this.tempHp := tempHp;
      this.deathSaves := new DeathSaves(successes, fails);
      this.cvars := cvars;
      this.statVars := statVars;
      this.profBonus := profBonus;
      this.srslots := srslots;
      this.book := book;
      this.roll := roll;
      this.slots := EnsureInitialized(slots);
      this.counters := counters;
    }

    // ---------- hit points ----------

    /** set_temp_hp. */
    method SetTempHp(v: int)
      modifies this
      ensures State() == old(State()).(tempHp := TempHp(v)) && cvars == old(cvars)
      ensures tempHp >= 0
    {
      tempHp := if v < 0 then 0 else v;
    }

    /** modify_hp. */
    method ModifyHp(value: int, ignoreTemp: bool)
      modifies this
      ensures (hp, tempHp) == Rests.ModifyHp(old(hp), old(tempHp), value, ignoreTemp)
      ensures State() == old(State()).(hp := hp, tempHp := tempHp) && cvars == old(cvars)
    {
      var v := value;
      if value < 0 && !ignoreTemp {
        var thp := tempHp;
        SetTempHp(tempHp + value);
        v := v + if thp < -value then thp else -value;
      }
      hp := hp + v;
    }

    /** set_hp: the new hit points, then on_hp. */
    method SetHp(v: int) returns (out: Outcome)
      requires Valid()
      modifies this, deathSaves
      ensures Valid()
      ensures (State(), out) == Rests.SetHp(old(State()), old(Sheet()), v) && cvars == old(cvars)
    {
      hp := v;
      var labels := OnHp();
      out := labels.ToOutcome();
    }

    /** reset_hp. */
    method ResetHp() returns (out: Outcome)
      requires Valid()
      modifies this, deathSaves
      ensures Valid()
      ensures (State(), out) == Rests.ResetHp(old(State()), old(Sheet())) && cvars == old(cvars)
    {
      SetTempHp(0);
      out := SetHp(maxHp);
    }

    // ---------- death saves ----------

    /** add_successful_ds: one success; reports whether the character is
        now stable. */
    method AddSuccessfulDs() returns (stable: bool)
      modifies deathSaves
      ensures deathSaves.successes == Capped(old(deathSaves.successes), 1)
      ensures deathSaves.fails == old(deathSaves.fails)
      ensures stable <==> old(deathSaves.successes) >= 2
    {
      deathSaves.Succeed(1);
      stable := deathSaves.IsStable();
    }

    /** add_failed_ds: one failure; reports whether the character is now
        dead. */
    method AddFailedDs() returns (dead: bool)
      modifies deathSaves
      ensures deathSaves.fails == Capped(old(deathSaves.fails), 1)
      ensures deathSaves.successes == old(deathSaves.successes)
      ensures dead <==> old(deathSaves.fails) >= 2
    {
      deathSaves.Fail(1);
      dead := deathSaves.IsDead();
    }

    /** reset_death_saves. */
    method ResetDeathSaves()
      modifies deathSaves
      ensures State() == old(State()).(successes := 0, fails := 0)
    {
      deathSaves.Reset();
    }

    // ---------- cvars ----------

    /** set_cvar. */
    method SetCvar(name: string, val: string) returns (out: Outcome)
      modifies this
      ensures out == Cvars.SetCvar(old(cvars), name, val).ToOutcome()
      ensures cvars == Cvars.SetCvar(old(cvars), name, val).GetOr(old(cvars))
      ensures State() == old(State())
    {
      var i := 0;
      while i < |name|
        invariant 0 <= i <= |name|
        invariant forall k :: 0 <= k < i ==> !IsReservedInName(name[k])
      {
        if IsReservedInName(name[i]) {
          return Fail(InvalidArgument);
        }
        i := i + 1;
      }
      cvars := cvars[name := val];
      out := Pass;
    }

    // ---------- spell slots ----------

    /** set_remaining_slots. */
    method SetRemainingSlots(level: int, value: int) returns (out: Outcome)
      requires Valid()
      modifies this
      ensures Valid()
      ensures out == SetRemaining(old(slots), book, level, value).ToOutcome()
      ensures State() == old(State()).(slots := SetRemaining(old(slots), book, level, value).GetOr(old(slots)))
      ensures cvars == old(cvars)
    {
      if !(0 < level < 10) {
        return Fail(InvalidSpellLevel);
      }
      if value < 0 {
        return Fail(CounterOutOfBounds);
      }
      var max := MaxSlots(book, level);
      if max.Err? {
        return Fail(max.error);
      }
      if !(value <= max.value) {
        return Fail(CounterOutOfBounds);
      }
      slots := slots[level := Slot(value, slots[level].min)];
      out := Pass;
    }

    /** use_slot. */
    method UseSlot(level: int) returns (out: Outcome)
      requires Valid()
      modifies this
      ensures Valid()
      ensures out == SpellSlots.UseSlot(old(slots), book, level).ToOutcome()
      ensures State() == old(State()).(slots := SpellSlots.UseSlot(old(slots), book, level).GetOr(old(slots)))
      ensures cvars == old(cvars)
    {
      if !(0 <= level < 10) {
        return Fail(InvalidSpellLevel);
      }
      if level == 0 {
        return Pass;
      }
      var lowered := slots[level].value - 1;
      if lowered < slots[level].min {
        return Fail(CounterOutOfBounds);
      }
      out := SetRemainingSlots(level, lowered);
    }

    /** reset_spellslots: every level 1-9 in turn set to its maximum. */
    method ResetSpellslots() returns (out: Outcome)
      requires Valid()
      modifies this
      ensures Valid()
      ensures (slots, out) == ResetSlots(old(slots), book)
      ensures State() == old(State()).(slots := slots) && cvars == old(cvars)
    {
      var level := 1;
      while level < 10
        invariant 1 <= level <= 10 && Valid()
        invariant ResetFrom(slots, book, level) == ResetSlots(old(slots), book)
        invariant State() == old(State()).(slots := slots) && cvars == old(cvars)
      {
        var max := MaxSlots(book, level);
        if max.Err? {
          return Fail(max.error);
        }
        out := SetRemainingSlots(level, max.value);
        if out.Fail? {
          return;
        }
        level := level + 1;
      }
      out := Pass;
    }

    /** get_remaining_slots_str. */
    method GetRemainingSlotsStr(level: Option<int>) returns (r: Result<string>)
      requires Valid()
      ensures r == SlotsStr(slots, book, level)
    {
      var out := "";
      if level.Some? && level.value != 0 {
        if !(0 < level.value < 10) {
          return Err(AssertionFailure);
        }
        var max := MaxSlots(book, level.value);
        if max.Err? {
          return Err(max.error);
        }
        out := SlotLine(level.value, max.value, slots[level.value].value);
      } else {
        var l := 1;
        while l < 10
          invariant 1 <= l <= 10
          invariant LinesFrom(slots, book, l, out) == LinesFrom(slots, book, 1, "")
        {
          var max := MaxSlots(book, l);
          if max.Err? {
            return Err(max.error);
          }
          if max.value != 0 {
            out := out + SlotLine(l, max.value, slots[l].value);
          } else {
            assert out + "" == out;
          }
          l := l + 1;
        }
        assert LinesFrom(slots, book, 1, "") == Ok(out);
      }
      if out == "" {
        out := "No spell slots.";
      }
      r := Ok(out);
    }

    // ---------- custom counters ----------

    /** create_consumable. */
    method CreateConsumable(name: string, maxE: Option<string>, minE: Option<string>, reset: Option<string>,
                            display: Option<string>, live: Option<string>) returns (out: Outcome)
      requires Valid()
      modifies this
      ensures Valid()
      ensures var r := Create(old(counters), old(CvarEnv()), name, maxE, minE, reset, display, live);
              out == r.ToOutcome() && counters == r.GetOr(old(counters))
      ensures State() == old(State()).(counters := counters) && cvars == old(cvars)
    {
      var r := Create(counters, CvarEnv(), name, maxE, minE, reset, display, live);
      if r.Err? {
        return Fail(r.error);
      }
      counters := r.value;
      out := Pass;
    }

    /** set_consumable. */
    method SetConsumable(name: string, v: int, strict: bool) returns (out: Outcome)
      requires Valid()
      modifies this
      ensures Valid()
      ensures var r := SetValue(old(counters), old(CvarEnv()), name, v, strict);
              out == r.ToOutcome() && counters == r.GetOr(old(counters))
      ensures State() == old(State()).(counters := counters) && cvars == old(cvars)
    {
      ghost var spec := SetValue(counters, CvarEnv(), name, v, strict);
      if name !in counters.table {
        return Fail(ConsumableNotFound);
      }
      var c := counters.table[name];
      var bounds := Bounds(CvarEnv(), c);
      if bounds.Err? {
        return Fail(bounds.error);
      }
      var (lo, hi) := bounds.value;
      var stored := v;
      if strict {
        if !(lo <= v <= hi) {
          return Fail(CounterOutOfBounds);
        }
      } else {
        stored := Clamp(v, lo, hi);
      }
      var next := Registry(counters.names, counters.table[name := c.(value := stored)]);
      assert spec == Ok(next);
      SameShapeValid(counters, next);
      counters := next;
      out := Pass;
    }

    /** delete_consumable. */
    method DeleteConsumable(name: string) returns (out: Outcome)
      requires Valid()
      modifies this
      ensures Valid()
      ensures var r := Remove(old(counters), name);
              out == r.ToOutcome() && counters == r.GetOr(old(counters))
      ensures State() == old(State()).(counters := counters) && cvars == old(cvars)
    {
      var r := Remove(counters, name);
      if r.Err? {
        return Fail(r.error);
      }
      RemoveValid(counters, name);
      counters := r.value;
      out := Pass;
    }

    /** reset_consumable. */
    method ResetConsumable(name: string) returns (out: Outcome)
      requires Valid()
      modifies this
      ensures Valid()
      ensures var r := ResetOne(old(counters), old(CvarEnv()), name);
              out == r.ToOutcome() && counters == r.GetOr(old(counters))
      ensures State() == old(State()).(counters := counters) && cvars == old(cvars)
    {
      var c := Get(counters, name);
      if c.Err? {
        return Fail(c.error);
      }
      if c.value.reset == Some(Never) || c.value.max.None? {
        return Fail(NoReset);
      }
      var max := Evaluate(CvarEnv(), c.value.max.value);
      if max.Err? {
        return Fail(max.error);
      }
      out := SetConsumable(name, max.value, false);
    }

    /** _reset_custom: every counter of the scope is reset, in order; those
        that cannot be reset are skipped; the names reset are returned. */
    method ResetCustom(scope: Option<Scope>) returns (r: Result<seq<string>>)
      requires Valid()
      modifies this
      ensures Valid()
      ensures var s := CustomCounters.ResetCustom(old(counters), old(CvarEnv()), scope);
              counters == s.reg && r == SweepResult(s)
      ensures State() == old(State()).(counters := counters) && cvars == old(cvars)
    {
      var pending := counters.names;
      var done := [];
      ghost var total := CustomCounters.ResetCustom(counters, CvarEnv(), scope);
      while pending != []
        invariant Valid()
        invariant SweepFrom(counters, CvarEnv(), scope, pending, done) == total
        invariant State() == old(State()).(counters := counters) && cvars == old(cvars)
        decreases |pending|
      {
        var name := pending[0];
        if name in counters.table && counters.table[name].reset == scope {
          var out := ResetConsumable(name);
          if out == Pass {
            done := done + [name];
          } else if out.error != NoReset {
            return Err(out.error);
          }
        }
        pending := pending[1..];
      }
      r := Ok(done);
    }

    // ---------- rests ----------

    /** on_hp. */
    method OnHp() returns (r: Result<seq<string>>)
      requires Valid()
      modifies this, deathSaves
      ensures Valid()
      ensures Step(State(), r) == Rests.OnHp(old(State()), old(Sheet())) && cvars == old(cvars)
    {
      r := ResetCustom(Some(Hp));
      if r.Err? {
        return;
      }
      if hp > 0 {
        ResetDeathSaves();
        r := Ok(r.value + ["Death Saves"]);
      }
    }

    /** short_rest. */
    method ShortRest() returns (r: Result<seq<string>>)
      requires Valid()
      modifies this, deathSaves
      ensures Valid()
      ensures Step(State(), r) == Rests.ShortRest(old(State()), old(Sheet())) && cvars == old(cvars)
    {
      r := OnHp();
      if r.Err? {
        return;
      }
      var short := ResetCustom(Some(Short));
      if short.Err? {
        return short;
      }
      r := Ok(r.value + short.value);
      if srslots {
        var out := ResetSpellslots();
        if out.Fail? {
          return Err(out.error);
        }
        r := Ok(r.value + ["Spell Slots"]);
      }
    }

    /** long_rest. */
    method LongRest() returns (r: Result<seq<string>>)
      requires Valid()
      modifies this, deathSaves
      ensures Valid()
      ensures Step(State(), r) == Rests.LongRest(old(State()), old(Sheet())) && cvars == old(cvars)
    {
      r := OnHp();
      if r.Err? {
        return;
      }
      var short := ShortRest();
      if short.Err? {
        return short;
      }
      r := Ok(r.value + short.value);
      var long := ResetCustom(Some(Long));
      if long.Err? {
        return long;
      }
      r := Ok(r.value + long.value);
      var out := ResetHp();
      if out.Fail? {
        return Err(out.error);
      }
      r := Ok(r.value + ["HP"]);
      if !srslots {
        out := ResetSpellslots();
        if out.Fail? {
          return Err(out.error);
        }
        r := Ok(r.value + ["Spell Slots"]);
      }
    }

    /** reset_all_consumables. */
    method ResetAllConsumables() returns (r: Result<seq<string>>)
      requires Valid()
      modifies this, deathSaves
      ensures Valid()
      ensures Step(State(), r) == Rests.ResetAll(old(State()), old(Sheet())) && cvars == old(cvars)
    {
      r := OnHp();
      if r.Err? {
        return;
      }
      var short := ShortRest();
      if short.Err? {
        return short;
      }
      r := Ok(r.value + short.value);
      var long := LongRest();
      if long.Err? {
        return long;
      }
      r := Ok(r.value + long.value);
      var rest := ResetCustom(None);
      if rest.Err? {
        return rest;
      }
      r := Ok(r.value + rest.value);
    }
  }
}
