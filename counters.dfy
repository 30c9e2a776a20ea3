/** The custom-counter registry: named counters kept in insertion order, each
    with a value, optional bound expressions (evaluated as cvars whenever they
    are needed), an optional reset scope, a display type and a live-sheet id. */
module CustomCounters {
  import opened Outcomes
  import opened Text
  import opened Cvars
  import SpellSlots

  /** The reset scopes: `short`, `long`, `none` (never reset) and `hp`
      (reset whenever hit points are set). */
  datatype Scope = Short | Long | Never | Hp

  function ScopeName(s: Scope): (r: string) {
    match s
    case Short => "short"
    case Long => "long"
    case Never => "none"
    case Hp => "hp"
  }

  /** The reset tokens create_consumable accepts: `short`, `long`, `none`, or
      no token at all; `hp` is not among them. */
  function ParseReset(token: Option<string>): (r: Result<Option<Scope>>)
    ensures r.Ok? <==> token.None? || token.value in {"short", "long", "none"}
    ensures r.Err? ==> r.error == InvalidArgument
    ensures r.Ok? ==> (r.value.None? <==> token.None?)
    ensures r.Ok? && token.Some? ==> ScopeName(r.value.value) == token.value && r.value.value != Hp
  {
    match token
    case None => Ok(None)
    case Some(t) =>
      if t == "short" then Ok(Some(Short))
      else if t == "long" then Ok(Some(Long))
      else if t == "none" then Ok(Some(Never))
      else Err(InvalidArgument)
  }

  /** One counter: `{'value', 'max', 'min', 'reset', 'type', 'live'}`. */
  datatype Counter = Counter(
    value: int,
    max: Option<string>,
    min: Option<string>,
    reset: Option<Scope>,
    display: Option<string>,
    live: Option<string>)

  /** The `custom` dictionary: its keys in insertion order and its entries. */
  datatype Registry = Registry(names: seq<string>, table: map<string, Counter>)

  /** No name is listed twice. */
  predicate Distinct(names: seq<string>) {
    forall i, j :: 0 <= i < j < |names| ==> names[i] != names[j]
  }

  /** The keys are listed once each, and they are exactly the table's keys. */
  predicate Valid(reg: Registry) {
    && Distinct(reg.names)
    && reg.table.Keys == set n | n in reg.names
  }

  /** Two registries that list the same names and differ at most in the
      counters' values. */
  predicate SameShape(before: Registry, after: Registry) {
    && after.names == before.names
    && after.table.Keys == before.table.Keys
    && forall n :: n in before.table ==>
         after.table[n] == before.table[n].(value := after.table[n].value)
  }

  /** Changing only values keeps a registry consistent. */
  lemma SameShapeValid(a: Registry, b: Registry)
    requires SameShape(a, b) && Valid(a)
    ensures Valid(b)
  {
  }

  lemma SameShapeTrans(a: Registry, b: Registry, c: Registry)
    requires SameShape(a, b) && SameShape(b, c)
    ensures SameShape(a, c)
  {
    forall n | n in a.table
      ensures c.table[n] == a.table[n].(value := c.table[n].value)
    {
      assert b.table[n] == a.table[n].(value := b.table[n].value);
    }
  }

  /** `custom[name] = counter`: a new name goes to the end of the order, an
      existing one keeps its place. */
  function Put(reg: Registry, name: string, c: Counter): (r: Registry)
    ensures Valid(reg) ==> Valid(r)
    ensures r.table.Keys == reg.table.Keys + {name} && r.table[name] == c
    ensures forall n :: n in reg.table && n != name ==> r.table[n] == reg.table[n]
    ensures Valid(reg) ==> |r.names| == |reg.names| + (if name in reg.table then 0 else 1)
    ensures Valid(reg) ==> r.names == if name in reg.table then reg.names else reg.names + [name]
  {
    if name in reg.table then Registry(reg.names, reg.table[name := c])
    else Registry(reg.names + [name], reg.table[name := c])
  }

  /** get_consumable. */
  function Get(reg: Registry, name: string): (r: Result<Counter>)
    ensures r.Err? <==> name !in reg.table
    ensures r.Err? ==> r.error == ConsumableNotFound
    ensures r.Ok? ==> r.value == reg.table[name]
  {
    if name in reg.table then Ok(reg.table[name]) else Err(ConsumableNotFound)
  }

  /** `a` is `b` with some elements left out, the rest in their order. */
  predicate Subsequence(a: seq<string>, b: seq<string>)
    decreases |b|
  {
    if a == [] then true
    else if b == [] then false
    else (a[0] == b[0] && Subsequence(a[1..], b[1..])) || Subsequence(a, b[1..])
  }

  /** `names` without `name`, the others in their order. */
  function Without(names: seq<string>, name: string): (r: seq<string>)
    ensures forall n :: n in r <==> n in names && n != name
    ensures |r| <= |names|
    ensures Subsequence(r, names)
  {
    if names == [] then []
    else if names[0] == name then Without(names[1..], name)
    else
      var rest := Without(names[1..], name);
      assert ([names[0]] + rest)[1..] == rest;
      [names[0]] + rest
  }

  lemma {:induction false} WithoutDistinct(names: seq<string>, name: string)
    requires Distinct(names)
    ensures Distinct(Without(names, name))
  {
    if names != [] {
      WithoutDistinct(names[1..], name);
      var rest := Without(names[1..], name);
      if names[0] != name {
        assert names[0] !in names[1..];
        assert names[0] !in rest;
        var r := [names[0]] + rest;
        assert Without(names, name) == r;
        forall i, j | 0 <= i < j < |r| ensures r[i] != r[j] {
          if i == 0 {
            assert r[0] == names[0];
            assert r[j] == rest[j - 1] && r[j] in rest;
            assert r[0] != r[j];
          } else {
            assert r[i] == rest[i - 1] && r[j] == rest[j - 1];
            assert 0 <= i - 1 < j - 1 < |rest|;
            assert rest[i - 1] != rest[j - 1];
          }
        }
      }
    }
  }

  /** delete_consumable. */
  function Remove(reg: Registry, name: string): (r: Result<Registry>)
    ensures r.Err? <==> name !in reg.table
    ensures r.Err? ==> r.error == ConsumableNotFound
    ensures r.Ok? ==> r.value.table == reg.table - {name}
    ensures r.Ok? ==> forall n :: n in r.value.names <==> n in reg.names && n != name
    ensures r.Ok? ==> r.value.names == Without(reg.names, name) && Subsequence(r.value.names, reg.names)
  {
    if name !in reg.table then Err(ConsumableNotFound)
    else Ok(Registry(Without(reg.names, name), reg.table - {name}))
  }

  /** Deleting keeps the registry consistent and lists one name fewer. */
  lemma RemoveValid(reg: Registry, name: string)
    requires Valid(reg) && name in reg.table
    ensures Valid(Remove(reg, name).value)
    ensures |Remove(reg, name).value.names| == |reg.names| - 1
  {
    WithoutDistinct(reg.names, name);
    RemovedOnce(reg.names, name);
  }

  /** Removing a name listed exactly once shortens the list by one. */
  lemma {:induction false} RemovedOnce(names: seq<string>, name: string)
    requires Distinct(names)
    requires name in names
    ensures |Without(names, name)| == |names| - 1
  {
    if names[0] == name {
      assert name !in names[1..];
      WithoutAbsent(names[1..], name);
    } else {
      RemovedOnce(names[1..], name);
    }
  }

  lemma {:induction false} WithoutAbsent(names: seq<string>, name: string)
    requires name !in names
    ensures Without(names, name) == names
  {
    if names != [] {
      WithoutAbsent(names[1..], name);
      assert [names[0]] + names[1..] == names;
    }
  }

  /** A counter name may contain neither `.` nor `$`. */
  predicate ValidCounterName(name: string) {
    '.' !in name && '$' !in name
  }

  /** `str(x)` of an optional bound: Python renders a missing one as "None". */
  function PyStr(e: Option<string>): (s: string) {
    match e
    case Some(s) => s
    case None => "None"
  }

  /** When both bounds are given they must evaluate to a maximum that is at
      least the minimum and is not 0. */
  predicate BoundsAccepted(env: Env, maxE: Option<string>, minE: Option<string>)
    requires env.book.Some?
  {
    maxE.None? || minE.None? ||
    var hi := Evaluate(env, maxE.value).value;
    hi >= Evaluate(env, minE.value).value && hi != 0
  }

  /** create_consumable's checks of the given bounds: the maximum is
      evaluated before the minimum. */
  function CheckBounds(env: Env, maxE: Option<string>, minE: Option<string>): (r: Outcome) {
    if maxE.Some? && minE.Some? then
      match Evaluate(env, maxE.value)
      case Err(e) => Fail(e)
      case Ok(hi) =>
        match Evaluate(env, minE.value)
        case Err(e) => Fail(e)
        case Ok(lo) =>
          if !(hi >= lo) then Fail(InvalidArgument)
          else if hi == 0 then Fail(InvalidArgument)
          else Pass
    else Pass
  }

  /** create_consumable: the reset token, the name, the bounds, a reset
      without a maximum and a bubble display without both bounds are
      refused in that order; the new counter starts at the evaluated maximum
      (of the text "None" when there is none) and keeps its reset only when
      a maximum was given. */
  function Create(reg: Registry, env: Env, name: string, maxE: Option<string>, minE: Option<string>,
                  reset: Option<string>, display: Option<string>, live: Option<string>): (r: Result<Registry>)
    ensures ParseReset(reset).Err? || !ValidCounterName(name) ==> r == Err(InvalidArgument)
    ensures r.Ok? <==>
      && env.book.Some? && ParseReset(reset).Ok? && ValidCounterName(name)
      && BoundsAccepted(env, maxE, minE)
      && (reset.Some? ==> maxE.Some?)
      && (display == Some("bubble") ==> maxE.Some? && minE.Some?)
    ensures r.Err? ==> r.error == InvalidArgument || (r.error == OutdatedSheet && env.book.None?)
    ensures r.Ok? ==> r.value == Put(reg, name,
      Counter(Evaluate(env, PyStr(maxE)).value, maxE, minE, ParseReset(reset).value, display, live))
  {
    match ParseReset(reset)
    case Err(e) => Err(e)
    case Ok(scope) =>
      if !ValidCounterName(name) then Err(InvalidArgument)
      else match CheckBounds(env, maxE, minE)
        case Fail(e) => Err(e)
        case Pass =>
          if reset.Some? && maxE.None? then Err(InvalidArgument)
          else if display == Some("bubble") && (maxE.None? || minE.None?) then Err(InvalidArgument)
          else match Evaluate(env, PyStr(maxE))
            case Err(e) => Err(e)
            case Ok(v) =>
              Ok(Put(reg, name, Counter(v, maxE, minE, if maxE.Some? then scope else None, display, live)))
  }

  /** What create_consumable guarantees about a counter it stores. */
  predicate WellFormed(env: Env, c: Counter)
    requires env.book.Some?
  {
    && (c.reset.Some? ==> c.max.Some? && c.reset.value != Hp)
    && (c.display == Some("bubble") ==> c.max.Some? && c.min.Some?)
    && BoundsAccepted(env, c.max, c.min)
  }

  /** A created counter is well formed, is found under its name, and the
      registry stays consistent. */
  lemma CreateWellFormed(reg: Registry, env: Env, name: string, maxE: Option<string>, minE: Option<string>,
                         reset: Option<string>, display: Option<string>, live: Option<string>)
    requires Valid(reg)
    requires Create(reg, env, name, maxE, minE, reset, display, live).Ok?
    ensures var after := Create(reg, env, name, maxE, minE, reset, display, live).value;
            && env.book.Some? && Valid(after) && name in after.table
            && WellFormed(env, after.table[name])
            && after.table[name].max == maxE && after.table[name].min == minE
            && (after.table[name].reset.Some? <==> reset.Some?)
  {
  }

  /** The text of a bound that is absent: `str(-(2 ** 32))` for the minimum
      and `str(2 ** 32 - 1)` for the maximum. */
  const DefaultMin: string := IntStr(-0x1_0000_0000)
  const DefaultMax: string := IntStr(0x1_0000_0000 - 1)

  /** The evaluated bounds of a counter, minimum first. */
  function Bounds(env: Env, c: Counter): (r: Result<(int, int)>)
    ensures r.Err? <==> env.book.None?
    ensures r.Err? ==> r.error == OutdatedSheet
    ensures r.Ok? ==> r.value == (Evaluate(env, c.min.GetOr(DefaultMin)).value,
                                  Evaluate(env, c.max.GetOr(DefaultMax)).value)
  {
    match Evaluate(env, c.min.GetOr(DefaultMin))
    case Err(e) => Err(e)
    case Ok(lo) =>
      match Evaluate(env, c.max.GetOr(DefaultMax))
      case Err(e) => Err(e)
      case Ok(hi) => Ok((lo, hi))
  }

  /** `min(max(lo, v), hi)`. */
  function Clamp(v: int, lo: int, hi: int): (r: int)
    ensures r <= hi
    ensures lo <= hi ==> lo <= r
    ensures lo <= v <= hi ==> r == v
    ensures v < lo && lo <= hi ==> r == lo
    ensures v > hi ==> r == hi
  {
    var raised := if lo > v then lo else v;
    if raised < hi then raised else hi
  }

  /** Applying the clamp a second time changes nothing. */
  lemma ClampIdempotent(v: int, lo: int, hi: int)
    ensures Clamp(Clamp(v, lo, hi), lo, hi) == Clamp(v, lo, hi)
  {
  }

  /** set_consumable: an unknown name is not found; a strict set refuses a
      value outside the evaluated bounds, a lenient one clamps it; only the
      counter's value changes. */
  function SetValue(reg: Registry, env: Env, name: string, v: int, strict: bool): (r: Result<Registry>)
    ensures name !in reg.table ==> r == Err(ConsumableNotFound)
    ensures name in reg.table && env.book.None? ==> r == Err(OutdatedSheet)
    ensures r.Ok? ==> name in reg.table && Bounds(env, reg.table[name]).Ok?
    ensures r.Ok? ==> SameShape(reg, r.value)
    ensures r.Ok? ==> forall n :: n in reg.table && n != name ==> r.value.table[n] == reg.table[n]
    ensures r.Ok? ==> var (lo, hi) := Bounds(env, reg.table[name]).value;
                      r.value.table[name].value == if strict then v else Clamp(v, lo, hi)
    ensures name in reg.table && env.book.Some? ==>
              var (lo, hi) := Bounds(env, reg.table[name]).value;
              (r.Err? <==> strict && !(lo <= v <= hi))
    ensures r.Err? ==> r.error in {ConsumableNotFound, OutdatedSheet, CounterOutOfBounds}
    ensures name in reg.table && env.book.Some? && strict ==>
              var (lo, hi) := Bounds(env, reg.table[name]).value;
              !(lo <= v <= hi) ==> r == Err(CounterOutOfBounds)
  {
    if name !in reg.table then Err(ConsumableNotFound)
    else
      var c := reg.table[name];
      match Bounds(env, c)
      case Err(e) => Err(e)
      case Ok((lo, hi)) =>
        if strict && !(lo <= v <= hi) then Err(CounterOutOfBounds)
        else
          var stored := if strict then v else Clamp(v, lo, hi);
          Ok(Registry(reg.names, reg.table[name := c.(value := stored)]))
  }

  /** get_consumable_value: the counter's current value. */
  function ValueOf(reg: Registry, name: string): (r: Result<int>)
    ensures r.Err? <==> name !in reg.table
    ensures r.Err? ==> r.error == ConsumableNotFound
    ensures r.Ok? ==> r.value == reg.table[name].value
  {
    match Get(reg, name)
    case Err(e) => Err(e)
    case Ok(c) => Ok(c.value)
  }

  /** Reading a counter back after a set gives the value given (strict) or
      that value clamped into the bounds (lenient), and every other counter
      reads as before. */
  lemma SetThenValue(reg: Registry, env: Env, name: string, v: int, strict: bool, other: string)
    requires SetValue(reg, env, name, v, strict).Ok?
    ensures var after := SetValue(reg, env, name, v, strict).value;
            var (lo, hi) := Bounds(env, reg.table[name]).value;
            && ValueOf(after, name) == Ok(if strict then v else Clamp(v, lo, hi))
            && (other != name ==> ValueOf(after, other) == ValueOf(reg, other))
  {
  }

  /** A lenient set always leaves the value within its bounds (when they
      are ordered), and setting the value it stored again changes nothing. */
  lemma SetValueSettles(reg: Registry, env: Env, name: string, v: int)
    requires SetValue(reg, env, name, v, false).Ok?
    ensures var after := SetValue(reg, env, name, v, false).value;
            var (lo, hi) := Bounds(env, reg.table[name]).value;
            && (lo <= hi ==> lo <= after.table[name].value <= hi)
            && SetValue(after, env, name, after.table[name].value, false) == Ok(after)
  {
    var after := SetValue(reg, env, name, v, false).value;
    var (lo, hi) := Bounds(env, reg.table[name]).value;
    assert after.table[name] == reg.table[name].(value := Clamp(v, lo, hi));
    assert Bounds(env, after.table[name]) == Bounds(env, reg.table[name]);
    ClampIdempotent(v, lo, hi);
    SetCurrentValue(after, env, name);
  }

  /** Setting a counter, leniently, to a value its bounds already admit
      leaves the registry as it is. */
  lemma SetCurrentValue(reg: Registry, env: Env, name: string)
    requires name in reg.table && env.book.Some?
    requires var (lo, hi) := Bounds(env, reg.table[name]).value;
             Clamp(reg.table[name].value, lo, hi) == reg.table[name].value
    ensures SetValue(reg, env, name, reg.table[name].value, false) == Ok(reg)
  {
    assert reg.table[name := reg.table[name]] == reg.table;
  }

  /** When a counter has no bounds, the dice roller reads integers and no
      cvar or stat variable is named like the default bounds' tokens, the
      bounds are -(2^32) and 2^32 - 1. */
  lemma DefaultBounds(env: Env, c: Counter)
    requires env.book.Some? && ReadsIntegers(env.roll)
    requires c.min.None? && c.max.None?
    requires LiteralTokens(-0x1_0000_0000) !! env.cvars.Keys && LiteralTokens(-0x1_0000_0000) !! env.statVars.Keys
    requires LiteralTokens(0x1_0000_0000 - 1) !! env.cvars.Keys && LiteralTokens(0x1_0000_0000 - 1) !! env.statVars.Keys
    ensures Bounds(env, c) == Ok((-0x1_0000_0000, 0x1_0000_0000 - 1))
  {
    EvaluateLiteral(env, -0x1_0000_0000);
    EvaluateLiteral(env, 0x1_0000_0000 - 1);
  }

  /** Whether reset_consumable resets the counter instead of raising NoReset:
      a `none` scope or a missing maximum refuses it. */
  predicate Resettable(c: Counter) {
    c.reset != Some(Never) && c.max.Some?
  }

  /** reset_consumable: sets the counter, leniently, to its evaluated
      maximum. */
  function ResetOne(reg: Registry, env: Env, name: string): (r: Result<Registry>)
    ensures name !in reg.table ==> r == Err(ConsumableNotFound)
    ensures name in reg.table && !Resettable(reg.table[name]) ==> r == Err(NoReset)
    ensures name in reg.table && Resettable(reg.table[name]) ==> (r.Err? <==> env.book.None?)
    ensures name in reg.table && Resettable(reg.table[name]) && env.book.None? ==> r == Err(OutdatedSheet)
    ensures r.Err? ==> r.error in {ConsumableNotFound, NoReset, OutdatedSheet}
    ensures r.Ok? ==> name in reg.table && Resettable(reg.table[name]) && env.book.Some?
    ensures r.Ok? ==> SameShape(reg, r.value)
    ensures r.Ok? ==> forall n :: n in reg.table && n != name ==> r.value.table[n] == reg.table[n]
    ensures r.Ok? ==> var (lo, hi) := Bounds(env, reg.table[name]).value;
                      r.value.table[name].value == Clamp(hi, lo, hi)
  {
    match Get(reg, name)
    case Err(e) => Err(e)
    case Ok(c) =>
      if c.reset == Some(Never) then Err(NoReset)
      else if c.max.None? then Err(NoReset)
      else match Evaluate(env, c.max.value)
        case Err(e) => Err(e)
        case Ok(m) => SetValue(reg, env, name, m, false)
  }

  /** A reset counter whose minimum does not exceed its maximum holds its
      maximum afterwards. */
  lemma ResetOneFills(reg: Registry, env: Env, name: string)
    requires ResetOne(reg, env, name).Ok?
    requires Bounds(env, reg.table[name]).value.0 <= Bounds(env, reg.table[name]).value.1
    ensures ResetOne(reg, env, name).value.table[name].value == Evaluate(env, reg.table[name].max.value).value
  {
  }

  /** The result of _reset_custom: the registry (as far as the loop got),
      the names it reset and whether it completed. */
  datatype Sweep = Sweep(reg: Registry, reset: seq<string>, outcome: Outcome)

  /** The list a sweep reports, or its exception. */
  function SweepResult(s: Sweep): (r: Result<seq<string>>)
    ensures r.Ok? <==> s.outcome == Pass
  {
    match s.outcome
    case Pass => Ok(s.reset)
    case Fail(e) => Err(e)
  }

  /** The names among `pending` whose counter has the given scope and can be
      reset, in order. */
  function Due(pending: seq<string>, reg: Registry, scope: Option<Scope>): (r: seq<string>)
    ensures forall n :: n in r ==> n in pending && n in reg.table && reg.table[n].reset == scope && Resettable(reg.table[n])
  {
    if pending == [] then []
    else
      var n := pending[0];
      var rest := Due(pending[1..], reg, scope);
      if n in reg.table && reg.table[n].reset == scope && Resettable(reg.table[n]) then [n] + rest else rest
  }

  /** Due misses no counter of the scope that can be reset, and lists them
      in the order of `pending`. */
  lemma {:induction false} DueComplete(pending: seq<string>, reg: Registry, scope: Option<Scope>)
    ensures var r := Due(pending, reg, scope);
            forall n :: n in pending && n in reg.table && reg.table[n].reset == scope && Resettable(reg.table[n]) ==> n in r
    ensures Subsequence(Due(pending, reg, scope), pending)
    decreases |pending|
  {
    if pending != [] {
      DueComplete(pending[1..], reg, scope);
      var n := pending[0];
      var rest := Due(pending[1..], reg, scope);
      if n in reg.table && reg.table[n].reset == scope && Resettable(reg.table[n]) {
        assert ([n] + rest)[1..] == rest;
      }
    }
  }

  /** The _reset_custom loop over the names still `pending`, with the names
      reset so far in `done`: a counter of the scope is reset, NoReset skips
      it, and any other error ends the loop. (Every pending name is in the
      table, as the loop never adds or removes one; the membership test only
      keeps the function total.) */
  function SweepFrom(reg: Registry, env: Env, scope: Option<Scope>, pending: seq<string>, done: seq<string>): (r: Sweep)
    ensures SameShape(reg, r.reg)
    ensures forall n :: n in reg.table && reg.table[n].reset != scope ==> r.reg.table[n] == reg.table[n]
    ensures forall n :: n in reg.table && n !in pending ==> r.reg.table[n] == reg.table[n]
    ensures r.outcome.Fail? ==> r.outcome.error == OutdatedSheet && env.book.None?
    ensures env.book.Some? ==> r.outcome == Pass && r.reset == done + Due(pending, reg, scope)
    decreases |pending|
  {
    if pending == [] then Sweep(reg, done, Pass)
    else
      var name := pending[0];
      if name in reg.table && reg.table[name].reset == scope then
        match ResetOne(reg, env, name)
        case Err(NoReset) =>
          assert Due(pending, reg, scope) == Due(pending[1..], reg, scope);
          SweepFrom(reg, env, scope, pending[1..], done)
        case Err(e) => Sweep(reg, done, Fail(e))
        case Ok(next) =>
          var r := SweepFrom(next, env, scope, pending[1..], done + [name]);
          SameShapeTrans(reg, next, r.reg);
          DueSameShape(pending[1..], reg, next, scope);
          assert Due(pending, reg, scope) == [name] + Due(pending[1..], reg, scope);
          AppendAssoc(done, [name], Due(pending[1..], reg, scope));
          r
      else
        assert Due(pending, reg, scope) == Due(pending[1..], reg, scope);
        SweepFrom(reg, env, scope, pending[1..], done)
  }

  lemma AppendAssoc(a: seq<string>, b: seq<string>, c: seq<string>)
    ensures a + b + c == a + (b + c)
  {
  }

  /** Due depends only on the shape of the registry, not on its values. */
  lemma {:induction false} DueSameShape(pending: seq<string>, a: Registry, b: Registry, scope: Option<Scope>)
    requires SameShape(a, b)
    ensures Due(pending, a, scope) == Due(pending, b, scope)
  {
    if pending != [] {
      DueSameShape(pending[1..], a, b, scope);
      var n := pending[0];
      if n in a.table {
        assert b.table[n] == a.table[n].(value := b.table[n].value);
      }
    }
  }

  /** _reset_custom(scope). */
  function ResetCustom(reg: Registry, env: Env, scope: Option<Scope>): (r: Sweep)
    ensures SameShape(reg, r.reg)
    ensures forall n :: n in reg.table && reg.table[n].reset != scope ==> r.reg.table[n] == reg.table[n]
    ensures r.outcome.Fail? ==> r.outcome.error == OutdatedSheet && env.book.None?
    ensures env.book.Some? ==> r.outcome == Pass && r.reset == Due(reg.names, reg, scope)
  {
    SweepFrom(reg, env, scope, reg.names, [])
  }

  /** One step of the sweep when there is a spellbook: a due counter is
      reset and reported, any other is passed over. */
  lemma SweepStep(reg: Registry, env: Env, scope: Option<Scope>, pending: seq<string>, done: seq<string>)
    requires env.book.Some? && pending != []
    ensures var name := pending[0];
            SweepFrom(reg, env, scope, pending, done) ==
              if name in reg.table && reg.table[name].reset == scope && Resettable(reg.table[name])
              then SweepFrom(ResetOne(reg, env, name).value, env, scope, pending[1..], done + [name])
              else SweepFrom(reg, env, scope, pending[1..], done)
  {
  }

  /** With a spellbook, every counter the sweep reports holds its evaluated
      maximum afterwards, provided its minimum does not exceed it. */
  lemma {:induction false} SweepFills(reg: Registry, env: Env, scope: Option<Scope>, pending: seq<string>, done: seq<string>, n: string)
    requires env.book.Some?
    requires n in Due(pending, reg, scope)
    requires Distinct(pending)
    requires Bounds(env, reg.table[n]).value.0 <= Bounds(env, reg.table[n]).value.1
    ensures SweepFrom(reg, env, scope, pending, done).reg.table[n].value == Evaluate(env, reg.table[n].max.value).value
    decreases |pending|, 1
  {
    var name := pending[0];
    if name == n {
      assert n !in pending[1..];
      SweepFillsHead(reg, env, scope, pending, done);
    } else if name in reg.table && reg.table[name].reset == scope && Resettable(reg.table[name]) {
      SweepFillsPast(reg, env, scope, pending, done, n);
    } else {
      SweepStep(reg, env, scope, pending, done);
      assert n in Due(pending[1..], reg, scope);
      SweepFills(reg, env, scope, pending[1..], done, n);
    }
  }

  /** Resetting another counter first leaves `n` and its due status alone. */
  lemma {:induction false} SweepFillsPast(reg: Registry, env: Env, scope: Option<Scope>, pending: seq<string>, done: seq<string>, n: string)
    requires env.book.Some? && pending != [] && pending[0] != n
    requires pending[0] in reg.table && reg.table[pending[0]].reset == scope && Resettable(reg.table[pending[0]])
    requires n in Due(pending, reg, scope)
    requires Distinct(pending)
    requires Bounds(env, reg.table[n]).value.0 <= Bounds(env, reg.table[n]).value.1
    ensures SweepFrom(reg, env, scope, pending, done).reg.table[n].value == Evaluate(env, reg.table[n].max.value).value
    decreases |pending|, 0
  {
    var name := pending[0];
    SweepStep(reg, env, scope, pending, done);
    PastLeavesDue(reg, env, scope, pending, n);
    SweepFills(ResetOne(reg, env, name).value, env, scope, pending[1..], done + [name], n);
  }

  /** Resetting the head of the pending names leaves another due counter
      untouched and still due among the rest. */
  lemma PastLeavesDue(reg: Registry, env: Env, scope: Option<Scope>, pending: seq<string>, n: string)
    requires env.book.Some? && pending != [] && pending[0] != n
    requires pending[0] in reg.table && reg.table[pending[0]].reset == scope && Resettable(reg.table[pending[0]])
    requires n in Due(pending, reg, scope)
    requires Distinct(pending)
    ensures ResetOne(reg, env, pending[0]).Ok?
    ensures var next := ResetOne(reg, env, pending[0]).value;
            n in next.table && next.table[n] == reg.table[n] && n in Due(pending[1..], next, scope)
            && Distinct(pending[1..])
  {
    var next := ResetOne(reg, env, pending[0]).value;
    assert next.table[n] == reg.table[n];
    assert n in Due(pending[1..], reg, scope);
    DueSameShape(pending[1..], reg, next, scope);
  }

  /** The due counter at the head of the pending names is filled, and the
      rest of the sweep does not visit it again. */
  lemma SweepFillsHead(reg: Registry, env: Env, scope: Option<Scope>, pending: seq<string>, done: seq<string>)
    requires env.book.Some? && pending != [] && pending[0] !in pending[1..]
    requires pending[0] in reg.table && reg.table[pending[0]].reset == scope && Resettable(reg.table[pending[0]])
    requires Bounds(env, reg.table[pending[0]]).value.0 <= Bounds(env, reg.table[pending[0]]).value.1
    ensures SweepFrom(reg, env, scope, pending, done).reg.table[pending[0]].value
            == Evaluate(env, reg.table[pending[0]].max.value).value
  {
    var name := pending[0];
    SweepStep(reg, env, scope, pending, done);
    ResetOneFills(reg, env, name);
  }

  /** _reset_custom as the module is written: NoReset is never imported, so
      the `raise NoReset()` in reset_consumable raises a NameError instead.
      Any exception reaching the `except NoReset` clause makes Python
      evaluate the unbound name, so every error, OutdatedSheet included,
      leaves the loop as a NameError. */
  function SweepAsWritten(reg: Registry, env: Env, scope: Option<Scope>, pending: seq<string>, done: seq<string>): (r: Sweep)
    ensures r.outcome.Fail? ==> r.outcome.error == NameError
    decreases |pending|
  {
    if pending == [] then Sweep(reg, done, Pass)
    else
      var name := pending[0];
      if name in reg.table && reg.table[name].reset == scope then
        match ResetOne(reg, env, name)
        case Err(_) => Sweep(reg, done, Fail(NameError))
        case Ok(next) => SweepAsWritten(next, env, scope, pending[1..], done + [name])
      else SweepAsWritten(reg, env, scope, pending[1..], done)
  }

  /** Where the loop as written completes, it agrees with the intended one:
      the two differ only on a counter that cannot be reset. */
  lemma {:induction false} AsWrittenAgrees(reg: Registry, env: Env, scope: Option<Scope>, pending: seq<string>, done: seq<string>)
    requires SweepAsWritten(reg, env, scope, pending, done).outcome == Pass
    ensures SweepAsWritten(reg, env, scope, pending, done) == SweepFrom(reg, env, scope, pending, done)
    decreases |pending|
  {
    if pending != [] {
      var name := pending[0];
      if name in reg.table && reg.table[name].reset == scope {
        var next := ResetOne(reg, env, name).value;
        AsWrittenAgrees(next, env, scope, pending[1..], done + [name]);
      } else {
        AsWrittenAgrees(reg, env, scope, pending[1..], done);
      }
    }
  }

  /** A counter with neither a maximum nor a reset scope (which
      create_consumable accepts): reset_all_consumables' sweep of the
      counters without a scope stops at it as written, while the intended
      sweep skips it and completes. */
  lemma UnboundedCounterStopsSweep()
    ensures var reg := Registry(["x"], map["x" := Counter(0, None, None, None, None, None)]);
            var env := Env(map[], map[], 0, Some(SpellSlots.Spellbook(map[], 0)), (s: string) => 0);
            && Valid(reg)
            && Create(Registry([], map[]), env, "x", None, None, None, None, None).Ok?
            && SweepAsWritten(reg, env, None, reg.names, []).outcome == Fail(NameError)
            && ResetCustom(reg, env, None) == Sweep(reg, [], Pass)
  {
    var reg := Registry(["x"], map["x" := Counter(0, None, None, None, None, None)]);
    var env := Env(map[], map[], 0, Some(SpellSlots.Spellbook(map[], 0)), (s: string) => 0);
    assert ResetOne(reg, env, "x") == Err(NoReset);
  }

  /** Counter names matching a query case-insensitively: `exact` keeps those
      equal to it, otherwise those containing it. */
  function Matching(names: seq<string>, query: string, exact: bool): (r: seq<string>)
    ensures forall n :: n in r <==>
              (n in names && if exact then Lower(n) == Lower(query) else IsInfix(Lower(query), Lower(n)))
    ensures Subsequence(r, names)
    ensures r == [] <==>
              forall n :: n in names ==> !(if exact then Lower(n) == Lower(query) else IsInfix(Lower(query), Lower(n)))
  {
    if names == [] then []
    else
      var n := names[0];
      var rest := Matching(names[1..], query, exact);
      if (if exact then Lower(n) == Lower(query) else IsInfix(Lower(query), Lower(n))) then
        assert ([n] + rest)[1..] == rest;
        [n] + rest
      else rest
  }

  /** The choices select_consumable offers: the exact matches, or the
      partial ones when there are none; an empty list is not found. */
  function Candidates(reg: Registry, query: string): (r: Result<seq<string>>)
    ensures r.Ok? ==> r.value != [] && forall n :: n in r.value ==> n in reg.names
    ensures r.Err? ==> r.error == ConsumableNotFound
    ensures r.Ok? ==> forall n :: n in r.value <==>
              n in reg.names &&
              if exists m :: m in reg.names && Lower(m) == Lower(query) then Lower(n) == Lower(query)
              else IsInfix(Lower(query), Lower(n))
    ensures r.Ok? ==> Subsequence(r.value, reg.names)
  {
    var exact := Matching(reg.names, query, true);
    var choices := if exact != [] then exact else Matching(reg.names, query, false);
    if choices == [] then Err(ConsumableNotFound) else Ok(choices)
  }

  lemma InfixOfItself(s: string)
    ensures IsInfix(s, s)
  {
  }

  /** select_consumable finds nothing exactly when no counter name contains
      the query case-insensitively, and a name equal to the query up to case
      rules out every merely partial match. */
  lemma CandidatesSpec(reg: Registry, query: string)
    ensures Candidates(reg, query).Err? <==> forall n :: n in reg.names ==> !IsInfix(Lower(query), Lower(n))
    ensures (exists n :: n in reg.names && Lower(n) == Lower(query)) ==>
              Candidates(reg, query).Ok? &&
              forall n :: n in Candidates(reg, query).value ==> Lower(n) == Lower(query)
  {
    forall n | n in reg.names && Lower(n) == Lower(query)
      ensures IsInfix(Lower(query), Lower(n))
    {
      InfixOfItself(Lower(n));
    }
  }


}
