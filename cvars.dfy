/** Character variables: the name rule of set_cvar and the expression
    resolver of evaluate_cvar, which splits an expression on operator
    characters, substitutes each token from the cvar table, splits the result
    again and substitutes from the stat-variable table, then hands the text
    to the dice roller. */
module Cvars {
  import opened Outcomes
  import opened Text
  import opened SpellSlots

  /** Characters a cvar name may not contain: `/()[]\.^$*+?|{}`. */
  predicate IsReservedInName(c: char) {
    c == '/' || c == '(' || c == ')' || c == '[' || c == ']' || c == '\\'
    || c == '.' || c == '^' || c == '$' || c == '*' || c == '+' || c == '?'
    || c == '|' || c == '{' || c == '}'
  }

  predicate ValidCvarName(name: string) {
    forall k :: 0 <= k < |name| ==> !IsReservedInName(name[k])
  }

  /** set_cvar on the cvar table: a name with a reserved character is
      refused and the table is left alone; otherwise the value is stored
      under that name and every other entry keeps its value. */
  function SetCvar(cvars: map<string, string>, name: string, val: string): (r: Result<map<string, string>>)
    ensures r.Ok? <==> ValidCvarName(name)
    ensures r.Err? ==> r.error == InvalidArgument
    ensures r.Ok? ==> r.value.Keys == cvars.Keys + {name} && r.value[name] == val
    ensures r.Ok? ==> forall k :: k in cvars && k != name ==> r.value[k] == cvars[k]
  {
    if exists k :: 0 <= k < |name| && IsReservedInName(name[k]) then Err(InvalidArgument)
    else Ok(cvars[name := val])
  }

  /** The operator characters evaluate_cvar splits on: minus, plus, star,
      slash, both parentheses, dot, `<`, `>` and `=`. */
  predicate IsOperator(c: char) {
    c == '-' || c == '+' || c == '*' || c == '/' || c == '(' || c == ')'
    || c == '.' || c == '<' || c == '>' || c == '='
  }

  predicate NoOperator(s: string) {
    forall k :: 0 <= k < |s| ==> !IsOperator(s[k])
  }

  /** `re.split` with the operator class in a capturing group: the text
      between operators at even positions, each operator as a one-character
      piece at odd positions. */
  function Split(s: string): (parts: seq<string>)
    ensures |parts| % 2 == 1
    ensures forall k :: 0 <= k < |parts| && k % 2 == 0 ==> NoOperator(parts[k])
    ensures forall k :: 0 <= k < |parts| && k % 2 == 1 ==> |parts[k]| == 1 && IsOperator(parts[k][0])
    decreases |s|
  {
    if s == [] then [""]
    else if IsOperator(s[0]) then ["", [s[0]]] + Split(s[1..])
    else
      var rest := Split(s[1..]);
      [[s[0]] + rest[0]] + rest[1..]
  }

  function Concat(parts: seq<string>): (r: string) {
    if parts == [] then "" else parts[0] + Concat(parts[1..])
  }

  /** Splitting loses nothing: the pieces put back together give the input. */
  lemma {:induction false} SplitConcat(s: string)
    ensures Concat(Split(s)) == s
    decreases |s|
  {
    if s != [] {
      SplitConcat(s[1..]);
      var rest := Split(s[1..]);
      if IsOperator(s[0]) {
        assert Split(s)[1..] == [[s[0]]] + rest;
        assert Split(s)[1..][1..] == rest;
      } else {
        assert Split(s)[1..] == rest[1..];
        assert Concat(rest) == rest[0] + Concat(rest[1..]);
        assert [s[0]] + rest[0] + Concat(rest[1..]) == [s[0]] + (rest[0] + Concat(rest[1..]));
      }
    }
  }

  /** A piece without operators is not split. */
  lemma {:induction false} SplitPlain(s: string)
    requires NoOperator(s)
    ensures Split(s) == [s]
    decreases |s|
  {
    if s != [] {
      SplitPlain(s[1..]);
      assert [s[0]] + s[1..] == s;
    }
  }

  /** `table.get(key, key)`. */
  function Lookup(table: map<string, string>, key: string): (v: string) {
    if key in table then table[key] else key
  }

  /** A piece stripped of blanks, replaced by its table entry when it has one. */
  function Token(piece: string, table: map<string, string>): (t: string) {
    Lookup(table, Strip(piece))
  }

  /** One substitution pass: every piece's token, each followed by one space. */
  function Substitute(parts: seq<string>, table: map<string, string>): (r: string)
    ensures |r| >= |parts|
    ensures parts != [] ==> r[|r| - 1] == ' '
  {
    if parts == [] then "" else Token(parts[0], table) + " " + Substitute(parts[1..], table)
  }

  /** The characters `str.strip('<>{}')` removes from the ends of the input. */
  const Brackets: set<char> := {'<', '>', '{', '}'}

  predicate IsBracket(c: char) {
    c in Brackets
  }

  /** Both passes: cvars first, then the stat variables over the text the
      first pass produced, so that a cvar's value may name a stat variable. */
  function Resolve(raw: string, cvars: map<string, string>, statVars: map<string, string>): (out: string)
    ensures out != [] && out[|out| - 1] == ' '
  {
    var first := Substitute(Split(StripBy(raw, Brackets)), cvars);
    Substitute(Split(first), statVars)
  }

  /** What evaluate_cvar reads: the cvar table, the stored stat variables,
      the proficiency bonus, the spellbook (for the spell attack bonus) and
      the dice roller, an outside function from text to its total. */
  datatype Env = Env(
    cvars: map<string, string>,
    statVars: map<string, int>,
    profBonus: int,
    book: Option<Spellbook>,
    roll: string -> int)

  /** The stat-variable table of the second pass: the stored values as
      decimal text, with `spell` set to the spell attack bonus minus the
      proficiency bonus. */
  function StatTable(env: Env, attackBonus: int): (t: map<string, string>)
    ensures t.Keys == env.statVars.Keys + {"spell"}
    ensures t["spell"] == IntStr(attackBonus - env.profBonus)
    ensures forall k :: k in env.statVars && k != "spell" ==> t[k] == IntStr(env.statVars[k])
  {
    (map k | k in env.statVars :: IntStr(env.statVars[k]))["spell" := IntStr(attackBonus - env.profBonus)]
  }

  /** evaluate_cvar: OutdatedSheet when there is no spellbook (the attack
      bonus is read before anything else), otherwise the roller's total for
      the resolved text. */
  function Evaluate(env: Env, raw: string): (r: Result<int>)
    ensures r.Err? <==> env.book.None?
    ensures r.Err? ==> r.error == OutdatedSheet
  {
    match env.book
    case None => Err(OutdatedSheet)
    case Some(b) => Ok(env.roll(Resolve(raw, env.cvars, StatTable(env, b.attackBonus))))
  }

  /** The text `str(n)` resolves to when no table has an entry for its tokens. */
  function Literal(n: int): (r: string) {
    Resolve(IntStr(n), map[], map[])
  }

  /** The tokens the resolver looks up while resolving `str(n)`. */
  function LiteralTokens(n: int): (r: set<string>) {
    if n < 0 then {"", "-", NatStr(-n)} else {NatStr(n)}
  }

  /** A roller that reads an integer literal, as the resolver renders it, as
      that integer. */
  ghost predicate ReadsIntegers(roll: string -> int) {
    forall n: int :: roll(Literal(n)) == n
  }

  /** Splitting at the first operator: the operator-free text before it,
      the operator, then the split of the rest. */
  lemma {:induction false} SplitAtOperator(a: string, op: char, b: string)
    requires NoOperator(a) && IsOperator(op)
    ensures Split(a + [op] + b) == [a, [op]] + Split(b)
    decreases |a|
  {
    if a == [] {
      assert ([op] + b)[1..] == b;
      assert a + [op] + b == [op] + b;
    } else {
      SplitAtOperator(a[1..], op, b);
      SplitPlainStep(a[0], a[1..] + [op] + b);
      assert [a[0]] + (a[1..] + [op] + b) == a + [op] + b;
      assert [a[0]] + a[1..] == a;
    }
  }

  /** Splitting text whose first character is not an operator: that
      character joins the first piece. */
  lemma SplitPlainStep(c: char, t: string)
    requires !IsOperator(c)
    ensures Split([c] + t) == [[c] + Split(t)[0]] + Split(t)[1..]
  {
    assert ([c] + t)[1..] == t;
  }

  /** A string of characters that are neither operators, blanks nor brackets. */
  predicate Inert(s: string) {
    forall k :: 0 <= k < |s| ==> !IsOperator(s[k]) && !IsSpace(s[k]) && !IsBracket(s[k])
  }

  lemma DigitsAreInert(m: nat)
    ensures Inert(NatStr(m))
  {
    var d := NatStr(m);
    forall k | 0 <= k < |d| ensures !IsOperator(d[k]) && !IsSpace(d[k]) && !IsBracket(d[k]) {
      assert IsDigit(d[k]);
    }
  }

  lemma PaddedHasNoOperator(d: string)
    requires Inert(d)
    ensures NoOperator(d + " ") && NoOperator(" " + d + " ")
  {
    forall k | 0 <= k < |d| + 1 ensures !IsOperator((d + " ")[k]) {
      if k < |d| { assert (d + " ")[k] == d[k]; }
    }
    forall k | 0 <= k < |d| + 2 ensures !IsOperator((" " + d + " ")[k]) {
      if 0 < k < |d| + 1 { assert (" " + d + " ")[k] == d[k - 1]; }
    }
  }

  /** Both passes over an inert token the table does not know give the token
      followed by a space. */
  lemma PassesOnToken(d: string, table: map<string, string>)
    requires d != [] && Inert(d) && d !in table
    ensures Substitute(Split(d), table) == d + " "
    ensures Substitute(Split(d + " "), table) == d + " "
  {
    assert NoOperator(d);
    SplitPlain(d);
    PaddedHasNoOperator(d);
    SplitPlain(d + " ");
    StripTrailing(d);
  }

  /** A pass over a piece followed by more pieces. */
  lemma SubstituteCons(x: string, rest: seq<string>, table: map<string, string>)
    ensures Substitute([x] + rest, table) == Token(x, table) + " " + Substitute(rest, table)
  {
    assert ([x] + rest)[1..] == rest;
  }

  /** A pass over two pieces. */
  lemma SubstituteTwo(b: string, c: string, table: map<string, string>)
    ensures Substitute([b, c], table) == Token(b, table) + " " + Token(c, table) + " "
  {
    assert Substitute([c], table) == Token(c, table) + " " by {
      SubstituteCons(c, [], table);
      assert [c] + [] == [c];
    }
    SubstituteCons(b, [c], table);
    assert [b] + [c] == [b, c];
  }

  /** A pass over three pieces. */
  lemma SubstituteThree(a: string, b: string, c: string, table: map<string, string>)
    ensures Substitute([a, b, c], table) == Token(a, table) + " " + Token(b, table) + " " + Token(c, table) + " "
  {
    var ta, tb, tc := Token(a, table), Token(b, table), Token(c, table);
    SubstituteTwo(b, c, table);
    SubstituteCons(a, [b, c], table);
    assert [a] + [b, c] == [a, b, c];
    assert ta + " " + (tb + " " + tc + " ") == ta + " " + tb + " " + tc + " ";
  }

  /** How `-d` and ` - d ` are split. */
  lemma SplitNegated(d: string)
    requires d != [] && Inert(d)
    ensures Split("-" + d) == ["", "-", d]
    ensures Split(" - " + d + " ") == [" ", "-", " " + d + " "]
  {
    assert NoOperator(d);
    SplitPlain(d);
    SplitAtOperator("", '-', d);
    assert "" + ['-'] + d == "-" + d;
    PaddedHasNoOperator(d);
    SplitPlain(" " + d + " ");
    SplitAtOperator(" ", '-', " " + d + " ");
    assert " " + ['-'] + (" " + d + " ") == " - " + d + " ";
  }

  /** A pass over the split of `-d` gives `" - d "`. */
  lemma PassOnNegated(d: string, table: map<string, string>)
    requires d != [] && Inert(d) && d !in table && "" !in table && "-" !in table
    ensures Substitute(Split("-" + d), table) == " - " + d + " "
  {
    SplitNegated(d);
    StripTrailing(d);
    StripBlank();
    StripClean("-", Whitespace);
    SubstituteThree("", "-", d, table);
  }

  /** A pass over the split of `" - d "` gives it back. */
  lemma PassOnPaddedNegated(d: string, table: map<string, string>)
    requires d != [] && Inert(d) && d !in table && "" !in table && "-" !in table
    ensures Substitute(Split(" - " + d + " "), table) == " - " + d + " "
  {
    SplitNegated(d);
    StripPadded(d);
    StripBlank();
    StripClean("-", Whitespace);
    SubstituteThree(" ", "-", " " + d + " ", table);
  }

  /** The resolved text of `str(n)`: `"d "` or `" - d "` for the digits `d`. */
  lemma ResolveLiteral(n: int, cvars: map<string, string>, statVars: map<string, string>)
    requires LiteralTokens(n) !! cvars.Keys && LiteralTokens(n) !! statVars.Keys
    ensures Resolve(IntStr(n), cvars, statVars) == if n < 0 then " - " + NatStr(-n) + " " else NatStr(n) + " "
  {
    var d := NatStr(if n < 0 then -n else n);
    DigitsAreInert(if n < 0 then -n else n);
    if n < 0 {
      StripClean("-" + d, Brackets);
      PassOnNegated(d, cvars);
      PassOnPaddedNegated(d, statVars);
    } else {
      StripClean(d, Brackets);
      PassesOnToken(d, cvars);
      PassesOnToken(d, statVars);
    }
  }

  /** The resolved text of a literal does not depend on the tables as long as
      they have no entry for its tokens. */
  lemma LiteralIgnoresTables(n: int, cvars: map<string, string>, statVars: map<string, string>)
    requires LiteralTokens(n) !! cvars.Keys && LiteralTokens(n) !! statVars.Keys
    ensures Resolve(IntStr(n), cvars, statVars) == Literal(n)
  {
    ResolveLiteral(n, cvars, statVars);
    ResolveLiteral(n, map[], map[]);
  }

  /** The literal's tokens are never the derived `spell` variable. */
  lemma SpellIsNotALiteralToken(n: int)
    ensures "spell" !in LiteralTokens(n)
  {
    var d := NatStr(if n < 0 then -n else n);
    assert IsDigit(d[0]);
  }

  /** Evaluating the text of an integer gives that integer, when there is a
      spellbook, the roller reads integers and no cvar or stat variable is
      named like one of its tokens. */
  lemma EvaluateLiteral(env: Env, n: int)
    requires env.book.Some? && ReadsIntegers(env.roll)
    requires LiteralTokens(n) !! env.cvars.Keys && LiteralTokens(n) !! env.statVars.Keys
    ensures Evaluate(env, IntStr(n)) == Ok(n)
  {
    SpellIsNotALiteralToken(n);
    LiteralIgnoresTables(n, env.cvars, StatTable(env, env.book.value.attackBonus));
  }

  /** The two passes in order: a cvar whose value is the name of a stat
      variable resolves to that stat variable's value. */
  lemma CvarNamesStatVariable(name: string, cvars: map<string, string>, statVars: map<string, string>)
    requires name != [] && Inert(name) && name in cvars
    requires cvars[name] != [] && Inert(cvars[name]) && cvars[name] in statVars
    ensures Resolve(name, cvars, statVars) == statVars[cvars[name]] + " "
  {
    var y := cvars[name];
    StripClean(name, Brackets);
    assert NoOperator(name);
    SplitPlain(name);
    StripTrailing(name);
    assert [name][1..] == [];
    assert Substitute(Split(name), cvars) == y + " ";
    PaddedHasNoOperator(y);
    SplitPlain(y + " ");
    StripTrailing(y);
    assert [y + " "][1..] == [];
    assert Substitute(Split(y + " "), statVars) == statVars[y] + " ";
    assert Resolve(name, cvars, statVars) == Substitute(Split(y + " "), statVars);
  }



}
