/** The death-save tracker: counts of successful and failed saves, each
    capped at three; three successes make the character stable, three
    failures dead. */
module DeathSaving {
  import opened Text

  /** `min(3, count + num)`: a count raised by `num` but never past three. */
  function Capped(count: int, num: int): (r: int)
    ensures r <= 3
    ensures r == 3 <==> count + num >= 3
    ensures count + num < 3 ==> r == count + num
  {
    if count + num < 3 then count + num else 3
  }

  /** Raising a count that is within 0-3 by a non-negative amount keeps it
      within 0-3 and never lowers it. */
  lemma CappedStaysInRange(count: int, num: int)
    requires 0 <= count <= 3 && num >= 0
    ensures count <= Capped(count, num) <= 3
  {
  }

  /** Three single saves in a row reach three from any count in 0-3. */
  lemma ThreeSavesSuffice(count: int)
    requires 0 <= count <= 3
    ensures Capped(Capped(Capped(count, 1), 1), 1) == 3
  {
  }

  class DeathSaves {
    var successes: int
    var fails: int

    constructor(successes: int, fails: int)
      ensures this.successes == successes && this.fails == fails
    {
      this.successes := successes;
      this.fails := fails;
    }

    /** succeed(num). */
    method Succeed(num: int)
      modifies this
      ensures successes == Capped(old(successes), num) && fails == old(fails)
      ensures IsStable() <==> old(successes) + num >= 3
    {
      successes := if successes + num < 3 then successes + num else 3;
    }

    /** fail(num). */
    method Fail(num: int)
      modifies this
      ensures fails == Capped(old(fails), num) && successes == old(successes)
      ensures IsDead() <==> old(fails) + num >= 3
    {
      fails := if fails + num < 3 then fails + num else 3;
    }

    predicate IsStable()
      reads this
    {
      successes == 3
    }

    predicate IsDead()
      reads this
    {
      fails == 3
    }

    method Reset()
      modifies this
      ensures successes == 0 && fails == 0
      ensures !IsStable() && !IsDead()
    {
      successes := 0;
      fails := 0;
    }
  }

  /** get_ds_str: failures as empty bubbles then filled ones, successes as
      filled bubbles then empty ones, `F fails | successes S`. */
  function DsStr(successes: int, fails: int): (s: string)
    ensures |s| >= 7 && s[..2] == "F " && s[|s| - 2..] == " S"
  {
    "F " + Repeat('\U{3007}', 3 - fails) + Repeat('\U{25C9}', fails)
      + " | " + Repeat('\U{25C9}', successes) + Repeat('\U{3007}', 3 - successes) + " S"
  }

  /** A bubble's count in the line is its count in the four bubble runs. */
  lemma DsStrBubbles(successes: int, fails: int, k: char)
    requires k == '\U{25C9}' || k == '\U{3007}'
    ensures Count(DsStr(successes, fails), k) ==
              Count(Repeat('\U{3007}', 3 - fails), k) + Count(Repeat('\U{25C9}', fails), k)
              + Count(Repeat('\U{25C9}', successes), k) + Count(Repeat('\U{3007}', 3 - successes), k)
  {
    var a, b := Repeat('\U{3007}', 3 - fails), Repeat('\U{25C9}', fails);
    var c, d := Repeat('\U{25C9}', successes), Repeat('\U{3007}', 3 - successes);
    CountAppend("F " + a + b + " | " + c + d, " S", k);
    CountAppend("F " + a + b + " | " + c, d, k);
    CountAppend("F " + a + b + " | ", c, k);
    CountAppend("F " + a + b, " | ", k);
    CountAppend("F " + a, b, k);
    CountAppend("F ", a, k);
  }

  /** For counts within 0-3 the line always has the same length and shows
      one filled bubble per save made and one empty bubble per save left. */
  lemma DsStrCounts(successes: int, fails: int)
    requires 0 <= successes <= 3 && 0 <= fails <= 3
    ensures |DsStr(successes, fails)| == 13
    ensures Count(DsStr(successes, fails), '\U{25C9}') == successes + fails
    ensures Count(DsStr(successes, fails), '\U{3007}') == 6 - successes - fails
  {
    DsStrBubbles(successes, fails, '\U{25C9}');
    DsStrBubbles(successes, fails, '\U{3007}');
  }
}
