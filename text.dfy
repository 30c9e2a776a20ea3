/** The string operations the character model relies on: Python's
    `str.strip`, `str.lower` (ASCII letters), substring search, `str(int)`
    and repetition `c * n`. */
module Text {

  /** The characters Python's argument-less `str.strip()` removes: those for
      which `str.isspace()` holds. */
  const Whitespace: set<char> := {
    ' ', '\t', '\n', '\r', '\U{000B}', '\U{000C}',
    '\U{001C}', '\U{001D}', '\U{001E}', '\U{001F}',
    '\U{0085}', '\U{00A0}', '\U{1680}',
    '\U{2000}', '\U{2001}', '\U{2002}', '\U{2003}', '\U{2004}', '\U{2005}',
    '\U{2006}', '\U{2007}', '\U{2008}', '\U{2009}', '\U{200A}',
    '\U{2028}', '\U{2029}', '\U{202F}', '\U{205F}', '\U{3000}'}

  predicate IsSpace(c: char) {
    c in Whitespace
  }

  /** `s.lstrip(chars)`: drops the longest prefix made of dropped characters. */
  function TrimLeft(s: string, drop: set<char>): (r: string)
    decreases |s|
  {
    if s != [] && s[0] in drop then TrimLeft(s[1..], drop) else s
  }

  /** `s.rstrip(chars)`: drops the longest suffix made of dropped characters. */
  function TrimRight(s: string, drop: set<char>): (r: string)
    decreases |s|
  {
    if s != [] && s[|s| - 1] in drop then TrimRight(s[..|s| - 1], drop) else s
  }

  /** `s.strip(chars)`. */
  function StripBy(s: string, drop: set<char>): (r: string) {
    TrimRight(TrimLeft(s, drop), drop)
  }

  /** `s.strip()`. */
  function Strip(s: string): (r: string) {
    StripBy(s, Whitespace)
  }

  /** A string that neither begins nor ends with a dropped character is
      left as it is by `strip`. */
  lemma StripClean(s: string, drop: set<char>)
    requires s == [] || (s[0] !in drop && s[|s| - 1] !in drop)
    ensures StripBy(s, drop) == s
  {
  }

  lemma TrimOneBlank(d: string)
    requires d != [] && !IsSpace(d[0])
    ensures TrimLeft(" " + d, Whitespace) == d
    ensures TrimRight(d + " ", Whitespace) == TrimRight(d, Whitespace)
  {
    assert (" " + d)[1..] == d;
    assert (d + " ")[..|d|] == d;
  }

  /** `d` and `d + " "` strip to `d` when `d` is a non-empty string whose
      ends are not blank. */
  lemma StripTrailing(d: string)
    requires d != [] && !IsSpace(d[0]) && !IsSpace(d[|d| - 1])
    ensures Strip(d) == d
    ensures Strip(d + " ") == d
  {
    StripClean(d, Whitespace);
    TrimOneBlank(d);
    assert TrimLeft(d + " ", Whitespace) == d + " ";
  }

  /** ... and so does `" " + d + " "`. */
  lemma StripPadded(d: string)
    requires d != [] && !IsSpace(d[0]) && !IsSpace(d[|d| - 1])
    ensures Strip(" " + d + " ") == d
  {
    StripTrailing(d);
    TrimOneBlank(d + " ");
    assert " " + d + " " == " " + (d + " ");
  }

  lemma StripBlank()
    ensures Strip(" ") == ""
    ensures Strip("") == ""
  {
    assert " "[1..] == "";
  }

  /** Python's `str.lower()` on ASCII letters; other characters are kept. */
  function LowerChar(c: char): char {
    if 'A' <= c <= 'Z' then (c as int + 32) as char else c
  }

  function Lower(s: string): (r: string)
    ensures |r| == |s|
    ensures forall k :: 0 <= k < |s| ==> r[k] == LowerChar(s[k])
  {
    seq(|s|, k requires 0 <= k < |s| => LowerChar(s[k]))
  }

  /** `needle in hay` for strings: `needle` is a prefix of some suffix of `hay`. */
  predicate IsInfix(needle: string, hay: string)
    decreases |hay|
  {
    needle <= hay || (hay != [] && IsInfix(needle, hay[1..]))
  }

  predicate IsDigit(c: char) {
    '0' <= c <= '9'
  }

  function Digit(d: int): (c: char)
    requires 0 <= d < 10
    ensures IsDigit(c)
  {
    ('0' as int + d) as char
  }

  /** `str(n)` for a natural number: its decimal digits, most significant first. */
  function NatStr(n: nat): (r: string)
    ensures r != []
    ensures forall k :: 0 <= k < |r| ==> IsDigit(r[k])
  {
    if n < 10 then [Digit(n)] else NatStr(n / 10) + [Digit(n % 10)]
  }

  /** `str(i)` for an integer. */
  function IntStr(i: int): (r: string) {
    if i < 0 then "-" + NatStr(-i) else NatStr(i)
  }

  /** The number of occurrences of `c` in `s`. */
  function Count(s: string, c: char): (r: nat)
    ensures r <= |s|
  {
    if s == [] then 0 else (if s[0] == c then 1 else 0) + Count(s[1..], c)
  }

  /** Occurrences in a concatenation add up. */
  lemma {:induction false} CountAppend(a: string, b: string, c: char)
    ensures Count(a + b, c) == Count(a, c) + Count(b, c)
    decreases |a|
  {
    if a != [] {
      assert (a + b)[0] == a[0];
      assert (a + b)[1..] == a[1..] + b;
      CountAppend(a[1..], b, c);
    } else {
      assert a + b == b;
    }
  }

  /** A character that does not occur is counted zero times. */
  lemma {:induction false} CountAbsent(s: string, c: char)
    requires c !in s
    ensures Count(s, c) == 0
    decreases |s|
  {
    if s != [] {
      CountAbsent(s[1..], c);
    }
  }

  /** Python's `c * n`: `n` copies of `c`, none when `n` is not positive. */
  function Repeat(c: char, n: int): (r: string)
    ensures |r| == if n < 0 then 0 else n
    ensures Count(r, c) == |r|
    ensures forall d :: d != c ==> Count(r, d) == 0
  {
    if n <= 0 then []
    else
      var rest := Repeat(c, n - 1);
      assert ([c] + rest)[1..] == rest;
      [c] + rest
  }
}
