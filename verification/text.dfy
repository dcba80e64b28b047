/**
 * The handful of Python string operations the converter relies on:
 * `find`, `in`, `startswith`/`endswith`, `strip`, `split` and `str(n)`.
 * Strings are sequences of characters; no character encoding is modelled.
 */
module Text {

  /** `t` occurs in `s` starting at index `i`. */
  predicate OccursAt(s: string, t: string, i: int) {
    0 <= i && i + |t| <= |s| && s[i..i + |t|] == t
  }

  /** Python's `s.find(t, i)`: the first occurrence of `t` at or after `i`, or -1. */
  function FindFrom(s: string, t: string, i: nat): (r: int)
    requires i <= |s|
    ensures r == -1 || (i <= r && OccursAt(s, t, r))
    ensures r == -1 ==> forall j :: i <= j ==> !OccursAt(s, t, j)
    ensures r != -1 ==> forall j :: i <= j < r ==> !OccursAt(s, t, j)
    decreases |s| - i
  {
    if i + |t| > |s| then -1
    else if s[i..i + |t|] == t then i
    else FindFrom(s, t, i + 1)
  }

  /** Python's `s.find(t)`. */
  function Find(s: string, t: string): (r: int)
    ensures r == -1 <==> forall j :: !OccursAt(s, t, j)
    ensures r != -1 ==> OccursAt(s, t, r) && forall j :: 0 <= j < r ==> !OccursAt(s, t, j)
  {
    FindFrom(s, t, 0)
  }

  /** Python's `t in s` for strings: a substring test. */
  predicate Contains(s: string, t: string) {
    Find(s, t) != -1
  }

  /** Python's `s.startswith(p)`, and `s.find(p) == 0`. */
  predicate StartsWith(s: string, p: string) {
    |p| <= |s| && s[..|p|] == p
  }

  /** Python's `s.endswith(x)`. */
  predicate EndsWith(s: string, x: string) {
    |x| <= |s| && s[|s| - |x|..] == x
  }

  /** The characters Python 2's argument-less `str.strip()` removes from a byte string. */
  const Whitespace: set<char> := {' ', '\t', '\n', '\r', '\U{0B}', '\U{0C}'}

  /**
   * The characters Python 2's argument-less `unicode.strip()` removes: those
   * its Unicode 5.2 database calls white space.
   */
  predicate UnicodeSpace(ch: char) {
    || '\t' <= ch <= '\r'
    || '\U{1C}' <= ch <= ' '
    || ch == '\U{85}' || ch == '\U{A0}' || ch == '\U{1680}' || ch == '\U{180E}'
    || '\U{2000}' <= ch <= '\U{200A}'
    || ch == '\U{2028}' || ch == '\U{2029}' || ch == '\U{202F}' || ch == '\U{205F}' || ch == '\U{3000}'
  }

  /** The same characters as a set; all of them lie below U+3001. */
  const UnicodeWhitespace: set<char> := set ch: char | '\0' <= ch <= '\U{3000}' && UnicodeSpace(ch)

  /**
   * Every character is below 0x80: a byte string Python 2 can decode, or a
   * unicode string it can encode, with its default `ascii` codec.
   */
  predicate Ascii(s: string) {
    forall i :: 0 <= i < |s| ==> s[i] < '\U{80}'
  }

  /** Every character of `s` is in `cs`. */
  predicate AllIn(s: string, cs: set<char>) {
    forall k :: 0 <= k < |s| ==> s[k] in cs
  }

  /** Neither end of `s` is in `cs`: there is nothing left to strip. */
  predicate Trimmed(s: string, cs: set<char>) {
    |s| == 0 || (s[0] !in cs && s[|s| - 1] !in cs)
  }

  /** Python's `s.lstrip(cs)`: the longest suffix that does not start with a character of `cs`. */
  function TrimLeft(s: string, cs: set<char>): string
  {
    if |s| > 0 && s[0] in cs then TrimLeft(s[1..], cs) else s
  }

  /** `TrimLeft` drops a prefix of characters from `cs` and stops at the first one outside it. */
  lemma {:induction false} TrimLeftDrops(s: string, cs: set<char>)
    ensures var r := TrimLeft(s, cs);
            && |r| <= |s| && r == s[|s| - |r|..]
            && AllIn(s[..|s| - |r|], cs)
            && (|r| > 0 ==> r[0] !in cs)
    decreases |s|
  {
    if |s| > 0 && s[0] in cs {
      TrimLeftDrops(s[1..], cs);
      var r := TrimLeft(s, cs);
      assert s[1..][|s| - 1 - |r|..] == s[|s| - |r|..];
      forall k | 0 <= k < |s| - |r|
        ensures s[k] in cs
      {
        if k > 0 {
          assert s[k] == s[1..][..|s| - 1 - |r|][k - 1];
        }
      }
    }
  }

  /** Python's `s.rstrip(cs)`: the longest prefix that does not end with a character of `cs`. */
  function TrimRight(s: string, cs: set<char>): string
  {
    if |s| > 0 && s[|s| - 1] in cs then TrimRight(s[..|s| - 1], cs) else s
  }

  /** `TrimRight` drops a suffix of characters from `cs` and stops at the last one outside it. */
  lemma {:induction false} TrimRightDrops(s: string, cs: set<char>)
    ensures var r := TrimRight(s, cs);
            && |r| <= |s| && r == s[..|r|]
            && AllIn(s[|r|..], cs)
            && (|r| > 0 ==> r[|r| - 1] !in cs)
    decreases |s|
  {
    if |s| > 0 && s[|s| - 1] in cs {
      var front := s[..|s| - 1];
      TrimRightDrops(front, cs);
      var r := TrimRight(s, cs);
      assert front[..|r|] == s[..|r|];
      forall k | 0 <= k < |s| - |r|
        ensures s[|r|..][k] in cs
      {
        if |r| + k < |s| - 1 {
          assert s[|r|..][k] == front[|r|..][k];
        }
      }
    }
  }

  /**
   * Python's `s.strip(cs)`: `s` with its leading and trailing characters
   * from `cs` removed, and nothing else changed.
   */
  function Trim(s: string, cs: set<char>): (r: string)
    ensures Trimmed(r, cs)
    ensures exists i :: OccursAt(s, r, i) && AllIn(s[..i], cs) && AllIn(s[i + |r|..], cs)
  {
    var l := TrimLeft(s, cs);
    var r := TrimRight(l, cs);
    TrimLeftDrops(s, cs);
    TrimRightDrops(l, cs);
    var i := |s| - |l|;
    assert OccursAt(s, r, i) by {
      assert s[i..i + |r|] == l[..|r|];
    }
    assert AllIn(s[i + |r|..], cs) by {
      assert s[i + |r|..] == l[|r|..];
    }
    assert |r| > 0 ==> r[0] == l[0];
    r
  }

  /** `r` occurs in `s` at or after `start`, with only characters of `cs` between `start` and it and after it. */
  predicate FramedAfter(s: string, r: string, start: int, cs: set<char>) {
    exists j :: 0 <= start <= j <= |s| && OccursAt(s, r, j) && AllIn(s[start..j], cs) && AllIn(s[j + |r|..], cs)
  }

  /** Stripping the tail of `s` from `start` on gives a text framed after `start` by characters of `cs`. */
  lemma TrimFrom(s: string, start: nat, cs: set<char>)
    requires start <= |s|
    ensures FramedAfter(s, Trim(s[start..], cs), start, cs)
  {
    var t := s[start..];
    var r := Trim(t, cs);
    var i :| OccursAt(t, r, i) && AllIn(t[..i], cs) && AllIn(t[i + |r|..], cs);
    ShiftFramed(s, start, r, i, cs);
  }

  /** An occurrence framed by characters of `cs` in a tail of `s` is one in `s` itself. */
  lemma ShiftFramed(s: string, start: nat, r: string, i: int, cs: set<char>)
    requires start <= |s|
    requires OccursAt(s[start..], r, i) && AllIn(s[start..][..i], cs) && AllIn(s[start..][i + |r|..], cs)
    ensures OccursAt(s, r, start + i) && AllIn(s[start..start + i], cs) && AllIn(s[start + i + |r|..], cs)
  {
    var t := s[start..];
    var j := start + i;
    assert s[j..j + |r|] == t[i..i + |r|];
    assert s[start..j] == t[..i];
    assert s[j + |r|..] == t[i + |r|..];
  }

  /** Stripping what is already stripped changes nothing. */
  lemma TrimOfTrimmed(s: string, cs: set<char>)
    requires Trimmed(s, cs)
    ensures Trim(s, cs) == s
  {
  }

  /** Stripping is idempotent. */
  lemma TrimIdempotent(s: string, cs: set<char>)
    ensures Trim(Trim(s, cs), cs) == Trim(s, cs)
  {
    TrimOfTrimmed(Trim(s, cs), cs);
  }

  /** Concatenation is associative. */
  lemma Associative<T>(a: seq<T>, b: seq<T>, c: seq<T>)
    ensures a + b + c == a + (b + c)
  {
  }

  /** Rejoins pieces with the separator `c` between them; the inverse of `Split`. */
  function Join(parts: seq<string>, c: char): string
  {
    if |parts| == 0 then ""
    else if |parts| == 1 then parts[0]
    else parts[0] + [c] + Join(parts[1..], c)
  }

  /**
   * Python's `s.split(c)` for a one-character separator: the maximal
   * separator-free pieces, of which there is always at least one.
   */
  function Split(s: string, c: char): (r: seq<string>)
    ensures |r| >= 1
    ensures forall i :: 0 <= i < |r| ==> c !in r[i]
  {
    if |s| == 0 then [""]
    else
      var rest := Split(s[1..], c);
      if s[0] == c then [""] + rest
      else [[s[0]] + rest[0]] + rest[1..]
  }

  /** Joining the pieces of a split with the separator gives back the text. */
  lemma {:induction false} SplitRejoins(s: string, c: char)
    ensures Join(Split(s, c), c) == s
    decreases |s|
  {
    if |s| > 0 {
      var rest := Split(s[1..], c);
      SplitRejoins(s[1..], c);
      if s[0] == c {
        assert [c] + s[1..] == s;
      } else {
        var r := [[s[0]] + rest[0]] + rest[1..];
        assert r[1..] == rest[1..];
        assert Join(r, c) == [s[0]] + Join(rest, c);
        assert [s[0]] + s[1..] == s;
      }
    }
  }

  /** The decimal digit for `d`. */
  function DigitChar(d: nat): (ch: char)
    requires d < 10
    ensures '0' <= ch <= '9'
    ensures ch as int - '0' as int == d
  {
    "0123456789"[d]
  }

  /** Python's `str(n)` for a natural number: its decimal digits, most significant first. */
  function Decimal(n: nat): (r: string)
    ensures |r| >= 1
    ensures forall i :: 0 <= i < |r| ==> '0' <= r[i] <= '9'
    ensures r[0] == '0' <==> n == 0
  {
    if n < 10 then [DigitChar(n)] else Decimal(n / 10) + [DigitChar(n % 10)]
  }

  /** The number a run of decimal digits stands for. */
  function DecimalValue(s: string): (n: nat)
    requires forall i :: 0 <= i < |s| ==> '0' <= s[i] <= '9'
  {
    if |s| == 0 then 0
    else 10 * DecimalValue(s[..|s| - 1]) + (s[|s| - 1] as int - '0' as int)
  }

  /** `str(n)` reads back as `n`. */
  lemma {:induction false} DecimalReads(n: nat)
    ensures DecimalValue(Decimal(n)) == n
  {
    if n >= 10 {
      var r := Decimal(n);
      DecimalReads(n / 10);
      assert r[..|r| - 1] == Decimal(n / 10);
      assert "0123456789"[n % 10] as int - '0' as int == n % 10;
    } else {
      assert "0123456789"[n] as int - '0' as int == n;
    }
  }
}
