/**
 * The parts of Python's `str` that the evaluation pipeline relies on:
 * `split()` with no argument, `lower()`, the substring test `p in s`,
 * `sep.join(parts)`, `endswith` and `str()` of a non-negative integer.
 */
module Text {

  // ---------------------------------------------------------------------
  // Whitespace and str.split()
  // ---------------------------------------------------------------------

  /** The characters for which Python's `str.isspace()` holds. */
  predicate IsSpace(c: char)
  {
    ('\t' <= c <= '\r') || ('\U{1c}' <= c <= ' ') || c == '\U{85}' || c == '\U{a0}'
    || c == '\U{1680}' || ('\U{2000}' <= c <= '\U{200a}') || c == '\U{2028}' || c == '\U{2029}'
    || c == '\U{202f}' || c == '\U{205f}' || c == '\U{3000}'
  }

  /** Length of the longest prefix of `s` free of whitespace. */
  function WordLength(s: string): (n: nat)
    ensures n <= |s|
    ensures forall i :: 0 <= i < n ==> !IsSpace(s[i])
    ensures n < |s| ==> IsSpace(s[n])
  {
    if s == [] || IsSpace(s[0]) then 0 else 1 + WordLength(s[1..])
  }

  /** `s.split()`: the maximal runs of non-whitespace characters, in order. */
  function Words(s: string): (ws: seq<string>)
    ensures forall k :: 0 <= k < |ws| ==> ws[k] != [] && forall i :: 0 <= i < |ws[k]| ==> !IsSpace(ws[k][i])
    decreases |s|
  {
    if s == [] then []
    else if IsSpace(s[0]) then Words(s[1..])
    else
      var n := WordLength(s);
      [s[..n]] + Words(s[n..])
  }

  /** `len(s.split())`. */
  function WordCount(s: string): nat
  {
    |Words(s)|
  }

  /**
   * An independent count of words: the positions holding a non-whitespace
   * character that starts the text or follows whitespace. `boundary` says
   * whether the position before `s` ends a word (or is the start).
   */
  function WordStarts(s: string, boundary: bool): nat
  {
    if s == [] then 0
    else (if boundary && !IsSpace(s[0]) then 1 else 0) + WordStarts(s[1..], IsSpace(s[0]))
  }

  /** Inside a word, the starts still to come are those after the word. */
  lemma {:induction false} WordStartsInsideWord(s: string)
    ensures WordStarts(s, false) == WordStarts(s[WordLength(s)..], true)
  {
    if s != [] && !IsSpace(s[0]) {
      WordStartsInsideWord(s[1..]);
      assert s[1..][WordLength(s[1..])..] == s[WordLength(s)..];
    }
  }

  /** `len(s.split())` is the number of word starts in `s`. */
  lemma {:induction false} WordCountIsWordStarts(s: string)
    ensures WordCount(s) == WordStarts(s, true)
    decreases |s|
  {
    if s == [] {
    } else if IsSpace(s[0]) {
      WordCountIsWordStarts(s[1..]);
    } else {
      var n := WordLength(s);
      WordCountIsWordStarts(s[n..]);
      WordStartsInsideWord(s[1..]);
      assert s[1..][WordLength(s[1..])..] == s[n..];
    }
  }

  // ---------------------------------------------------------------------
  // str.lower() and the substring test
  // ---------------------------------------------------------------------

  /** Lower-casing of one character (ASCII letters only). */
  function LowerChar(c: char): char
  {
    if 'A' <= c <= 'Z' then (c as int + 32) as char else c
  }

  /** `s.lower()`, position by position. */
  function Lower(s: string): (r: string)
    ensures |r| == |s|
    ensures forall i :: 0 <= i < |s| ==> r[i] == LowerChar(s[i])
  {
    seq(|s|, i requires 0 <= i < |s| => LowerChar(s[i]))
  }

  /** Lower-casing twice is lower-casing once. */
  lemma LowerIdempotent(s: string)
    ensures Lower(Lower(s)) == Lower(s)
  {
    var l := Lower(s);
    forall i | 0 <= i < |s| ensures Lower(l)[i] == l[i] {
      assert !('A' <= l[i] <= 'Z');
    }
  }

  /** Python's `p in s` for strings: `p` occurs in `s` at some position. */
  predicate Contains(s: string, p: string)
    decreases |s|
  {
    p <= s || (s != [] && Contains(s[1..], p))
  }

  /** `p` occurs in `s` starting at position `i`. */
  predicate OccursAt(s: string, p: string, i: int)
  {
    0 <= i <= |s| - |p| && s[i..i + |p|] == p
  }

  /** `Contains` agrees with the definition by an explicit position. */
  lemma {:induction false} ContainsIffOccurs(s: string, p: string)
    ensures Contains(s, p) <==> exists i :: OccursAt(s, p, i)
    decreases |s|
  {
    if p <= s {
      assert OccursAt(s, p, 0);
    } else if s == [] {
    } else {
      ContainsIffOccurs(s[1..], p);
      if Contains(s[1..], p) {
        var i :| OccursAt(s[1..], p, i);
        assert s[1..][i..i + |p|] == s[i + 1..i + 1 + |p|];
        assert OccursAt(s, p, i + 1);
      } else {
        forall i ensures !OccursAt(s, p, i) {
          if i == 0 && |p| <= |s| {
            assert s[..|p|] == s[0..0 + |p|];
          } else if 0 < i <= |s| - |p| {
            assert s[1..][i - 1..i - 1 + |p|] == s[i..i + |p|];
            assert !OccursAt(s[1..], p, i - 1);
          }
        }
      }
    }
  }

  // ---------------------------------------------------------------------
  // sep.join(parts), splitting on one character, endswith
  // ---------------------------------------------------------------------

  /** `sep.join(parts)`. */
  function Join(sep: string, parts: seq<string>): string
  {
    if |parts| == 0 then ""
    else if |parts| == 1 then parts[0]
    else parts[0] + sep + Join(sep, parts[1..])
  }

  /** `s.split(c)` for a one-character separator `c`. */
  function SplitOn(c: char, s: string): (parts: seq<string>)
    ensures |parts| >= 1
    decreases |s|
  {
    if s == [] then [""]
    else
      var rest := SplitOn(c, s[1..]);
      if s[0] == c then [""] + rest else [[s[0]] + rest[0]] + rest[1..]
  }

  /** Splitting `w + [c] + r` where `w` has no `c` gives `w` followed by the split of `r`. */
  lemma {:induction false} SplitOnPrefix(c: char, w: string, r: string)
    requires c !in w
    ensures SplitOn(c, w + [c] + r) == [w] + SplitOn(c, r)
    decreases |w|
  {
    if w == [] {
      assert (w + [c] + r)[1..] == r;
    } else {
      assert (w + [c] + r)[1..] == w[1..] + [c] + r;
      SplitOnPrefix(c, w[1..], r);
      assert [w[0]] + w[1..] == w;
    }
  }

  /** A string without `c` splits into itself alone. */
  lemma {:induction false} SplitOnNoSeparator(c: char, w: string)
    requires c !in w
    ensures SplitOn(c, w) == [w]
    decreases |w|
  {
    if w != [] {
      SplitOnNoSeparator(c, w[1..]);
      assert [w[0]] + w[1..] == w;
    }
  }

  /** Joining with a one-character separator that no part contains loses nothing. */
  lemma {:induction false} SplitOnJoin(c: char, parts: seq<string>)
    requires |parts| >= 1
    requires forall k :: 0 <= k < |parts| ==> c !in parts[k]
    ensures SplitOn(c, Join([c], parts)) == parts
    decreases |parts|
  {
    if |parts| == 1 {
      SplitOnNoSeparator(c, parts[0]);
    } else {
      SplitOnJoin(c, parts[1..]);
      SplitOnPrefix(c, parts[0], Join([c], parts[1..]));
      assert [parts[0]] + parts[1..] == parts;
    }
  }

  /** `s.endswith(suffix)`. */
  predicate EndsWith(s: string, suffix: string)
  {
    |suffix| <= |s| && s[|s| - |suffix|..] == suffix
  }

  // ---------------------------------------------------------------------
  // str() of a non-negative integer, and its inverse
  // ---------------------------------------------------------------------

  predicate IsDigit(c: char)
  {
    '0' <= c <= '9'
  }

  function DigitChar(d: nat): (c: char)
    requires d < 10
    ensures IsDigit(c)
  {
    ('0' as int + d) as char
  }

  /** `str(n)` for `n >= 0`: decimal digits, no leading zeros. */
  function NatToString(n: nat): (s: string)
    ensures |s| >= 1
    ensures forall i :: 0 <= i < |s| ==> IsDigit(s[i])
    ensures |s| == 1 || s[0] != '0'
  {
    if n < 10 then [DigitChar(n)] else NatToString(n / 10) + [DigitChar(n % 10)]
  }

  /** The value of a string of decimal digits. */
  function DigitsValue(s: string): nat
    requires forall i :: 0 <= i < |s| ==> IsDigit(s[i])
  {
    if s == [] then 0
    else
      assert IsDigit(s[|s| - 1]);
      DigitsValue(s[..|s| - 1]) * 10 + (s[|s| - 1] as int - '0' as int)
  }

  /** Reading back the digits of `str(n)` gives `n`. */
  lemma {:induction false} NatToStringRoundTrip(n: nat)
    ensures DigitsValue(NatToString(n)) == n
  {
    if n >= 10 {
      var s := NatToString(n);
      NatToStringRoundTrip(n / 10);
      assert s[..|s| - 1] == NatToString(n / 10);
    }
  }
}
