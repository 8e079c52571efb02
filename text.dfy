/**
  String helpers shared by the upload checks and the message log: the few
  Python string operations the relay relies on, written out over seq<char>.
 */
module Text {

  /** Python's str.lower() restricted to ASCII letters. */
  function LowerChar(c: char): (r: char)
    ensures !('A' <= r <= 'Z')
    ensures (r == '.') == (c == '.')
  {
    if 'A' <= c <= 'Z' then (c as int + 32) as char else c
  }

  /** Python's s.lower(), character by character. */
  function Lower(s: string): (r: string)
    ensures |r| == |s|
    ensures forall i :: 0 <= i < |s| ==> r[i] == LowerChar(s[i])
  {
    seq(|s|, i requires 0 <= i < |s| => LowerChar(s[i]))
  }

  lemma LowerAppend(a: string, b: string)
    ensures Lower(a + b) == Lower(a) + Lower(b)
  {
    assert forall i :: 0 <= i < |a + b| ==> Lower(a + b)[i] == (Lower(a) + Lower(b))[i];
  }

  /** Text with no upper-case ASCII letter is its own lower-case form. */
  lemma LowerUnchanged(s: string)
    requires forall i :: 0 <= i < |s| ==> !('A' <= s[i] <= 'Z')
    ensures Lower(s) == s
  {
  }

  /**
    The text after the last '.' of s, or all of s when it has no '.':
    Python's s.split('.')[-1], and s.rsplit('.', 1)[1] when '.' in s.
    It is the longest suffix of s that holds no '.'.
   */
  function LastSegment(s: string): (r: string)
    ensures '.' !in r
    ensures |r| <= |s| && r == s[|s| - |r|..]
    ensures |r| < |s| ==> s[|s| - |r| - 1] == '.'
    decreases |s|
  {
    if s == [] || s[|s| - 1] == '.' then []
    else LastSegment(s[..|s| - 1]) + [s[|s| - 1]]
  }

  /** A string without '.' is its own last segment. */
  lemma {:induction false} LastSegmentNoDot(s: string)
    requires '.' !in s
    ensures LastSegment(s) == s
    decreases |s|
  {
    if s != [] {
      var p := s[..|s| - 1];
      assert s[|s| - 1] in s;
      LastSegmentNoDot(p);
      assert s == p + [s[|s| - 1]];
    }
  }

  /** The last segment is what follows the last '.', wherever that is. */
  lemma {:induction false} LastSegmentAfterDot(s: string, i: nat)
    requires i < |s| && s[i] == '.' && '.' !in s[i + 1..]
    ensures LastSegment(s) == s[i + 1..]
    decreases |s|
  {
    if i < |s| - 1 {
      var p := s[..|s| - 1];
      assert s[|s| - 1] == s[i + 1..][|s| - 1 - (i + 1)];
      assert p[i + 1..] == s[i + 1..|s| - 1];
      LastSegmentAfterDot(p, i);
      assert s[i + 1..] == s[i + 1..|s| - 1] + [s[|s| - 1]];
    }
  }

  /** Text in front of a '.' does not affect the last segment. */
  lemma {:induction false} LastSegmentAppend(a: string, b: string)
    requires '.' in b
    ensures LastSegment(a + b) == LastSegment(b)
    decreases |b|
  {
    var last := b[|b| - 1];
    assert (a + b)[|a + b| - 1] == last;
    if last != '.' {
      var p := b[..|b| - 1];
      assert b == p + [last];
      assert '.' in p;
      assert a + b == (a + p) + [last];
      LastSegmentAppend(a, p);
      LastSegmentSnoc(a + p, last);
      LastSegmentSnoc(p, last);
    }
  }

  /** A character other than '.' put at the end joins the last segment. */
  lemma LastSegmentSnoc(p: string, c: char)
    requires c != '.'
    ensures LastSegment(p + [c]) == LastSegment(p) + [c]
  {
    assert (p + [c])[..|p|] == p;
  }

  /** Lower-casing and taking the last segment commute (lower() keeps '.'). */
  lemma {:induction false} LastSegmentLower(s: string)
    ensures LastSegment(Lower(s)) == Lower(LastSegment(s))
    decreases |s|
  {
    if s != [] && s[|s| - 1] != '.' {
      var p, c := s[..|s| - 1], s[|s| - 1];
      assert s == p + [c];
      LowerAppend(p, [c]);
      assert Lower(s) == Lower(p) + [LowerChar(c)];
      LastSegmentSnoc(Lower(p), LowerChar(c));
      LastSegmentLower(p);
      LowerAppend(LastSegment(p), [c]);
      LastSegmentSnoc(p, c);
    } else if s != [] {
      assert Lower(s)[|s| - 1] == LowerChar('.') == '.';
    }
  }

  function DigitChar(d: nat): (c: char)
    requires d < 10
    ensures '0' <= c <= '9'
  {
    ('0' as int + d) as char
  }

  /** Python's str(n) for a non-negative integer: decimal, no leading zero. */
  function Decimal(n: nat): (r: string)
    ensures |r| >= 1
    ensures forall i :: 0 <= i < |r| ==> '0' <= r[i] <= '9'
    ensures (r[0] == '0') == (n == 0)
    decreases n
  {
    if n < 10 then [DigitChar(n)] else Decimal(n / 10) + [DigitChar(n % 10)]
  }

  predicate AllDigits(s: string) {
    forall i :: 0 <= i < |s| ==> '0' <= s[i] <= '9'
  }

  /** Reads a string of decimal digits back as a number (Python's int(s)). */
  function DecimalValue(s: string): nat
    requires AllDigits(s)
    decreases |s|
  {
    if s == [] then 0 else DecimalValue(s[..|s| - 1]) * 10 + (s[|s| - 1] as int - '0' as int)
  }

  /** Printing a number and reading it back gives the number. */
  lemma {:induction false} DecimalRoundTrip(n: nat)
    ensures DecimalValue(Decimal(n)) == n
    decreases n
  {
    if n >= 10 {
      var d := Decimal(n);
      assert d[..|d| - 1] == Decimal(n / 10);
      DecimalRoundTrip(n / 10);
    }
  }

  /** Distinct numbers print differently. */
  lemma DecimalInjective(a: nat, b: nat)
    requires Decimal(a) == Decimal(b)
    ensures a == b
  {
    DecimalRoundTrip(a);
    DecimalRoundTrip(b);
  }
}
