/**
 * The PHP built-ins the thumbnail helper relies on, restricted to what it
 * uses them for: turning an integer into text by concatenation, `strrchr`,
 * `substr($s, 0, n)`, and the `preg_match('#[^/]+$#', ...)` that extracts
 * the last path segment.
 */
module Php {
  import opened Wrappers

  /** DIRECTORY_SEPARATOR on the POSIX hosts this model describes. */
  const SEP: char := '/'

  predicate IsDigit(c: char) {
    '0' <= c <= '9'
  }

  function DigitChar(d: nat): (c: char)
    requires d < 10
    ensures IsDigit(c)
  {
    ('0' as int + d) as char
  }

  function DigitValue(c: char): (d: nat)
    requires IsDigit(c)
    ensures d < 10 && DigitChar(d) == c
  {
    c as int - '0' as int
  }

  /** The decimal text of a non-negative integer, as PHP writes it
      when the integer is concatenated into a string. */
  function NatToString(n: nat): (s: string)
    ensures |s| >= 1
    ensures forall i :: 0 <= i < |s| ==> IsDigit(s[i])
    decreases n
  {
    if n < 10 then [DigitChar(n)] else NatToString(n / 10) + [DigitChar(n % 10)]
  }

  /** The decimal text of any integer: a minus sign, then the digits of its magnitude. */
  function IntToString(i: int): (s: string)
    ensures |s| >= 1 && ((s[0] == '-') <==> i < 0)
    ensures forall k :: (if i < 0 then 1 else 0) <= k < |s| ==> IsDigit(s[k])
  {
    if i < 0 then "-" + NatToString(-i) else NatToString(i)
  }

  /** The number a string of decimal digits denotes (the reading direction
      of NatToString, used to show that no information is lost). */
  function DecimalValue(s: string): nat
    requires forall i :: 0 <= i < |s| ==> IsDigit(s[i])
  {
    if s == [] then 0 else 10 * DecimalValue(s[..|s| - 1]) + DigitValue(s[|s| - 1])
  }

  lemma {:induction false} DecimalValueOfNatToString(n: nat)
    ensures DecimalValue(NatToString(n)) == n
    decreases n
  {
    if n >= 10 {
      var s := NatToString(n);
      assert s[..|s| - 1] == NatToString(n / 10);
      DecimalValueOfNatToString(n / 10);
    }
  }

  lemma NatToStringInjective(a: nat, b: nat)
    requires NatToString(a) == NatToString(b)
    ensures a == b
  {
    DecimalValueOfNatToString(a);
    DecimalValueOfNatToString(b);
  }

  /** Distinct integers are written as distinct texts. */
  lemma IntToStringInjective(a: int, b: int)
    requires IntToString(a) == IntToString(b)
    ensures a == b
  {
    var s := IntToString(a);
    assert IsDigit(NatToString(if a < 0 then -a else a)[0]);
    assert IsDigit(NatToString(if b < 0 then -b else b)[0]);
    assert (a < 0) == (s[0] == '-') == (b < 0);
    if a < 0 {
      assert NatToString(-a) == s[1..] == NatToString(-b);
      NatToStringInjective(-a, -b);
    } else {
      NatToStringInjective(a, b);
    }
  }

  /** strrchr($s, $c): the tail of s that starts at the last occurrence
      of c, or false (None) when c does not occur in s. */
  function Strrchr(s: string, c: char): (r: Option<string>)
    ensures r.None? <==> c !in s
    ensures r.Some? ==> 0 < |r.value| <= |s| && r.value == s[|s| - |r.value|..]
    ensures r.Some? ==> r.value[0] == c && c !in r.value[1..]
  {
    if s == [] then None
    else
      var last := s[|s| - 1];
      assert s == s[..|s| - 1] + [last];
      if last == c then Some([c])
      else match Strrchr(s[..|s| - 1], c)
        case None => None
        case Some(t) => Some(t + [last])
  }

  /** substr($s, 0, $n) for n >= 0: the first n characters, or all of s when it is shorter. */
  function Prefix(s: string, n: nat): (r: string)
    ensures |r| == if |s| <= n then |s| else n
    ensures r == s[..|r|]
  {
    if |s| <= n then s else s[..n]
  }

  /** What `preg_match('#[^/]+$#', $s, $m)` leaves in `$m[0]`, read as a
      string: the longest non-empty run of non-separators at the end of s,
      or "" when s is empty or ends with a separator (no match; the unset
      `$m[0]` concatenates as the empty string). */
  function LastSegment(s: string): (r: string)
    ensures |r| <= |s| && r == s[|s| - |r|..]
    ensures SEP !in r
    ensures |r| == |s| || s[|s| - |r| - 1] == SEP
  {
    if s == [] || s[|s| - 1] == SEP then []
    else
      assert s == s[..|s| - 1] + [s[|s| - 1]];
      LastSegment(s[..|s| - 1]) + [s[|s| - 1]]
  }

  /** The last segment after a separator is exactly what follows it,
      provided that part holds no separator itself. */
  lemma LastSegmentAfterSeparator(a: string, b: string)
    requires SEP !in b
    ensures LastSegment(a + [SEP] + b) == b
  {
    var s := a + [SEP] + b;
    var r := LastSegment(s);
    assert s[|s| - |b| - 1] == SEP;
    assert |r| == |b|;
    assert r == s[|s| - |b|..] == b;
  }

  /** When the tail holds a separator, the last segment is shorter than it. */
  lemma LastSegmentShorterThanTail(a: string, t: string)
    requires SEP in t
    ensures |LastSegment(a + t)| < |t|
  {
    var s := a + t;
    var r := LastSegment(s);
    var k :| 0 <= k < |t| && t[k] == SEP;
    assert s[|s| - |t| + k] == SEP;
  }
}
