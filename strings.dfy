/**
  Text primitives the listing relies on: decimal rendering of integers
  (Python's `str(int)`), code-point string order (Python's `<` on `str`),
  `str.split` on one separator character and `str.join`.
 */
module Strings {

  // ---------------------------------------------------------------------
  // Decimal rendering

  predicate IsDigit(c: char) {
    '0' <= c <= '9'
  }

  predicate IsDigits(s: string) {
    forall i :: 0 <= i < |s| ==> IsDigit(s[i])
  }

  /** The value of a string of decimal digits, most significant first. */
  function DigitsValue(s: string): nat
    requires IsDigits(s)
  {
    if s == [] then 0
    else 10 * DigitsValue(s[..|s| - 1]) + (s[|s| - 1] as int - '0' as int)
  }

  function DigitChar(d: nat): (c: char)
    requires d < 10
    ensures IsDigit(c) && c as int - '0' as int == d
  {
    ('0' as int + d) as char
  }

  /** `str(n)` for a non-negative integer: the canonical decimal numeral. */
  function NatToString(n: nat): (s: string)
    ensures |s| >= 1 && IsDigits(s)
    ensures DigitsValue(s) == n
    ensures s[0] == '0' ==> n == 0 && |s| == 1
    decreases n
  {
    if n < 10 then [DigitChar(n)]
    else
      var prefix := NatToString(n / 10);
      var s := prefix + [DigitChar(n % 10)];
      assert s[..|s| - 1] == prefix;
      s
  }

  /** `str(i)` for any integer: a minus sign before the numeral of `|i|`. */
  function IntToString(i: int): (s: string)
    ensures |s| >= 1
    ensures s[0] == '-' <==> i < 0
    ensures i < 0 ==> IsDigits(s[1..]) && DigitsValue(s[1..]) == -i
    ensures i >= 0 ==> IsDigits(s) && DigitsValue(s) == i
    ensures i >= 0 && s[0] == '0' ==> |s| == 1
    ensures i < 0 ==> |s| >= 2 && s[1] != '0'
  {
    if i < 0 then
      var s := "-" + NatToString(-i);
      assert s[1..] == NatToString(-i);
      s
    else NatToString(i)
  }

  /** `str(i)` holds only digits and, first, a minus sign. */
  lemma IntToStringChars(i: int)
    ensures forall c :: c in IntToString(i) ==> c == '-' || IsDigit(c)
  {
    var s := IntToString(i);
    forall c | c in s
      ensures c == '-' || IsDigit(c)
    {
      var k :| 0 <= k < |s| && s[k] == c;
      if i < 0 && k > 0 {
        assert s[1..][k - 1] == c;
      }
    }
  }

  /** Two canonical numerals with the same value are the same string. */
  lemma {:induction false} CanonicalNumeralUnique(s: string, t: string)
    requires IsDigits(s) && IsDigits(t) && |s| >= 1 && |t| >= 1
    requires s[0] == '0' ==> |s| == 1
    requires t[0] == '0' ==> |t| == 1
    requires DigitsValue(s) == DigitsValue(t)
    ensures s == t
    decreases |s|
  {
    var vs, vt := DigitsValue(s), DigitsValue(t);
    var ls, lt := s[|s| - 1] as int - '0' as int, t[|t| - 1] as int - '0' as int;
    var ps, pt := s[..|s| - 1], t[..|t| - 1];
    assert vs == 10 * DigitsValue(ps) + ls;
    assert vt == 10 * DigitsValue(pt) + lt;
    assert ls == lt && DigitsValue(ps) == DigitsValue(pt);
    if |s| == 1 || |t| == 1 {
      LeadingDigitPositive(s);
      LeadingDigitPositive(t);
    } else {
      assert ps[0] == s[0] && pt[0] == t[0];
      CanonicalNumeralUnique(ps, pt);
      assert s == ps + [s[|s| - 1]] && t == pt + [t[|t| - 1]];
    }
  }

  /** A numeral of two or more digits without a leading zero is worth at least 10. */
  lemma {:induction false} LeadingDigitPositive(s: string)
    requires IsDigits(s) && |s| >= 1
    requires s[0] == '0' ==> |s| == 1
    ensures |s| >= 2 ==> DigitsValue(s) >= 10
    ensures |s| == 1 ==> DigitsValue(s) == s[0] as int - '0' as int
    decreases |s|
  {
    if |s| >= 2 {
      var p := s[..|s| - 1];
      assert p[0] == s[0];
      LeadingDigitPositive(p);
      if |p| == 1 {
        assert DigitsValue(p) >= 1;
      }
    } else {
      assert s[..0] == [];
    }
  }

  /** `int(str(n)) == n` and `str(int(s)) == s` for canonical numerals. */
  lemma NatToStringRoundTrip(s: string)
    requires IsDigits(s) && |s| >= 1
    requires s[0] == '0' ==> |s| == 1
    ensures NatToString(DigitsValue(s)) == s
  {
    CanonicalNumeralUnique(NatToString(DigitsValue(s)), s);
  }

  // ---------------------------------------------------------------------
  // Code-point order on strings

  /** Python's `a < b` on `str`: lexicographic on code points, a proper
      prefix before any extension of it. */
  predicate StrLess(a: string, b: string)
    decreases |a|
  {
    |b| > 0 && (|a| == 0 || a[0] < b[0] || (a[0] == b[0] && StrLess(a[1..], b[1..])))
  }

  lemma {:induction false} StrLessIrreflexive(a: string)
    ensures !StrLess(a, a)
    decreases |a|
  {
    if |a| > 0 {
      StrLessIrreflexive(a[1..]);
    }
  }

  lemma {:induction false} StrLessTransitive(a: string, b: string, c: string)
    requires StrLess(a, b) && StrLess(b, c)
    ensures StrLess(a, c)
    decreases |a|
  {
    if |a| > 0 && a[0] == b[0] && b[0] == c[0] {
      StrLessTransitive(a[1..], b[1..], c[1..]);
    }
  }

  lemma {:induction false} StrLessTotal(a: string, b: string)
    ensures a == b || StrLess(a, b) || StrLess(b, a)
    decreases |a|
  {
    if |a| > 0 && |b| > 0 && a[0] == b[0] {
      StrLessTotal(a[1..], b[1..]);
      if a[1..] == b[1..] {
        assert a == [a[0]] + a[1..] && b == [b[0]] + b[1..];
      }
    }
  }

  lemma StrLessAsymmetric(a: string, b: string)
    requires StrLess(a, b)
    ensures !StrLess(b, a)
  {
    if StrLess(b, a) {
      StrLessTransitive(a, b, a);
      StrLessIrreflexive(a);
    }
  }

  // ---------------------------------------------------------------------
  // split and join

  /** Position of the first occurrence of `c` in `s`. */
  function IndexOf(s: string, c: char): (i: nat)
    requires c in s
    ensures i < |s| && s[i] == c && c !in s[..i]
  {
    if s[0] == c then 0
    else
      var i := 1 + IndexOf(s[1..], c);
      assert s[..i] == [s[0]] + s[1..][..i - 1];
      i
  }

  /** Python's `s.split(c)`: the maximal pieces between occurrences of `c`,
      empty pieces included; a string without `c` is one piece. */
  function Split(s: string, c: char): (parts: seq<string>)
    ensures |parts| >= 1
    ensures forall i :: 0 <= i < |parts| ==> c !in parts[i]
    decreases |s|
  {
    if c !in s then [s]
    else
      var i := IndexOf(s, c);
      [s[..i]] + Split(s[i + 1..], c)
  }

  /** Python's `sep.join(parts)`. */
  function Join(sep: string, parts: seq<string>): string
  {
    if parts == [] then ""
    else if |parts| == 1 then parts[0]
    else parts[0] + sep + Join(sep, parts[1..])
  }

  /** Joining four pieces puts the separator between each two of them. */
  lemma JoinFour(sep: string, a: string, b: string, c: string, d: string)
    ensures Join(sep, [a, b, c, d]) == a + sep + b + sep + c + sep + d
  {
    var parts := [a, b, c, d];
    assert parts[1..] == [b, c, d] && parts[1..][1..] == [c, d];
    assert Join(sep, [c, d]) == c + sep + d;
    assert Join(sep, [b, c, d]) == b + sep + (c + sep + d);
    assert a + sep + (b + sep + (c + sep + d)) == a + sep + b + sep + c + sep + d;
  }

  /** Joining one more piece adds the separator and the piece at the end. */
  lemma {:induction false} JoinAppend(sep: string, parts: seq<string>, last: string)
    requires |parts| >= 1
    ensures Join(sep, parts + [last]) == Join(sep, parts) + sep + last
    decreases |parts|
  {
    var all := parts + [last];
    assert all[0] == parts[0] && all[1..] == parts[1..] + [last];
    if |parts| > 1 {
      JoinAppend(sep, parts[1..], last);
    }
  }

  /** A character in neither the separator nor any piece is not in the join. */
  lemma {:induction false} JoinAvoids(sep: string, parts: seq<string>, c: char)
    requires c !in sep
    requires forall i :: 0 <= i < |parts| ==> c !in parts[i]
    ensures c !in Join(sep, parts)
    decreases |parts|
  {
    if |parts| > 1 {
      JoinAvoids(sep, parts[1..], c);
    }
  }

  /** Joining the pieces of a split with the separator gives back the string. */
  lemma {:induction false} JoinSplit(s: string, c: char)
    ensures Join([c], Split(s, c)) == s
    decreases |s|
  {
    if c in s {
      var i := IndexOf(s, c);
      var rest := Split(s[i + 1..], c);
      JoinSplit(s[i + 1..], c);
      assert Split(s, c)[1..] == rest;
      assert s == s[..i] + [c] + s[i + 1..];
    }
  }

  /** Splitting a join of separator-free pieces gives back the pieces. */
  lemma {:induction false} SplitJoin(parts: seq<string>, c: char)
    requires |parts| >= 1
    requires forall i :: 0 <= i < |parts| ==> c !in parts[i]
    ensures Split(Join([c], parts), c) == parts
    decreases |parts|
  {
    if |parts| > 1 {
      var a, tail := parts[0], Join([c], parts[1..]);
      var s := a + [c] + tail;
      assert Join([c], parts) == s;
      assert c in s by { assert s[|a|] == c; }
      var i := IndexOf(s, c);
      assert i == |a|;
      assert s[..i] == a;
      assert s[i + 1..] == tail;
      SplitJoin(parts[1..], c);
    }
  }
}
