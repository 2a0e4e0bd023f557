/** String handling the handlers rely on: JavaScript's trim() and toLowerCase(),
    the code-unit order used to sort and compare due dates, and the yyyy-MM-dd
    date shape. */
module Text {

  /** The characters String.prototype.trim strips from both ends: the
      ECMAScript WhiteSpace and LineTerminator code points. */
  const WhiteSpace: seq<char> := [
    '\t', '\n', '\U{000B}', '\U{000C}', '\r', ' ', '\U{00A0}', '\U{1680}',
    '\U{2000}', '\U{2001}', '\U{2002}', '\U{2003}', '\U{2004}', '\U{2005}',
    '\U{2006}', '\U{2007}', '\U{2008}', '\U{2009}', '\U{200A}',
    '\U{2028}', '\U{2029}', '\U{202F}', '\U{205F}', '\U{3000}', '\U{FEFF}'
  ]

  /** c is one of the characters cs lists. */
  predicate Occurs(c: char, cs: seq<char>) {
    cs != [] && (c == cs[0] || Occurs(c, cs[1..]))
  }

  /** c is one of the characters trim() strips. */
  predicate IsSpace(c: char) {
    Occurs(c, WhiteSpace)
  }

  /** How many white-space characters s starts with: all of those are white
      space, and the character after them is not. */
  function LeadingSpaces(s: string): (k: nat)
    ensures k <= |s|
    ensures forall i :: 0 <= i < k ==> IsSpace(s[i])
    ensures k < |s| ==> !IsSpace(s[k])
  {
    if s != [] && IsSpace(s[0]) then 1 + LeadingSpaces(s[1..]) else 0
  }

  /** r is s with its leading and trailing white space removed: the infix of
      s that starts right after the leading white space and is followed by
      white space only, with no white space at either end, and empty exactly
      when s is all white space. */
  predicate IsTrimOf(s: string, r: string) {
    && |r| <= |s|
    && (r != [] ==> !IsSpace(r[0]) && !IsSpace(r[|r| - 1]))
    && (r == [] <==> forall i :: 0 <= i < |s| ==> IsSpace(s[i]))
    && LeadingSpaces(s) + |r| <= |s| && r == s[LeadingSpaces(s)..LeadingSpaces(s) + |r|]
    && (forall i :: LeadingSpaces(s) + |r| <= i < |s| ==> IsSpace(s[i]))
  }

  /** JavaScript's s.trim(): white space comes off either end until neither
      end is white space. */
  function Trim(s: string): (r: string)
    ensures IsTrimOf(s, r)
    decreases |s|
  {
    if s != [] && IsSpace(s[0]) then
      var r := Trim(s[1..]);
      PeelFirst(s, r);
      r
    else if s != [] && IsSpace(s[|s| - 1]) then
      var r := Trim(s[..|s| - 1]);
      PeelLast(s, r);
      r
    else
      KeepBoth(s);
      s
  }

  /** Dropping a white-space first character does not change what trimming
      leaves. */
  lemma PeelFirst(s: string, r: string)
    requires s != [] && IsSpace(s[0])
    requires IsTrimOf(s[1..], r)
    ensures IsTrimOf(s, r)
  {
    var t := s[1..];
    assert LeadingSpaces(s) == 1 + LeadingSpaces(t);
    assert forall i :: 0 <= i < |t| ==> t[i] == s[i + 1];
  }

  /** With a non-white-space first character, dropping a white-space last
      character does not change what trimming leaves. */
  lemma PeelLast(s: string, r: string)
    requires s != [] && !IsSpace(s[0]) && IsSpace(s[|s| - 1])
    requires IsTrimOf(s[..|s| - 1], r)
    ensures IsTrimOf(s, r)
  {
    var t := s[..|s| - 1];
    assert t[0] == s[0] && LeadingSpaces(s) == LeadingSpaces(t) == 0;
    assert forall i :: 0 <= i < |t| ==> t[i] == s[i];
  }

  /** A string with white space at neither end is its own trim. */
  lemma KeepBoth(s: string)
    requires !(s != [] && IsSpace(s[0])) && !(s != [] && IsSpace(s[|s| - 1]))
    ensures IsTrimOf(s, s)
  {
  }

  /** toLowerCase on one character, for the ASCII letters. */
  function LowerChar(c: char): char {
    if 'A' <= c <= 'Z' then (c as int + 32) as char else c
  }

  /** s.toLowerCase(), for ASCII letters: same length, every upper-case
      ASCII letter replaced by its lower-case letter (32 code units further
      on), every other character kept, and so no upper-case ASCII letter
      left. */
  function ToLower(s: string): (r: string)
    ensures |r| == |s|
    ensures forall i :: 0 <= i < |r| ==> !('A' <= r[i] <= 'Z')
    ensures forall i :: 0 <= i < |s| && !('A' <= s[i] <= 'Z') ==> r[i] == s[i]
    ensures forall i :: 0 <= i < |s| && 'A' <= s[i] <= 'Z' ==> r[i] as int == s[i] as int + 32
  {
    seq(|s|, i requires 0 <= i < |s| => LowerChar(s[i]))
  }

  /** s.trim().toLowerCase(), the normalisation applied to every user,
      notification and task id a request carries: white space comes off
      either end as in Trim, then what is left is lowered.
      TrimLowerIsTrimThenLower shows this is ToLower(Trim(s)). */
  function TrimLower(s: string): (r: string)
    ensures |r| <= |s|
    decreases |s|
  {
    if s != [] && IsSpace(s[0]) then TrimLower(s[1..])
    else if s != [] && IsSpace(s[|s| - 1]) then TrimLower(s[..|s| - 1])
    else ToLower(s)
  }

  /** The normalisation is trim() followed by toLowerCase(). */
  lemma {:induction false} TrimLowerIsTrimThenLower(s: string)
    ensures TrimLower(s) == ToLower(Trim(s))
    decreases |s|
  {
    if s != [] && IsSpace(s[0]) {
      TrimLowerIsTrimThenLower(s[1..]);
    } else if s != [] && IsSpace(s[|s| - 1]) {
      TrimLowerIsTrimThenLower(s[..|s| - 1]);
    }
  }

  /** A normalised id is empty exactly when the raw id held only white space. */
  lemma TrimLowerEmpty(s: string)
    ensures TrimLower(s) == [] <==> forall i :: 0 <= i < |s| ==> IsSpace(s[i])
  {
    TrimLowerIsTrimThenLower(s);
  }

  /** a <= b in code-unit order. localeCompare orders strings made of ASCII
      digits and '-' the same way. */
  predicate LexLe(a: string, b: string) {
    a == [] || (b != [] && (a[0] < b[0] || (a[0] == b[0] && LexLe(a[1..], b[1..]))))
  }

  lemma {:induction false} LexLeReflexive(a: string)
    ensures LexLe(a, a)
  {
    if a != [] {
      LexLeReflexive(a[1..]);
    }
  }

  lemma {:induction false} LexLeTotal(a: string, b: string)
    ensures LexLe(a, b) || LexLe(b, a)
  {
    if a != [] && b != [] && a[0] == b[0] {
      LexLeTotal(a[1..], b[1..]);
    }
  }

  lemma {:induction false} LexLeTransitive(a: string, b: string, c: string)
    requires LexLe(a, b) && LexLe(b, c)
    ensures LexLe(a, c)
  {
    if a != [] && a[0] == b[0] && b[0] == c[0] {
      LexLeTransitive(a[1..], b[1..], c[1..]);
    }
  }

  lemma {:induction false} LexLeAntisymmetric(a: string, b: string)
    requires LexLe(a, b) && LexLe(b, a)
    ensures a == b
  {
    if a != [] {
      LexLeAntisymmetric(a[1..], b[1..]);
      assert a == [a[0]] + a[1..] && b == [b[0]] + b[1..];
    }
  }

  predicate IsDigit(c: char) {
    '0' <= c <= '9'
  }

  /** The regular expression ^\d{4}-\d{2}-\d{2}$ (JavaScript's \d is the
      ASCII digits, and $ without the m flag anchors at the end of input). */
  predicate IsDateShape(s: string) {
    |s| == 10 && s[4] == '-' && s[7] == '-' &&
    forall i :: 0 <= i < 10 && i != 4 && i != 7 ==> IsDigit(s[i])
  }

  /** The digits of s, in order. */
  function Digits(s: string): (r: string)
    ensures |r| <= |s|
    ensures forall i :: 0 <= i < |r| ==> IsDigit(r[i])
  {
    if s == [] then []
    else if IsDigit(s[0]) then [s[0]] + Digits(s[1..])
    else Digits(s[1..])
  }

  function Pow10(n: nat): (r: nat)
    ensures r >= 1
  {
    if n == 0 then 1 else 10 * Pow10(n - 1)
  }

  /** The number a string of decimal digits spells. */
  function DecimalValue(ds: string): (v: nat)
    requires forall i :: 0 <= i < |ds| ==> IsDigit(ds[i])
    ensures v < Pow10(|ds|)
  {
    if ds == [] then 0
    else
      assert IsDigit(ds[0]);
      var d := ds[0] as int - '0' as int;
      var rest := DecimalValue(ds[1..]);
      MulMonotone(0, d, Pow10(|ds| - 1));
      MulMonotone(d, 9, Pow10(|ds| - 1));
      d * Pow10(|ds| - 1) + rest
  }

  /** The calendar position of a yyyy-MM-dd string: yyyymmdd read as a number. */
  function DateNumber(s: string): nat
    requires IsDateShape(s)
  {
    DecimalValue(Digits(s))
  }

  /** Two strings of equal length whose non-digit characters coincide compare
      as their digit subsequences do. */
  lemma {:induction false} SameSkeletonLex(a: string, b: string)
    requires |a| == |b|
    requires forall i :: 0 <= i < |a| ==> (IsDigit(a[i]) <==> IsDigit(b[i]))
    requires forall i :: 0 <= i < |a| && !IsDigit(a[i]) ==> a[i] == b[i]
    ensures |Digits(a)| == |Digits(b)|
    ensures LexLe(a, b) <==> LexLe(Digits(a), Digits(b))
  {
    if a != [] {
      assert forall i :: 0 <= i < |a| - 1 ==> a[1..][i] == a[i + 1] && b[1..][i] == b[i + 1];
      SameSkeletonLex(a[1..], b[1..]);
    }
  }

  lemma MulMonotone(x: int, y: int, p: nat)
    requires x <= y
    ensures x * p <= y * p
  {
  }

  lemma HeadDominates(a: int, b: int, p: nat, va: nat, vb: nat)
    requires a < b && va < p
    ensures a * p + va < b * p + vb
  {
    MulMonotone(a + 1, b, p);
  }

  /** Equal-length digit strings: code-unit order is numeric order. */
  lemma {:induction false} DecimalLex(x: string, y: string)
    requires |x| == |y|
    requires forall i :: 0 <= i < |x| ==> IsDigit(x[i])
    requires forall i :: 0 <= i < |y| ==> IsDigit(y[i])
    ensures LexLe(x, y) <==> DecimalValue(x) <= DecimalValue(y)
  {
    if x != [] {
      var p := Pow10(|x| - 1);
      var a, b := x[0] as int - '0' as int, y[0] as int - '0' as int;
      var vx, vy := DecimalValue(x[1..]), DecimalValue(y[1..]);
      assert DecimalValue(x) == a * p + vx;
      assert DecimalValue(y) == b * p + vy;
      if a < b {
        HeadDominates(a, b, p, vx, vy);
      } else if b < a {
        HeadDominates(b, a, p, vy, vx);
      } else {
        DecimalLex(x[1..], y[1..]);
      }
    }
  }

  /** For yyyy-MM-dd strings, comparing the strings is comparing the dates:
      the lexicographic check the due-date validation and the task listings
      use is chronological order. */
  lemma DateOrder(a: string, b: string)
    requires IsDateShape(a) && IsDateShape(b)
    ensures LexLe(a, b) <==> DateNumber(a) <= DateNumber(b)
  {
    SameSkeletonLex(a, b);
    DecimalLex(Digits(a), Digits(b));
  }
}
