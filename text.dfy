/** The two string operations of the task list: JavaScript's String.prototype.trim,
    applied to every text the user types, and the decimal rendering of a number
    in a template literal, used by the progress readout. */
module Text {

  /** The code points that trim removes: ECMAScript's WhiteSpace
      (TAB, VT, FF, ZWNBSP and every space separator) and LineTerminator. */
  predicate IsWhitespace(c: char) {
    c == '\t' || c == '\n' || c == '\U{000B}' || c == '\U{000C}' || c == '\r'
    || c == ' ' || c == '\U{00A0}' || c == '\U{1680}'
    || ('\U{2000}' <= c <= '\U{200A}')
    || c == '\U{2028}' || c == '\U{2029}' || c == '\U{202F}' || c == '\U{205F}'
    || c == '\U{3000}' || c == '\U{FEFF}'
  }

  predicate AllWhitespace(s: string) {
    forall i | 0 <= i < |s| :: IsWhitespace(s[i])
  }

  /** Neither end of s is whitespace. */
  predicate Trimmed(s: string) {
    s == [] || (!IsWhitespace(s[0]) && !IsWhitespace(s[|s| - 1]))
  }

  /** How many whitespace characters s starts with. */
  function LeadingWhitespace(s: string): (n: nat)
    ensures n <= |s|
    ensures forall i | 0 <= i < n :: IsWhitespace(s[i])
    ensures n < |s| ==> !IsWhitespace(s[n])
  {
    if s == [] || !IsWhitespace(s[0]) then 0 else 1 + LeadingWhitespace(s[1..])
  }

  /** How many whitespace characters s ends with. */
  function TrailingWhitespace(s: string): (n: nat)
    ensures n <= |s|
    ensures forall i | |s| - n <= i < |s| :: IsWhitespace(s[i])
    ensures n < |s| ==> !IsWhitespace(s[|s| - 1 - n])
  {
    if s == [] || !IsWhitespace(s[|s| - 1]) then 0 else 1 + TrailingWhitespace(s[..|s| - 1])
  }

  /** The slice s[lo..hi] that trim keeps: everything outside it is whitespace and,
      unless it is empty, it starts and ends with a non-whitespace character. */
  function TrimBounds(s: string): (b: (nat, nat))
    ensures b.0 <= b.1 <= |s|
    ensures forall i | 0 <= i < b.0 :: IsWhitespace(s[i])
    ensures forall i | b.1 <= i < |s| :: IsWhitespace(s[i])
    ensures b.0 < b.1 ==> !IsWhitespace(s[b.0]) && !IsWhitespace(s[b.1 - 1])
  {
    var lo := LeadingWhitespace(s);
    if lo == |s| then (lo, lo)
    else
      var n := TrailingWhitespace(s);
      assert n < |s| - lo;
      (lo, |s| - n)
  }

  /** String.prototype.trim: s without the whitespace at either end. The result
      is empty exactly when s is all whitespace. */
  function Trim(s: string): (r: string)
    ensures Trimmed(r)
    ensures r == [] <==> AllWhitespace(s)
    ensures |r| <= |s|
  {
    var b := TrimBounds(s);
    assert b.0 < b.1 ==> !AllWhitespace(s) by {
      if b.0 < b.1 { assert !IsWhitespace(s[b.0]); }
    }
    assert b.0 == b.1 ==> AllWhitespace(s);
    s[b.0..b.1]
  }

  /** Trimming a string that already has no whitespace at its ends changes nothing. */
  lemma TrimOfTrimmed(s: string)
    requires Trimmed(s)
    ensures Trim(s) == s
  {
    var b := TrimBounds(s);
    if s != [] {
      assert b.0 == 0;
      assert b.1 == |s|;
    }
  }

  /** Trimming twice is trimming once. */
  lemma TrimIdempotent(s: string)
    ensures Trim(Trim(s)) == Trim(s)
  {
    TrimOfTrimmed(Trim(s));
  }

  /** Whitespace padding on either side of a trimmed string is exactly what trim takes away. */
  lemma TrimPadded(front: string, s: string, back: string)
    requires AllWhitespace(front) && AllWhitespace(back) && Trimmed(s) && s != []
    ensures Trim(front + s + back) == s
  {
    var w := front + s + back;
    var b := TrimBounds(w);
    var lo, hi := |front|, |front| + |s|;
    assert w[lo] == s[0] && w[hi - 1] == s[|s| - 1];
    assert forall i | 0 <= i < lo :: w[i] == front[i];
    assert forall i | hi <= i < |w| :: w[i] == back[i - hi];
    assert b.0 == lo && b.1 == hi;
    assert w[lo..hi] == s;
  }

  function DigitChar(d: nat): char
    requires d < 10
  {
    "0123456789"[d]
  }

  predicate IsDigits(s: string) {
    forall i | 0 <= i < |s| :: '0' <= s[i] <= '9'
  }

  /** The number a string of decimal digits denotes; the reading used to state
      what Decimal writes. */
  function DecimalValue(s: string): nat
    requires IsDigits(s)
  {
    if s == [] then 0 else 10 * DecimalValue(s[..|s| - 1]) + ((s[|s| - 1] as int) - ('0' as int))
  }

  /** How a template literal writes a non-negative integer: at least one digit,
      no leading zero. */
  function Decimal(n: nat): (s: string)
    ensures |s| >= 1 && IsDigits(s)
    ensures s[0] == '0' ==> n == 0
    ensures |s| > 1 ==> s[0] != '0'
    decreases n
  {
    if n < 10 then [DigitChar(n)] else Decimal(n / 10) + [DigitChar(n % 10)]
  }

  /** Reading back what Decimal wrote gives the number. */
  lemma {:induction false} DecimalRoundTrip(n: nat)
    ensures DecimalValue(Decimal(n)) == n
    decreases n
  {
    if n >= 10 {
      DecimalRoundTrip(n / 10);
      var s := Decimal(n);
      assert s[..|s| - 1] == Decimal(n / 10);
    }
  }
}
