/**
 * The two JavaScript string built-ins the book form relies on:
 * `String.prototype.trim` and `parseInt(s, 10)` (ECMAScript 2023,
 * sections 22.1.3.32 and 19.2.5).
 */
module JsText {
  import opened Decimal

  /**
   * WhiteSpace and LineTerminator code points of ECMAScript (sections 12.2
   * and 12.3): TAB, VT, FF, SPACE, NBSP, ZWNBSP, the other Unicode "Zs"
   * characters, LF, CR, LINE SEPARATOR and PARAGRAPH SEPARATOR.
   */
  predicate IsWhiteSpace(c: char)
  {
    || c == '\t' || c == '\U{000B}' || c == '\U{000C}' || c == ' '
    || c == '\U{00A0}' || c == '\U{FEFF}'
    || c == '\U{1680}' || ('\U{2000}' <= c <= '\U{200A}')
    || c == '\U{202F}' || c == '\U{205F}' || c == '\U{3000}'
    || c == '\n' || c == '\r' || c == '\U{2028}' || c == '\U{2029}'
  }

  /** The length of the longest white-space prefix. */
  function LeadingWhiteSpace(s: string): (n: nat)
    ensures n <= |s|
    ensures forall i :: 0 <= i < n ==> IsWhiteSpace(s[i])
    ensures n < |s| ==> !IsWhiteSpace(s[n])
  {
    if s != [] && IsWhiteSpace(s[0]) then 1 + LeadingWhiteSpace(s[1..]) else 0
  }

  /** The length of the longest white-space suffix. */
  function TrailingWhiteSpace(s: string): (n: nat)
    ensures n <= |s|
    ensures forall i :: |s| - n <= i < |s| ==> IsWhiteSpace(s[i])
    ensures n < |s| ==> !IsWhiteSpace(s[|s| - n - 1])
  {
    if s != [] && IsWhiteSpace(s[|s| - 1]) then 1 + TrailingWhiteSpace(s[..|s| - 1]) else 0
  }

  /** Drops the leading white space. */
  function TrimStart(s: string): string
  {
    s[LeadingWhiteSpace(s)..]
  }

  /** Drops the trailing white space. */
  function TrimEnd(s: string): string
  {
    s[..|s| - TrailingWhiteSpace(s)]
  }

  /** `s.trim()`: never longer than `s` (TrimIsSlice and TrimEdges say what it keeps). */
  function Trim(s: string): (t: string)
    ensures |t| <= |s|
  {
    TrimEnd(TrimStart(s))
  }

  /**
   * `s.trim()` is the slice of `s` between its leading and its trailing white
   * space.
   */
  lemma TrimIsSlice(s: string)
    ensures var i := LeadingWhiteSpace(s);
      && i + |Trim(s)| <= |s|
      && Trim(s) == s[i..i + |Trim(s)|]
      && (forall k :: 0 <= k < i ==> IsWhiteSpace(s[k]))
      && (forall k :: i + |Trim(s)| <= k < |s| ==> IsWhiteSpace(s[k]))
  {
    var i := LeadingWhiteSpace(s);
    var n := |s[i..]| - TrailingWhiteSpace(s[i..]);
    assert Trim(s) == s[i..][..n];
    SliceOfSuffix(s, i, n);
    TrailingOfSuffix(s, i);
  }

  /** The trailing white space of a suffix is trailing white space of the whole text. */
  lemma TrailingOfSuffix(s: string, i: nat)
    requires i <= |s|
    ensures forall k :: |s| - TrailingWhiteSpace(s[i..]) <= k < |s| ==> IsWhiteSpace(s[k])
  {
    var t := s[i..];
    forall k | |s| - TrailingWhiteSpace(t) <= k < |s|
      ensures IsWhiteSpace(s[k])
    {
      assert s[k] == t[k - i];
    }
  }

  /** A prefix of a suffix is a slice. */
  lemma SliceOfSuffix<T>(s: seq<T>, i: nat, n: nat)
    requires i + n <= |s|
    ensures s[i..][..n] == s[i..i + n]
  {
  }

  /** `s.trim()` neither starts nor ends with white space. */
  lemma TrimEdges(s: string)
    ensures Trim(s) == [] || (!IsWhiteSpace(Trim(s)[0]) && !IsWhiteSpace(Trim(s)[|Trim(s)| - 1]))
  {
    var i := LeadingWhiteSpace(s);
    var t := s[i..];
    var j := TrailingWhiteSpace(t);
    var r := t[..|t| - j];
    assert Trim(s) == r;
    if r != [] {
      assert r[0] == s[i];
      assert r[|r| - 1] == t[|t| - j - 1];
    }
  }

  /** A string is empty after trimming exactly when it is all white space (or empty). */
  lemma TrimEmptyIffBlank(s: string)
    ensures Trim(s) == [] <==> forall k :: 0 <= k < |s| ==> IsWhiteSpace(s[k])
  {
    TrimIsSlice(s);
  }

  /** Trimming a trimmed string changes nothing. */
  lemma TrimIdempotent(s: string)
    ensures Trim(Trim(s)) == Trim(s)
  {
    TrimEdges(s);
    TrimOfUnpadded(Trim(s));
  }

  /** A string that does not start with white space is its own TrimStart. */
  lemma TrimStartOfUnpadded(s: string)
    requires s == [] || !IsWhiteSpace(s[0])
    ensures TrimStart(s) == s
  {
    assert LeadingWhiteSpace(s) == 0;
  }

  /** A string that starts and ends with a non-white-space character is its own trim. */
  lemma TrimOfUnpadded(s: string)
    requires s == [] || (!IsWhiteSpace(s[0]) && !IsWhiteSpace(s[|s| - 1]))
    ensures Trim(s) == s
  {
    TrimStartOfUnpadded(s);
    assert TrailingWhiteSpace(s) == 0;
    assert TrimEnd(s) == s[..|s|] == s;
  }

  /** White space in front of a string that does not start with white space is exactly what TrimStart drops. */
  lemma {:induction false} LeadingOfPadded(pad: string, s: string)
    requires forall k :: 0 <= k < |pad| ==> IsWhiteSpace(pad[k])
    requires s == [] || !IsWhiteSpace(s[0])
    ensures LeadingWhiteSpace(pad + s) == |pad|
  {
    if pad == [] {
      assert pad + s == s;
    } else {
      assert (pad + s)[0] == pad[0];
      assert (pad + s)[1..] == pad[1..] + s;
      LeadingOfPadded(pad[1..], s);
    }
  }

  /** White space after a string that does not end with white space is exactly what TrimEnd drops. */
  lemma {:induction false} TrailingOfPadded(s: string, pad: string)
    requires forall k :: 0 <= k < |pad| ==> IsWhiteSpace(pad[k])
    requires s == [] || !IsWhiteSpace(s[|s| - 1])
    ensures TrailingWhiteSpace(s + pad) == |pad|
  {
    if pad == [] {
      assert s + pad == s;
    } else {
      var last := |s + pad| - 1;
      assert (s + pad)[last] == pad[|pad| - 1];
      assert (s + pad)[..last] == s + pad[..|pad| - 1];
      TrailingOfPadded(s, pad[..|pad| - 1]);
    }
  }

  /** Trimming a padded string gives back the unpadded one. */
  lemma TrimOfPadded(before: string, s: string, after: string)
    requires forall k :: 0 <= k < |before| ==> IsWhiteSpace(before[k])
    requires forall k :: 0 <= k < |after| ==> IsWhiteSpace(after[k])
    requires s == [] || (!IsWhiteSpace(s[0]) && !IsWhiteSpace(s[|s| - 1]))
    ensures Trim(before + s + after) == s
  {
    var whole := before + (s + after);
    assert before + s + after == whole;
    if s == [] {
      assert whole == before + after;
      assert forall k :: 0 <= k < |whole| ==> IsWhiteSpace(whole[k]);
      LeadingOfPadded(whole, []);
      assert whole + [] == whole;
      assert TrimStart(whole) == [];
    } else {
      assert (s + after)[0] == s[0];
      LeadingOfPadded(before, s + after);
      assert TrimStart(whole) == s + after;
      TrailingOfPadded(s, after);
      assert (s + after)[..|s|] == s;
    }
  }

  /**
   * A JavaScript number as `parseInt` can produce it. The negative zero of
   * `parseInt("-0")` is represented as `Finite(0)`; the two behave alike
   * under `||`, the only place the form looks at the result.
   */
  datatype JsNumber = NaN | Finite(value: int)

  /** JavaScript truthiness of a number: NaN and zero are falsy. */
  predicate Truthy(n: JsNumber)
    ensures !Truthy(n) <==> n == NaN || n == Finite(0)
  {
    n.Finite? && n.value != 0
  }

  /**
   * `parseInt(s, 10)`: skip leading white space, take an optional sign, then
   * the longest run of decimal digits; NaN when that run is empty. Integers
   * are unbounded here (no rounding of long digit strings).
   */
  function ParseInt(s: string): (n: JsNumber)
    ensures TrimStart(s) == [] ==> n == NaN
    ensures var t := TrimStart(s); t != [] && !IsDigit(t[0]) && t[0] != '+' && t[0] != '-' ==> n == NaN
  {
    ParseSigned(TrimStart(s))
  }

  /** The part of `parseInt` after the white space: an optional sign, then the leading digit run. */
  function ParseSigned(t: string): JsNumber
  {
    var negative := t != [] && t[0] == '-';
    var unsigned := if t != [] && (t[0] == '+' || t[0] == '-') then t[1..] else t;
    var digits := LeadingDigits(unsigned);
    var magnitude: int := if digits == [] then 0 else DigitsValue(digits);
    if digits == [] then NaN
    else Finite(if negative then -magnitude else magnitude)
  }

  /** An integer written in decimal neither starts nor ends with white space. */
  lemma ShowIntUnpadded(n: int)
    ensures !IsWhiteSpace(ShowInt(n)[0]) && !IsWhiteSpace(ShowInt(n)[|ShowInt(n)| - 1])
  {
    var digits := ShowInt(n);
    if n < 0 {
      assert digits[0] == '-';
      assert digits[|digits| - 1] == ShowNat(-n)[|ShowNat(-n)| - 1];
    }
    assert IsDigit(digits[|digits| - 1]);
  }

  /** Text that starts with a digit is read as its leading digit run. */
  lemma ParseIntOfDigitStart(s: string)
    requires s != [] && IsDigit(s[0])
    ensures ParseInt(s) == Finite(DigitsValue(LeadingDigits(s)))
  {
    TrimStartOfUnpadded(s);
    assert s[0] != '+' && s[0] != '-';
    assert LeadingDigits(s) != [];
  }

  /** A minus sign before text that starts with a digit negates its leading digit run. */
  lemma ParseIntOfMinus(u: string)
    requires u != [] && IsDigit(u[0])
    ensures ParseInt("-" + u) == Finite(-(DigitsValue(LeadingDigits(u)) as int))
  {
    var s := "-" + u;
    assert s[0] == '-' && s[1..] == u;
    TrimStartOfUnpadded(s);
  }

  /** A sign that no digit follows, after any leading white space, reads as NaN ("-", "+x"). */
  lemma ParseIntOfBareSign(s: string)
    requires var t := TrimStart(s); t != [] && (t[0] == '+' || t[0] == '-') && (|t| == 1 || !IsDigit(t[1]))
    ensures ParseInt(s) == NaN
  {
    var t := TrimStart(s);
    assert LeadingDigits(t[1..]) == [];
  }

  /** A plus sign before text that starts with a digit is skipped: the leading digit run is read as is. */
  lemma ParseIntOfPlus(u: string)
    requires u != [] && IsDigit(u[0])
    ensures ParseInt("+" + u) == Finite(DigitsValue(LeadingDigits(u)) as int)
  {
    var s := "+" + u;
    assert s[0] == '+' && s[1..] == u;
    TrimStartOfUnpadded(s);
  }

  /** The decimal digits of a natural number followed by a non-digit are read back as that number. */
  lemma ParseIntOfShowNat(m: nat, rest: string)
    requires rest == [] || !IsDigit(rest[0])
    ensures ParseInt(ShowNat(m) + rest) == Finite(m)
  {
    var s := ShowNat(m) + rest;
    assert s[0] == ShowNat(m)[0];
    ParseIntOfDigitStart(s);
    LeadingDigitsOfPrefix(ShowNat(m), rest);
    DigitsValueOfShowNat(m);
  }

  /**
   * `parseInt` reads back an integer written in decimal, whatever non-digit
   * text follows it ("1965", "1965abc", "12.5" all stop at the first non-digit).
   */
  lemma ParseIntOfShowInt(n: int, rest: string)
    requires rest == [] || !IsDigit(rest[0])
    ensures ParseInt(ShowInt(n) + rest) == Finite(n)
  {
    if n < 0 {
      var m: nat := -n;
      var u := ShowNat(m) + rest;
      assert ShowInt(n) + rest == "-" + u;
      assert u[0] == ShowNat(m)[0];
      ParseIntOfMinus(u);
      LeadingDigitsOfPrefix(ShowNat(m), rest);
      DigitsValueOfShowNat(m);
    } else {
      ParseIntOfShowNat(n, rest);
    }
  }
}
