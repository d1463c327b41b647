/**
 * String helpers with the semantics of the PHP built-ins the stores use:
 * prefix tests, `substr`, `explode`, `rtrim`, integer formatting and
 * parsing, and the byte-wise (code-point) order in which an object store
 * lists its keys.
 */
module Strings {

  datatype Option<T> = None | Some(value: T)

  predicate StartsWith(s: string, p: string) {
    |p| <= |s| && s[..|p|] == p
  }

  predicate EndsWith(s: string, p: string) {
    |p| <= |s| && s[|s| - |p|..] == p
  }

  /** PHP `substr($s, $start, $len)` for a non-negative start and length. */
  function Substr(s: string, start: nat, len: nat): string {
    if start >= |s| then ""
    else if start + len <= |s| then s[start..start + len]
    else s[start..]
  }

  /** PHP `substr($s, $start)` for a non-negative start. */
  function SubstrFrom(s: string, start: nat): string {
    if start >= |s| then "" else s[start..]
  }

  lemma SubstrFromAppend(a: string, b: string)
    ensures SubstrFrom(a + b, |a|) == b
  {
    if b == [] {
      assert a + b == a;
    } else {
      assert (a + b)[|a|..] == b;
    }
  }

  // ---------------------------------------------------------------------
  // explode() on a one-character delimiter

  function IndexOf(s: string, c: char): (i: nat)
    requires c in s
    ensures i < |s| && s[i] == c && c !in s[..i]
  {
    if s[0] == c then 0
    else
      assert c in s[1..] by { var k :| 0 <= k < |s| && s[k] == c; assert s[1..][k - 1] == c; }
      var j := IndexOf(s[1..], c);
      assert s[..j + 1] == [s[0]] + s[1..][..j];
      j + 1
  }

  /** PHP `explode($sep, $s)`: the pieces between occurrences of `sep`. */
  function Explode(sep: char, s: string): (pieces: seq<string>)
    ensures |pieces| >= 1
    decreases |s|
  {
    if sep !in s then [s]
    else
      var i := IndexOf(s, sep);
      [s[..i]] + Explode(sep, s[i + 1..])
  }

  /** Number of occurrences of `c` in `s`. */
  function Count(c: char, s: string): nat {
    if s == [] then 0 else (if s[0] == c then 1 else 0) + Count(c, s[1..])
  }

  lemma {:induction false} CountAppend(c: char, a: string, b: string)
    ensures Count(c, a + b) == Count(c, a) + Count(c, b)
  {
    if a == [] {
      assert a + b == b;
    } else {
      assert (a + b)[1..] == a[1..] + b;
      CountAppend(c, a[1..], b);
    }
  }

  lemma {:induction false} CountZero(c: char, s: string)
    ensures Count(c, s) == 0 <==> c !in s
  {
    if s != [] {
      CountZero(c, s[1..]);
      assert s == [s[0]] + s[1..];
    }
  }

  /** Splitting `a + [sep] + b` where `a` has no delimiter yields `a` first. */
  lemma ExplodeCons(sep: char, a: string, b: string)
    requires sep !in a
    ensures Explode(sep, a + [sep] + b) == [a] + Explode(sep, b)
  {
    var s := a + [sep] + b;
    assert s[|a|] == sep;
    var i := IndexOf(s, sep);
    assert i <= |a| by { assert s[|a|] == sep; }
    assert s[..i] == a;
    assert s[i + 1..] == b;
  }

  /** explode() yields one more piece than there are delimiters. */
  lemma {:induction false} ExplodeLength(sep: char, s: string)
    ensures |Explode(sep, s)| == Count(sep, s) + 1
    decreases |s|
  {
    if sep !in s {
      CountZero(sep, s);
    } else {
      var i := IndexOf(s, sep);
      assert s == s[..i] + [sep] + s[i + 1..];
      ExplodeLength(sep, s[i + 1..]);
      CountAppend(sep, s[..i] + [sep], s[i + 1..]);
      CountAppend(sep, s[..i], [sep]);
      CountZero(sep, s[..i]);
      assert Count(sep, [sep]) == 1;
    }
  }

  // ---------------------------------------------------------------------
  // rtrim() with a one-character list

  /** PHP `rtrim($s, c)`: strips every trailing `c`. */
  function RTrim(s: string, c: char): (r: string)
    ensures |r| <= |s| && r == s[..|r|]
    ensures r == [] || r[|r| - 1] != c
    ensures forall k :: |r| <= k < |s| ==> s[k] == c
  {
    if s == [] then s
    else if s[|s| - 1] == c then RTrim(s[..|s| - 1], c)
    else s
  }

  // ---------------------------------------------------------------------
  // Decimal integers

  predicate IsDigit(c: char) { '0' <= c <= '9' }

  predicate AllDigits(s: string) { forall k :: 0 <= k < |s| ==> IsDigit(s[k]) }

  function DigitChar(d: nat): char
    requires d < 10
  {
    (d + '0' as int) as char
  }

  function DigitValue(c: char): nat
    requires IsDigit(c)
  {
    (c as int) - ('0' as int)
  }

  /** Decimal digits of a natural number, without leading zeros. */
  function NatToString(n: nat): (s: string)
    ensures |s| >= 1 && AllDigits(s)
  {
    if n < 10 then [DigitChar(n)] else NatToString(n / 10) + [DigitChar(n % 10)]
  }

  /** PHP `(string)` of an integer. */
  function IntToString(i: int): string {
    if i < 0 then "-" + NatToString(-i) else NatToString(i)
  }

  /** Value of a string of decimal digits. */
  function ParseDigits(s: string): nat
    requires AllDigits(s)
  {
    if s == [] then 0 else 10 * ParseDigits(s[..|s| - 1]) + DigitValue(s[|s| - 1])
  }

  lemma {:induction false} ParseNatToString(n: nat)
    ensures ParseDigits(NatToString(n)) == n
  {
    var s := NatToString(n);
    if n >= 10 {
      ParseNatToString(n / 10);
      assert s[..|s| - 1] == NatToString(n / 10);
    }
  }

  /** Length of the longest prefix of `s` made of decimal digits. */
  function LeadingDigits(s: string): (k: nat)
    ensures k <= |s| && AllDigits(s[..k])
    ensures k < |s| ==> !IsDigit(s[k])
  {
    if s == [] || !IsDigit(s[0]) then 0
    else
      var k := LeadingDigits(s[1..]);
      assert s[..k + 1] == [s[0]] + s[1..][..k];
      k + 1
  }

  // ---------------------------------------------------------------------
  // PHP integers and numeric strings

  /** The ends of PHP's 64-bit integer range. */
  const PHP_INT_MAX: int := 0x7fff_ffff_ffff_ffff
  const PHP_INT_MIN: int := -0x8000_0000_0000_0000

  /** A PHP integer. */
  type PhpInt = i: int | PHP_INT_MIN <= i <= PHP_INT_MAX

  /** An integer string beyond the 64-bit range converts to the nearest end of it. */
  function Saturate(x: int): PhpInt {
    if x > PHP_INT_MAX then PHP_INT_MAX else if x < PHP_INT_MIN then PHP_INT_MIN else x
  }

  /** The white space PHP allows around a number: space, tab, LF, CR, vertical tab, form feed. */
  predicate IsWhitespace(c: char) {
    c == ' ' || c == '\t' || c == '\n' || c == '\r' || c == 11 as char || c == 12 as char
  }

  /** Length of the leading white space of `s`. */
  function LeadingWhitespace(s: string): (k: nat)
    ensures k <= |s| && forall j :: 0 <= j < k ==> IsWhitespace(s[j])
    ensures k < |s| ==> !IsWhitespace(s[k])
  {
    if s == [] || !IsWhitespace(s[0]) then 0
    else
      var k := LeadingWhitespace(s[1..]);
      assert forall j :: 1 <= j < k + 1 ==> s[j] == s[1..][j - 1];
      k + 1
  }

  /** `s` after its leading white space and an optional sign, and whether that sign was `-`. */
  function Unsigned(s: string): (bool, string) {
    var t := s[LeadingWhitespace(s)..];
    if |t| > 0 && (t[0] == '-' || t[0] == '+') then (t[0] == '-', t[1..]) else (false, t)
  }

  /**
   * The integer the leading integer form of `s` denotes, without bound:
   * white space, an optional sign and the digits that follow; 0 when no
   * digit follows.
   */
  function IntPrefix(s: string): int {
    var u := Unsigned(s).1;
    var v: int := ParseDigits(u[..LeadingDigits(u)]);
    if Unsigned(s).0 then -v else v
  }

  /** PHP `(int)` of a string, for the integer forms, capped at the ends of the 64-bit range. */
  function StringToInt(s: string): PhpInt {
    Saturate(IntPrefix(s))
  }

  /**
   * PHP 8 `is_numeric` for integer strings: white space, an optional sign,
   * one or more digits, and nothing after them but white space.
   */
  predicate IsNumeric(s: string) {
    var u := Unsigned(s).1;
    LeadingDigits(u) >= 1 && forall j :: LeadingDigits(u) <= j < |u| ==> IsWhitespace(u[j])
  }

  lemma {:induction false} LeadingDigitsAll(s: string)
    requires AllDigits(s)
    ensures LeadingDigits(s) == |s|
  {
    if s != [] {
      LeadingDigitsAll(s[1..]);
    }
  }

  /** `(int)` of a digit string is its value, capped at PHP_INT_MAX. */
  lemma DigitsToInt(d: string)
    requires |d| >= 1 && AllDigits(d)
    ensures StringToInt(d) == if ParseDigits(d) > PHP_INT_MAX then PHP_INT_MAX else ParseDigits(d)
    ensures IsNumeric(d)
  {
    assert !IsWhitespace(d[0]) && d[0] != '-' && d[0] != '+' by { assert IsDigit(d[0]); }
    assert Unsigned(d) == (false, d);
    LeadingDigitsAll(d);
    assert d[..|d|] == d;
  }

  lemma DigitsUnsigned(d: string)
    requires |d| >= 1 && AllDigits(d)
    ensures Unsigned(d) == (false, d) && Unsigned("-" + d) == (true, d)
  {
    assert !IsWhitespace(d[0]) && d[0] != '-' && d[0] != '+' by { assert IsDigit(d[0]); }
    var s := "-" + d;
    assert s[1..] == d;
    assert LeadingWhitespace(s) == 0 && s[0..] == s;
  }

  /** The decimal form of any integer reads back as that integer, and is numeric. */
  lemma IntPrefixRoundTrip(x: int)
    ensures IntPrefix(IntToString(x)) == x && IsNumeric(IntToString(x))
  {
    var n: nat := if x < 0 then -x else x;
    var d := NatToString(n);
    LeadingDigitsAll(d);
    ParseNatToString(n);
    assert d[..|d|] == d;
    DigitsUnsigned(d);
  }

  /** An integer written out by `(string)` reads back by `(int)`, and `is_numeric` accepts it. */
  lemma IntStringRoundTrip(i: PhpInt)
    ensures StringToInt(IntToString(i)) == i
    ensures IsNumeric(IntToString(i))
  {
    IntPrefixRoundTrip(i);
  }

  /** `(int)` of an integer string beyond the 64-bit range gives the nearest end of the range. */
  lemma OutOfRangeCapped(x: int)
    ensures x > PHP_INT_MAX ==> StringToInt(IntToString(x)) == PHP_INT_MAX
    ensures x < PHP_INT_MIN ==> StringToInt(IntToString(x)) == PHP_INT_MIN
  {
    IntPrefixRoundTrip(x);
  }

  /** White space around the digits still makes a numeric string, as in PHP 8. */
  lemma WhitespaceNumeric()
    ensures IsNumeric(" 42 ") && StringToInt(" 42 ") == 42
  {
    var s := " 42 ";
    assert LeadingWhitespace(s[1..]) == 0;
    assert LeadingWhitespace(s) == 1 && s[1..] == "42 ";
    assert Unsigned(s) == (false, "42 ");
    assert LeadingDigits("42 ") == 2 && "42 "[..2] == "42";
    assert "42"[..1] == "4" && ParseDigits("42") == 42;
    assert IsWhitespace("42 "[2]);
  }

  /** Trailing letters make a string non-numeric, while `(int)` still reads its leading digits. */
  lemma LeadingNumeric()
    ensures !IsNumeric("1abc") && StringToInt("1abc") == 1
  {
    var s := "1abc";
    assert LeadingWhitespace(s) == 0 && s[0..] == s;
    assert Unsigned(s) == (false, s);
    assert LeadingDigits(s[1..]) == 0;
    assert LeadingDigits(s) == 1 && s[..1] == "1";
    assert !IsWhitespace(s[1]);
  }

  /** A word is not numeric, and `(int)` reads it as 0. */
  lemma WordNotNumeric()
    ensures !IsNumeric("never") && StringToInt("never") == 0
  {
    var s := "never";
    assert LeadingWhitespace(s) == 0 && s[0..] == s;
    assert Unsigned(s) == (false, s);
    assert LeadingDigits(s) == 0;
  }

  // ---------------------------------------------------------------------
  // Key order of an object-store listing (byte-wise = code-point order)

  predicate Less(a: string, b: string) {
    if a == [] then b != []
    else b != [] && (a[0] < b[0] || (a[0] == b[0] && Less(a[1..], b[1..])))
  }

  lemma {:induction false} LessIrreflexive(a: string)
    ensures !Less(a, a)
  {
    if a != [] { LessIrreflexive(a[1..]); }
  }

  lemma {:induction false} LessTransitive(a: string, b: string, c: string)
    requires Less(a, b) && Less(b, c)
    ensures Less(a, c)
  {
    if a != [] && a[0] == b[0] && b[0] == c[0] {
      LessTransitive(a[1..], b[1..], c[1..]);
    }
  }

  lemma {:induction false} LessTotal(a: string, b: string)
    ensures a == b || Less(a, b) || Less(b, a)
  {
    if a != [] && b != [] && a[0] == b[0] {
      LessTotal(a[1..], b[1..]);
      if a[1..] == b[1..] {
        assert a == [a[0]] + a[1..] && b == [b[0]] + b[1..];
      }
    }
  }

  /** A prefix comes first: `p` precedes every proper extension of it. */
  lemma {:induction false} LessPrefix(p: string, s: string)
    requires StartsWith(s, p) && |s| > |p|
    ensures Less(p, s)
  {
    if p != [] {
      assert s[1..][..|p| - 1] == p[1..];
      LessPrefix(p[1..], s[1..]);
    }
  }

  predicate StrictlySorted(s: seq<string>) {
    forall i, j :: 0 <= i < j < |s| ==> Less(s[i], s[j])
  }

  /** The least element of a finite non-empty set of keys. */
  method MinKey(keys: set<string>) returns (m: string)
    requires keys != {}
    ensures m in keys
    ensures forall k :: k in keys && k != m ==> Less(m, k)
  {
    m :| m in keys;
    var rest := keys - {m};
    var done: set<string> := {m};
    while rest != {}
      invariant rest + done == keys && rest !! done
      invariant m in done
      invariant forall k :: k in done && k != m ==> Less(m, k)
      decreases rest
    {
      var k :| k in rest;
      LessTotal(m, k);
      if Less(k, m) {
        forall j | j in done && j != k
          ensures Less(k, j)
        {
          if j != m { LessTransitive(k, m, j); }
        }
        m := k;
      }
      rest := rest - {k};
      done := done + {k};
    }
  }
}
