/**
 * The display filters: a time span such as "5min" as a human readable
 * label, and a byte count in IEC 80000-13 units.
 */
module Filter {
  import opened Strings

  datatype Result<T> = Ok(value: T) | Failure(code: int)

  /** Exception code when a time span cannot be parsed. */
  const TIME_FORMAT_ERROR: int := 30

  // ---------------------------------------------------------------------
  // Translation of the default locale

  /** Plural rule of the default (English) locale: form 0 for one, form 1 otherwise. */
  function PluralIndex(n: int): nat {
    if n == 1 then 0 else 1
  }

  /** `sprintf` of a format whose only conversion is a leading `%d`. */
  function FormatInt(format: string, n: int): string {
    if StartsWith(format, "%d") then IntToString(n) + format[2..] else format
  }

  /**
   * `I18n::_` called with plural forms and a count, for the default
   * locale without a translation: the form the plural rule picks (the
   * last one if there are fewer forms), with the count substituted.
   */
  function Translate(forms: seq<string>, n: int): string
    requires |forms| >= 1
  {
    var k := PluralIndex(n);
    FormatInt(forms[if k < |forms| then k else |forms| - 1], n)
  }

  // ---------------------------------------------------------------------
  // formatHumanReadableTime

  predicate IsWordChar(c: char) {
    ('a' <= c <= 'z') || ('A' <= c <= 'Z') || IsDigit(c) || c == '_'
  }

  predicate AllWord(s: string) { forall k :: 0 <= k < |s| ==> IsWordChar(s[k]) }

  predicate AllSpaces(s: string) { forall k :: 0 <= k < |s| ==> s[k] == ' ' }

  /**
   * `s` is matched by `^(\d+) *(\w+)$` with groups `d` and `w`; `$` also
   * matches before a final newline.
   */
  ghost predicate IsTimeMatch(s: string, d: string, sp: string, w: string) {
    && (s == d + sp + w || s == d + sp + w + "\n")
    && |d| >= 1 && AllDigits(d)
    && AllSpaces(sp)
    && |w| >= 1 && AllWord(w)
  }

  function LeadingSpaces(s: string): (k: nat)
    ensures k <= |s| && AllSpaces(s[..k])
    ensures k < |s| ==> s[k] != ' '
  {
    if s == [] || s[0] != ' ' then 0
    else
      var k := LeadingSpaces(s[1..]);
      assert s[..k + 1] == [s[0]] + s[1..][..k];
      k + 1
  }

  function WithoutFinalNewline(s: string): string {
    if |s| > 0 && s[|s| - 1] == '\n' then s[..|s| - 1] else s
  }

  /**
   * The two groups the regular expression captures, as a backtracking
   * matcher finds them: the digit group is as long as a match allows.
   */
  function ParseTime(s: string): Option<(string, string)> {
    ParseLine(WithoutFinalNewline(s))
  }

  /** The match on a line without its final newline. */
  function ParseLine(t: string): Option<(string, string)> {
    var k := LeadingDigits(t);
    if k == 0 then None
    else if k == |t| then
      (if k >= 2 then Some((t[..k - 1], t[k - 1..])) else None)
    else ParseUnit(t, k, k + LeadingSpaces(t[k..]))
  }

  /** The groups once the digits end at `k` and the unit starts at `j`. */
  function ParseUnit(t: string, k: nat, j: nat): Option<(string, string)>
    requires k <= j <= |t|
  {
    if j < |t| && AllWord(t[j..]) then Some((t[..k], t[j..])) else None
  }

  /** The spaces between the two groups of ParseTime. */
  function SpacesOf(s: string): string {
    LineSpaces(WithoutFinalNewline(s))
  }

  function LineSpaces(t: string): string {
    var k := LeadingDigits(t);
    if k == 0 || k == |t| then "" else t[k..k + LeadingSpaces(t[k..])]
  }

  /** What ParseTime captures is a match of the regular expression. */
  lemma ParseTimeSound(s: string)
    requires ParseTime(s).Some?
    ensures IsTimeMatch(s, ParseTime(s).value.0, SpacesOf(s), ParseTime(s).value.1)
  {
    var t := WithoutFinalNewline(s);
    ParseLineSound(t);
    if s != t {
      assert s == t + "\n";
    }
  }

  lemma ParseLineSound(t: string)
    requires ParseLine(t).Some?
    ensures var (d, w) := ParseLine(t).value;
      && t == d + LineSpaces(t) + w
      && |d| >= 1 && AllDigits(d) && AllSpaces(LineSpaces(t)) && |w| >= 1 && AllWord(w)
  {
    var k := LeadingDigits(t);
    if k == |t| {
      SplitDigitRun(t);
    } else {
      var n := LeadingSpaces(t[k..]);
      assert ParseLine(t) == ParseUnit(t, k, k + n);
      SplitAtUnit(t, k, n);
    }
  }

  /** A run of two or more digits splits into the digit group and a one-digit unit. */
  lemma SplitDigitRun(t: string)
    requires |t| >= 2 && AllDigits(t[..|t|])
    ensures t == t[..|t| - 1] + "" + t[|t| - 1..]
    ensures AllDigits(t[..|t| - 1]) && AllWord(t[|t| - 1..])
  {
    assert t[..|t|] == t;
    assert t[|t| - 1..] == [t[|t| - 1]];
  }

  lemma SplitAtUnit(t: string, k: nat, n: nat)
    requires k + n <= |t| && AllSpaces(t[k..][..n])
    ensures t == t[..k] + t[k..k + n] + t[k + n..]
    ensures AllSpaces(t[k..k + n])
  {
    assert t[k..][..n] == t[k..k + n];
  }

  /** The digit run of `d + rest` is `d` when `rest` does not continue it. */
  lemma {:induction false} LeadingDigitsOf(d: string, rest: string)
    requires AllDigits(d) && (rest == [] || !IsDigit(rest[0]))
    ensures LeadingDigits(d + rest) == |d|
  {
    if d == [] {
      assert d + rest == rest;
    } else {
      assert (d + rest)[1..] == d[1..] + rest;
      LeadingDigitsOf(d[1..], rest);
    }
  }

  lemma {:induction false} LeadingDigitsAtLeast(s: string, m: nat)
    requires m <= |s| && AllDigits(s[..m])
    ensures LeadingDigits(s) >= m
  {
    if m > 0 {
      assert s[1..][..m - 1] == s[..m][1..];
      LeadingDigitsAtLeast(s[1..], m - 1);
    }
  }

  /** The space run of `sp + rest` is `sp` when `rest` does not continue it. */
  lemma {:induction false} LeadingSpacesOf(sp: string, rest: string)
    requires AllSpaces(sp) && (rest == [] || rest[0] != ' ')
    ensures LeadingSpaces(sp + rest) == |sp|
  {
    if sp == [] {
      assert sp + rest == rest;
    } else {
      assert (sp + rest)[1..] == sp[1..] + rest;
      LeadingSpacesOf(sp[1..], rest);
    }
  }

  /**
   * Every match of the regular expression is found, and the captured
   * digit group is at least as long as that of any match.
   */
  lemma ParseTimeComplete(s: string, d: string, sp: string, w: string)
    requires IsTimeMatch(s, d, sp, w)
    ensures ParseTime(s).Some?
    ensures |ParseTime(s).value.0| >= |d|
  {
    assert IsWordChar(w[|w| - 1]);
    if s == d + sp + w {
      assert s[|s| - 1] == w[|w| - 1];
    }
    ParseLineComplete(WithoutFinalNewline(s), d, sp, w);
  }

  lemma ParseLineComplete(t: string, d: string, sp: string, w: string)
    requires t == d + sp + w
    requires |d| >= 1 && AllDigits(d) && AllSpaces(sp) && |w| >= 1 && AllWord(w)
    ensures ParseLine(t).Some?
    ensures |ParseLine(t).value.0| >= |d|
  {
    if sp != [] {
      CompleteWithSpaces(t, d, sp, w);
    } else {
      assert t == d + w;
      CompleteWithoutSpaces(t, d, w);
    }
  }

  /** With spaces between them the groups are exactly the digits and the unit. */
  lemma CompleteWithSpaces(t: string, d: string, sp: string, w: string)
    requires t == d + sp + w && sp != []
    requires |d| >= 1 && AllDigits(d) && AllSpaces(sp) && |w| >= 1 && AllWord(w)
    ensures ParseLine(t) == Some((d, w))
  {
    assert t == d + (sp + w);
    LeadingDigitsOf(d, sp + w);
    var k := |d|;
    assert t[k..] == sp + w;
    LeadingSpacesOf(sp, w);
    assert t[k + |sp|..] == w;
    assert t[..k] == d;
    assert ParseLine(t) == ParseUnit(t, k, k + |sp|);
  }

  /** Without spaces the digit group takes every digit it can. */
  lemma CompleteWithoutSpaces(t: string, d: string, w: string)
    requires t == d + w
    requires |d| >= 1 && AllDigits(d) && |w| >= 1 && AllWord(w)
    ensures ParseLine(t).Some?
    ensures |ParseLine(t).value.0| >= |d|
  {
    var k := LeadingDigits(t);
    assert t[..|d|] == d;
    LeadingDigitsAtLeast(t, |d|);
    if k < |t| {
      assert t[k..] == w[k - |d|..];
      assert IsWordChar(t[k]) by { assert t[k] == w[k - |d|]; }
      assert t[k..] == [] + t[k..];
      LeadingSpacesOf([], t[k..]);
      assert ParseLine(t) == ParseUnit(t, k, k);
    } else {
      assert ParseLine(t) == Some((t[..k - 1], t[k - 1..]));
    }
  }

  /**
   * PHP unit normalisation: `sec` and `min` spelled out, every trailing `s`
   * dropped otherwise, so the singular never ends in `s`.
   */
  function NormalizeUnit(u: string): (r: string)
    ensures r == [] || r[|r| - 1] != 's'
    ensures u != "sec" && u != "min" ==> StartsWith(u, r) && forall k :: |r| <= k < |u| ==> u[k] == 's'
  {
    match u
    case "sec" => "second"
    case "min" => "minute"
    case _ => RTrim(u, 's')
  }

  /**
   * Formats "[integer][unit]" into a label such as "5 minutes", failing
   * with code 30 when the input does not parse.
   */
  function FormatHumanReadableTime(time: string): (r: Result<string>)
    ensures r.Failure? ==> r.code == TIME_FORMAT_ERROR
  {
    match ParseTime(time)
    case None => Failure(TIME_FORMAT_ERROR)
    case Some((d, w)) =>
      var unit := NormalizeUnit(w);
      Ok(Translate(["%d " + unit, "%d " + unit + "s"], StringToInt(d)))
  }

  /** The formatting fails exactly when the input does not match `^(\d+) *(\w+)$`. */
  lemma FormatTimeFailsIffNoMatch(time: string)
    ensures FormatHumanReadableTime(time).Failure? <==> forall d, sp, w :: !IsTimeMatch(time, d, sp, w)
  {
    if ParseTime(time).Some? {
      ParseTimeSound(time);
    } else {
      forall d, sp, w | IsTimeMatch(time, d, sp, w) ensures false {
        ParseTimeComplete(time, d, sp, w);
      }
    }
  }

  /**
   * For an input made of a number, spaces and a unit that starts with a
   * letter, the label is the number followed by the normalised unit in the
   * plural form the count calls for; `(int)` caps a number beyond the
   * 64-bit range at PHP_INT_MAX.
   */
  lemma FormatTimeOfNumberAndUnit(s: string, n: nat, sp: string, w: string)
    requires s == NatToString(n) + sp + w
    requires AllSpaces(sp) && |w| >= 1 && AllWord(w) && !IsDigit(w[0])
    ensures var c := if n > PHP_INT_MAX then PHP_INT_MAX else n;
      FormatHumanReadableTime(s) == Ok(IntToString(c) + " " + NormalizeUnit(w) + (if c == 1 then "" else "s"))
  {
    var d := NatToString(n);
    assert s[|s| - 1] == w[|w| - 1];
    assert IsWordChar(w[|w| - 1]);
    assert WithoutFinalNewline(s) == s;
    assert s == d + (sp + w);
    LeadingDigitsOf(d, sp + w);
    assert s[|d|..] == sp + w;
    LeadingSpacesOf(sp, w);
    assert s[|d| + |sp|..] == w;
    assert s[..|d|] == d;
    assert ParseLine(s) == ParseUnit(s, |d|, |d| + |sp|);
    assert ParseTime(s) == Some((d, w));
    ParseNatToString(n);
    DigitsToInt(d);
    TranslateCount(if n > PHP_INT_MAX then PHP_INT_MAX else n, NormalizeUnit(w));
  }

  /** The two English forms of a counted unit. */
  lemma TranslateCount(n: int, unit: string)
    ensures Translate(["%d " + unit, "%d " + unit + "s"], n)
         == IntToString(n) + " " + unit + (if n == 1 then "" else "s")
  {
    FormatIntLeading(" " + unit, n);
    FormatIntLeading(" " + unit + "s", n);
    assert "%d " + unit == "%d" + (" " + unit);
    assert "%d " + unit + "s" == "%d" + (" " + unit + "s");
  }

  lemma FormatIntLeading(rest: string, n: int)
    ensures FormatInt("%d" + rest, n) == IntToString(n) + rest
  {
    assert ("%d" + rest)[..2] == "%d";
    assert ("%d" + rest)[2..] == rest;
  }

  lemma TimeExampleMinutes()
    ensures FormatHumanReadableTime("5min") == Ok("5 minutes")
  {
    MinutesPieces();
    FormatTimeOfNumberAndUnit("5min", 5, "", "min");
  }

  lemma MinutesPieces()
    ensures "5min" == NatToString(5) + "" + "min"
    ensures IntToString(5) + " " + NormalizeUnit("min") + "s" == "5 minutes"
  {
    assert IntToString(5) == "5";
  }

  lemma TimeExampleSeconds()
    ensures FormatHumanReadableTime("90sec") == Ok("90 seconds")
  {
    SecondsPieces();
    FormatTimeOfNumberAndUnit("90sec", 90, "", "sec");
  }

  lemma SecondsPieces()
    ensures "90sec" == NatToString(90) + "" + "sec"
    ensures IntToString(90) + " " + NormalizeUnit("sec") + "s" == "90 seconds"
  {
    assert NatToString(9) == "9";
    assert IntToString(90) == "90";
  }

  lemma TimeExampleWeek()
    ensures FormatHumanReadableTime("1week") == Ok("1 week")
  {
    WeekPieces();
    FormatTimeOfNumberAndUnit("1week", 1, "", "week");
  }

  lemma WeekPieces()
    ensures "1week" == NatToString(1) + "" + "week"
    ensures IntToString(1) + " " + NormalizeUnit("week") + "" == "1 week"
  {
    assert IntToString(1) == "1";
    assert NormalizeUnit("week") == "week";
  }

  lemma TimeExampleMonths()
    ensures FormatHumanReadableTime("6months") == Ok("6 months")
    ensures FormatHumanReadableTime("6 months") == Ok("6 months")
  {
    MonthsPieces();
    FormatTimeOfNumberAndUnit("6months", 6, "", "months");
    FormatTimeOfNumberAndUnit("6 months", 6, " ", "months");
  }

  lemma MonthsPieces()
    ensures "6months" == NatToString(6) + "" + "months"
    ensures "6 months" == NatToString(6) + " " + "months"
    ensures AllSpaces("") && AllSpaces(" ") && AllWord("months")
    ensures IntToString(6) + " " + NormalizeUnit("months") + "s" == "6 months"
  {
    assert IntToString(6) == "6";
    assert NormalizeUnit("months") == RTrim("months", 's') == RTrim("month", 's') == "month";
  }

  lemma TimeExampleInvalid()
    ensures FormatHumanReadableTime("five_minutes") == Failure(TIME_FORMAT_ERROR)
  {
    assert WithoutFinalNewline("five_minutes") == "five_minutes";
    assert LeadingDigits("five_minutes") == 0;
  }

  // ---------------------------------------------------------------------
  // formatHumanReadableSize

  function Pow(b: nat, e: nat): (r: nat)
    ensures b >= 1 ==> r >= 1
  {
    if e == 0 then 1 else b * Pow(b, e - 1)
  }

  /** The IEC unit names, index i standing for 1024^i bytes. */
  const IEC: seq<string> := ["B", "KiB", "MiB", "GiB", "TiB", "PiB", "EiB", "ZiB", "YiB"]

  /** Index of the unit for `size` bytes, by integer division. */
  function IecIndex(size: int): nat {
    if size < 1024 then 0 else 1 + IecIndex(size / 1024)
  }

  lemma {:induction false} IecIndexBounds(size: int)
    requires size >= 1
    ensures Pow(1024, IecIndex(size)) <= size < Pow(1024, IecIndex(size) + 1)
  {
    if size >= 1024 {
      var q := size / 1024;
      IecIndexBounds(q);
      var j := IecIndex(q);
      assert Pow(1024, j + 1) == 1024 * Pow(1024, j);
      assert Pow(1024, j + 2) == 1024 * Pow(1024, j + 1);
      assert 1024 * q <= size < 1024 * (q + 1);
      assert q + 1 <= Pow(1024, j + 1);
      assert 1024 * (q + 1) <= 1024 * Pow(1024, j + 1);
    }
  }

  /** Reaching 1024^k bytes means reaching unit k. */
  lemma {:induction false} IecIndexAtLeast(size: int, k: nat)
    requires Pow(1024, k) <= size
    ensures k <= IecIndex(size)
  {
    if k > 0 {
      assert Pow(1024, k) == 1024 * Pow(1024, k - 1);
      var q := size / 1024;
      assert Pow(1024, k - 1) <= q;
      IecIndexAtLeast(q, k - 1);
    }
  }

  /** Staying below 1024^(k+1) bytes means not going beyond unit k. */
  lemma {:induction false} IecIndexAtMost(size: int, k: nat)
    requires size < Pow(1024, k + 1)
    ensures IecIndex(size) <= k
  {
    if size >= 1024 {
      assert Pow(1024, k + 1) == 1024 * Pow(1024, k);
      assert k > 0;
      var q := size / 1024;
      assert q < Pow(1024, k);
      IecIndexAtMost(q, k - 1);
    }
  }

  /** Three digits with leading zeros. */
  function Pad3(n: nat): string
    requires n < 1000
  {
    [DigitChar(n / 100), DigitChar((n / 10) % 10), DigitChar(n % 10)]
  }

  /** Two digits with a leading zero. */
  function Pad2(n: nat): string
    requires n < 100
  {
    [DigitChar(n / 10), DigitChar(n % 10)]
  }

  /** A natural number with a space as thousands separator. */
  function GroupThousands(n: nat): string {
    if n < 1000 then NatToString(n) else GroupThousands(n / 1000) + " " + Pad3(n % 1000)
  }

  function GroupInt(n: int): string {
    if n < 0 then "-" + GroupThousands(-n) else GroupThousands(n)
  }

  /** Rounding half away from zero. */
  function Round(x: real): int {
    if x >= 0.0 then (x + 0.5).Floor else -((-x + 0.5).Floor)
  }

  /**
   * `number_format($x, $decimals, '.', ' ')` for 0 or 2 decimals, on the
   * exact value of `x`.
   */
  function NumberFormat(x: real, twoDecimals: bool): string {
    if !twoDecimals then GroupInt(Round(x))
    else
      var cents := Round(x * 100.0);
      var a := if cents < 0 then -cents else cents;
      (if cents < 0 then "-" else "") + GroupThousands(a / 100) + "." + Pad2(a % 100)
  }

  /** The label for `size` bytes, defined by the unit index. */
  function SizeLabel(size: int): string
    requires IecIndex(size) < |IEC|
  {
    var i := IecIndex(size);
    NumberFormat(size as real / Pow(1024, i) as real, i != 0) + " " + IEC[i]
  }

  /** Zero decimals are used exactly for sizes below 1024; the number is then grouped in thousands. */
  lemma SizeLabelBytes(size: int)
    ensures IecIndex(size) == 0 <==> size < 1024
    ensures size < 1024 ==> SizeLabel(size) == GroupInt(size) + " B"
  {
    if size < 1024 {
      assert IecIndex(size) == 0 && Pow(1024, 0) == 1;
      assert size as real / (1 as real) == size as real;
      RoundOfInteger(size);
    }
  }

  lemma RoundOfInteger(n: int)
    ensures Round(n as real) == n
  {
    if n >= 0 {
      assert n as real <= n as real + 0.5 < (n + 1) as real;
    } else {
      assert (-n) as real <= -(n as real) + 0.5 < (-n + 1) as real;
    }
  }

  /** Multiplying both sides of `a >= b` (or `a < b`) by a positive number. */
  lemma ScaleCompare(a: real, b: real, c: real)
    requires c > 0.0
    ensures a >= b ==> a * c >= b * c
    ensures a < b ==> a * c < b * c
  {
  }

  lemma SizeExampleBytes()
    ensures SizeLabel(1) == "1 B"
    ensures SizeLabel(1000) == "1 000 B"
  {
    SizeLabelBytes(1);
    SizeLabelBytes(1000);
    assert GroupThousands(1000) == "1" + " " + Pad3(0);
  }

  lemma SizeExampleKibibyte()
    ensures SizeLabel(1024) == "1.00 KiB"
  {
    assert IecIndex(1024) == 1 && Pow(1024, 1) == 1024;
    assert 1024 as real / 1024 as real == 1.0;
    assert Round(1.0 * 100.0) == 100;
    assert NumberFormat(1.0, true) == "1" + "." + "00";
  }

  lemma SizeExampleRounded()
    ensures SizeLabel(1234) == "1.21 KiB"
  {
    assert IecIndex(1234) == 1 && Pow(1024, 1) == 1024;
    assert Round(1234.0 / 1024.0 * 100.0) == 121;
  }

  lemma {:induction false} PowMonotone(a: nat, b: nat)
    requires a <= b
    ensures Pow(1024, a) <= Pow(1024, b)
  {
    if a < b {
      PowMonotone(a, b - 1);
      assert Pow(1024, b) == 1024 * Pow(1024, b - 1);
    }
  }

  /** One pass of the division loop keeps its invariant. */
  lemma DivideStep(size: int, s: real, i: nat)
    requires s * (Pow(1024, i) as real) == size as real && s / 1024.0 >= 1.0
    ensures (s / 1024.0) * (Pow(1024, i + 1) as real) == size as real
    ensures Pow(1024, i + 1) <= size && i + 1 <= IecIndex(size)
  {
    var p := Pow(1024, i);
    assert Pow(1024, i + 1) == 1024 * p;
    assert (s / 1024.0) * ((1024 * p) as real) == s * (p as real);
    ScaleCompare(s, 1024.0, p as real);
    IecIndexAtLeast(size, i + 1);
  }

  /** When the loop stops, it has reached the unit index. */
  lemma DivideExit(size: int, s: real, i: nat)
    requires s * (Pow(1024, i) as real) == size as real && s / 1024.0 < 1.0
    requires i <= IecIndex(size)
    ensures i == IecIndex(size)
  {
    var p := Pow(1024, i);
    assert Pow(1024, i + 1) == 1024 * p;
    assert s < 1024.0;
    ScaleCompare(s, 1024.0, p as real);
    IecIndexAtMost(size, i);
  }

  /** The loop's final value is the size in the unit reached. */
  lemma ScaledLabel(size: int, s: real, i: nat)
    requires s * (Pow(1024, i) as real) == size as real && s / 1024.0 < 1.0
    requires i <= IecIndex(size) < |IEC|
    ensures i == IecIndex(size)
    ensures s == size as real / Pow(1024, i) as real
  {
    DivideExit(size, s, i);
    QuotientOfProduct(s, Pow(1024, i) as real, size as real);
  }

  lemma QuotientOfProduct(s: real, p: real, x: real)
    requires p > 0.0 && s * p == x
    ensures s == x / p
  {
  }

  /**
   * Divides the size by 1024 while the quotient stays at least 1 and
   * labels it with the unit reached: unit i satisfies
   * 1024^i <= size < 1024^(i+1) for sizes of at least one byte.
   */
  method FormatHumanReadableSize(size: int) returns (text: string)
    requires IecIndex(size) < |IEC|
    ensures text == SizeLabel(size)
    ensures size >= 1 ==> Pow(1024, IecIndex(size)) <= size < Pow(1024, IecIndex(size) + 1)
    ensures size < 1024 ==> text == GroupInt(size) + " B"
  {
    var iec := IEC;
    var i: nat := 0;
    var s: real := size as real;
    while s / 1024.0 >= 1.0
      invariant s * (Pow(1024, i) as real) == size as real
      invariant i <= IecIndex(size)
      decreases IecIndex(size) - i
    {
      DivideStep(size, s, i);
      s := s / 1024.0;
      i := i + 1;
    }
    ScaledLabel(size, s, i);
    if size >= 1 { IecIndexBounds(size); }
    SizeLabelBytes(size);
    text := NumberFormat(s, i != 0) + " " + iec[i];
  }
}
