/** The two pure string helpers of the controller: the upper-cased file
    extension shown in the library's "format" column, and the MM:SS
    rendering of a duration shown in its "duration" column. */
module Text {

  // ---------------------------------------------------------------------
  // ASCII upper-casing (String.toUpperCase restricted to ASCII letters)
  // ---------------------------------------------------------------------

  predicate IsLower(c: char) { 'a' <= c <= 'z' }

  predicate IsUpper(c: char) { 'A' <= c <= 'Z' }

  /** Upper-cases one character: a lower-case ASCII letter becomes the same
      letter in upper case, every other character is kept. */
  function UpperChar(c: char): (u: char)
    ensures !IsLower(u)
    ensures !IsLower(c) ==> u == c
    ensures IsLower(c) ==> IsUpper(u) && u as int - 'A' as int == c as int - 'a' as int
  {
    if IsLower(c) then (c as int - 32) as char else c
  }

  /** Upper-cases a string character by character. */
  function Upper(s: string): (r: string)
    ensures |r| == |s|
    ensures forall i :: 0 <= i < |r| ==> !IsLower(r[i])
    ensures forall i :: 0 <= i < |s| && !IsLower(s[i]) ==> r[i] == s[i]
    ensures forall i :: 0 <= i < |s| && IsLower(s[i]) ==>
      IsUpper(r[i]) && r[i] as int - 'A' as int == s[i] as int - 'a' as int
  {
    seq(|s|, i requires 0 <= i < |s| => UpperChar(s[i]))
  }

  /** Upper-casing twice is upper-casing once. */
  lemma UpperIdempotent(s: string)
    ensures Upper(Upper(s)) == Upper(s)
  {
  }

  // ---------------------------------------------------------------------
  // File extension
  // ---------------------------------------------------------------------

  /** String.lastIndexOf for one character: the position of the last
      occurrence of c in s, or -1 when c does not occur. */
  function LastIndexOf(s: string, c: char): (k: int)
    ensures -1 <= k < |s|
    ensures k == -1 <==> c !in s
    ensures 0 <= k ==> s[k] == c && c !in s[k + 1..]
    decreases |s|
  {
    if |s| == 0 then -1
    else if s[|s| - 1] == c then |s| - 1
    else
      assert s == s[..|s| - 1] + [s[|s| - 1]];
      LastIndexOf(s[..|s| - 1], c)
  }

  /** The text after the last '.' of a file name, upper-cased, or "" when
      the name has no '.'. */
  function FileExtension(name: string): (ext: string)
    ensures '.' !in ext
    ensures forall i :: 0 <= i < |ext| ==> !IsLower(ext[i])
    ensures '.' !in name ==> ext == ""
    ensures |ext| < |name| || ext == ""
  {
    var k := LastIndexOf(name, '.');
    if k == -1 then "" else Upper(name[k + 1..])
  }

  /** Whatever '.' is the last one in the name, the extension is the
      upper-cased text after it. */
  lemma FileExtensionAfterLastDot(name: string, k: nat)
    requires k < |name| && name[k] == '.' && '.' !in name[k + 1..]
    ensures FileExtension(name) == Upper(name[k + 1..])
  {
  }

  /** The extension is empty exactly when the name has no '.' or ends in
      one. */
  lemma FileExtensionEmpty(name: string)
    ensures FileExtension(name) == "" <==> '.' !in name || name[|name| - 1] == '.'
  {
  }

  // ---------------------------------------------------------------------
  // Decimal digits and the %02d conversion
  // ---------------------------------------------------------------------

  predicate IsDigit(c: char) { '0' <= c <= '9' }

  predicate AllDigits(s: string) { forall i :: 0 <= i < |s| ==> IsDigit(s[i]) }

  function DigitChar(d: nat): (c: char)
    requires d < 10
    ensures IsDigit(c) && c as int - '0' as int == d
  {
    ('0' as int + d) as char
  }

  /** The value of a string of decimal digits (the empty string is 0). */
  function DigitsValue(s: string): nat
    requires AllDigits(s)
    decreases |s|
  {
    if s == [] then 0
    else DigitsValue(s[..|s| - 1]) * 10 + (s[|s| - 1] as int - '0' as int)
  }

  /** The decimal rendering of n without leading zeros ("0" for zero). */
  function Digits(n: nat): (s: string)
    ensures |s| >= 1 && AllDigits(s)
    ensures s[0] == '0' ==> n == 0
    ensures n < 10 <==> |s| == 1
    decreases n
  {
    if n < 10 then [DigitChar(n)] else Digits(n / 10) + [DigitChar(n % 10)]
  }

  /** Reading back the decimal rendering of n gives n. */
  lemma {:induction false} DigitsRoundTrip(n: nat)
    ensures DigitsValue(Digits(n)) == n
    decreases n
  {
    if n >= 10 {
      var s := Digits(n);
      assert s[..|s| - 1] == Digits(n / 10);
      DigitsRoundTrip(n / 10);
    }
  }

  /** A leading zero does not change the value of a digit string. */
  lemma {:induction false} LeadingZero(s: string)
    requires AllDigits(s)
    ensures AllDigits("0" + s) && DigitsValue("0" + s) == DigitsValue(s)
    decreases |s|
  {
    var t := "0" + s;
    if s != [] {
      assert t[..|t| - 1] == "0" + s[..|s| - 1];
      LeadingZero(s[..|s| - 1]);
    }
  }

  /** The %02d conversion: the decimal digits of n, padded on the left with
      zeros to a width of at least two. */
  function ZeroPad2(n: nat): string
  {
    if n < 10 then "0" + Digits(n) else Digits(n)
  }

  /** The padded text has only digits, at least two of them, exactly two
      below 100, no leading zero from 10 up, and reads back to n. */
  lemma ZeroPad2ReadsBack(n: nat)
    ensures |ZeroPad2(n)| >= 2 && AllDigits(ZeroPad2(n))
    ensures n < 100 ==> |ZeroPad2(n)| == 2
    ensures n >= 10 ==> ZeroPad2(n)[0] != '0'
    ensures DigitsValue(ZeroPad2(n)) == n
  {
    DigitsRoundTrip(n);
    if n < 10 {
      LeadingZero(Digits(n));
    } else {
      assert n / 10 < 10 ==> |Digits(n / 10)| == 1;
    }
  }

  // ---------------------------------------------------------------------
  // Duration
  // ---------------------------------------------------------------------

  /** "%02d:%02d" of the whole minutes and the remaining seconds of a
      duration given in whole seconds. */
  function FormatDuration(seconds: nat): string
  {
    ZeroPad2(seconds / 60) + ":" + ZeroPad2(seconds % 60)
  }

  /** The rendered duration reads back to the duration: the part before the
      last ':' is the number of whole minutes, the two digits after it are
      the remaining seconds, below 60. The minutes field is exactly two
      digits unless it needs more, and then has no leading zero. */
  lemma FormatDurationReadsBack(seconds: nat)
    ensures var r := FormatDuration(seconds);
      |r| >= 5 && r[|r| - 3] == ':' &&
      (|r| > 5 ==> r[0] != '0') &&
      AllDigits(r[..|r| - 3]) && AllDigits(r[|r| - 2..]) &&
      DigitsValue(r[|r| - 2..]) < 60 &&
      DigitsValue(r[..|r| - 3]) * 60 + DigitsValue(r[|r| - 2..]) == seconds
  {
    var mm, ss := ZeroPad2(seconds / 60), ZeroPad2(seconds % 60);
    ZeroPad2ReadsBack(seconds / 60);
    ZeroPad2ReadsBack(seconds % 60);
    var r := mm + ":" + ss;
    assert r[..|r| - 3] == mm && r[|r| - 2..] == ss;
  }

  /** The number of seconds an "MM:SS" text stands for, or -1 when the text
      does not have that shape. */
  function DurationValue(r: string): int
  {
    if |r| >= 5 && r[|r| - 3] == ':' && AllDigits(r[..|r| - 3]) && AllDigits(r[|r| - 2..])
    then DigitsValue(r[..|r| - 3]) * 60 + DigitsValue(r[|r| - 2..])
    else -1
  }

  /** Reading a rendered duration back gives the duration. */
  lemma FormatDurationValue(seconds: nat)
    ensures DurationValue(FormatDuration(seconds)) == seconds
  {
    FormatDurationReadsBack(seconds);
  }

  /** Two durations with the same rendering are equal. */
  lemma FormatDurationInjective(a: nat, b: nat)
    requires FormatDuration(a) == FormatDuration(b)
    ensures a == b
  {
    FormatDurationValue(a);
    FormatDurationValue(b);
  }

  /** A worked example: 125 seconds is "02:05". */
  lemma FormatDurationExample()
    ensures FormatDuration(125) == "02:05"
  {
    assert 125 / 60 == 2 && 125 % 60 == 5;
    assert Digits(2) == ['2'] && Digits(5) == ['5'];
  }
}
