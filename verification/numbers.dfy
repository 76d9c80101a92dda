/** The numeric form fields: every number input stores `parseInt(value) || 0`. This module models
    ECMAScript `parseInt` with no radix argument (leading white space, optional sign, optional
    `0x` prefix, longest run of digits) and the `|| 0` fallback, and gives decimal rendering as
    the partner that round-trips through it. */
module Numbers {
  import opened Options
  import Text

  /** The value of `c` as a digit in base `radix` (10 or 16), if it is one. */
  function DigitValue(c: char, radix: nat): (d: Option<nat>)
    ensures d.Some? ==> d.value < (if radix == 16 then 16 else 10)
  {
    if '0' <= c <= '9' then Some(c as int - '0' as int)
    else if radix == 16 && 'a' <= c <= 'f' then Some(c as int - 'a' as int + 10)
    else if radix == 16 && 'A' <= c <= 'F' then Some(c as int - 'A' as int + 10)
    else None
  }

  predicate IsDigit(c: char, radix: nat) {
    DigitValue(c, radix).Some?
  }

  predicate IsDecimalDigit(c: char) {
    '0' <= c <= '9'
  }

  ghost predicate AllDigits(s: string, radix: nat) {
    forall i :: 0 <= i < |s| ==> IsDigit(s[i], radix)
  }

  /** The longest prefix of `s` made of base-`radix` digits. */
  function DigitRun(s: string, radix: nat): (r: string)
    ensures |r| <= |s| && r == s[..|r|]
    ensures AllDigits(r, radix)
    ensures |r| < |s| ==> !IsDigit(s[|r|], radix)
  {
    if |s| > 0 && IsDigit(s[0], radix) then [s[0]] + DigitRun(s[1..], radix) else []
  }

  /** The number a run of digits denotes, most significant digit first. */
  function ValueOf(ds: string, radix: nat): nat
    requires AllDigits(ds, radix)
  {
    if |ds| == 0 then 0
    else ValueOf(ds[..|ds| - 1], radix) * radix + DigitValue(ds[|ds| - 1], radix).value
  }

  /** `t` without its sign, if it starts with one. */
  function Unsigned(t: string): string {
    if |t| > 0 && (t[0] == '-' || t[0] == '+') then t[1..] else t
  }

  /** `0x` or `0X` switches `parseInt` to base 16. */
  predicate HexPrefixed(u: string) {
    |u| >= 2 && u[0] == '0' && (u[1] == 'x' || u[1] == 'X')
  }

  /** The magnitude an unsigned text denotes: its leading digit run in base 16 after a hex
      prefix and base 10 otherwise, `None` when that run is empty. */
  function Magnitude(u: string): Option<nat> {
    var radix := if HexPrefixed(u) then 16 else 10;
    var ds := DigitRun(if HexPrefixed(u) then u[2..] else u, radix);
    if ds == [] then None else Some(ValueOf(ds, radix))
  }

  /** `parseInt(s)`: `None` stands for `NaN`. */
  function ParseInt(s: string): Option<int> {
    ParseTrimmed(Text.TrimStart(s))
  }

  /** `parseInt` once leading white space is gone: an optional sign, then the magnitude. */
  function ParseTrimmed(t: string): Option<int> {
    match Magnitude(Unsigned(t))
    case None => None
    case Some(m) =>
      var v: int := if |t| > 0 && t[0] == '-' then -(m as int) else m;
      Some(v)
  }

  /** `parseInt` skips leading white space: a white-space character in front changes nothing. */
  lemma ParseIntSkipsSpace(c: char, s: string)
    requires Text.IsSpace(c)
    ensures ParseInt([c] + s) == ParseInt(s)
  {
    Text.TrimStartSkips(c, s);
  }

  /** `parseInt(s) || 0`: the value a number field takes after an edit. A non-zero result is
      exactly what `parseInt` produced; text `parseInt` rejects becomes 0. */
  function NumberInput(s: string): (n: int)
    ensures n != 0 ==> ParseInt(s) == Some(n)
    ensures ParseInt(s).Some? ==> n == ParseInt(s).value
    ensures ParseInt(s).None? ==> n == 0
  {
    match ParseInt(s)
    case None => 0
    case Some(v) => v
  }

  /** Text without any decimal digit makes the field 0; this includes the cleared field. */
  lemma NoDigitsGivesZero(s: string)
    requires forall i :: 0 <= i < |s| ==> !IsDecimalDigit(s[i])
    ensures NumberInput(s) == 0
  {
    NoDigitsUnsigned(s);
    assert ParseInt(s) == None;
  }

  /** Trimming and dropping the sign cannot bring in a digit. */
  lemma NoDigitsUnsigned(s: string)
    requires forall i :: 0 <= i < |s| ==> !IsDecimalDigit(s[i])
    ensures Magnitude(Unsigned(Text.TrimStart(s))) == None
  {
    NoDigitsTrimmed(s);
    NoDigitsSigned(Text.TrimStart(s));
    NoDigitsNoMagnitude(Unsigned(Text.TrimStart(s)));
  }

  lemma NoDigitsTrimmed(s: string)
    requires forall i :: 0 <= i < |s| ==> !IsDecimalDigit(s[i])
    ensures var t := Text.TrimStart(s); forall i :: 0 <= i < |t| ==> !IsDecimalDigit(t[i])
  {
    NoDigitsSuffix(s, |s| - |Text.TrimStart(s)|);
  }

  lemma NoDigitsSigned(t: string)
    requires forall i :: 0 <= i < |t| ==> !IsDecimalDigit(t[i])
    ensures var u := Unsigned(t); forall i :: 0 <= i < |u| ==> !IsDecimalDigit(u[i])
  {
    NoDigitsSuffix(t, |t| - |Unsigned(t)|);
  }

  lemma NoDigitsSuffix(s: string, k: nat)
    requires k <= |s| && forall i :: 0 <= i < |s| ==> !IsDecimalDigit(s[i])
    ensures forall i :: 0 <= i < |s| - k ==> !IsDecimalDigit(s[k..][i])
  {
    forall i | 0 <= i < |s| - k ensures !IsDecimalDigit(s[k..][i]) {
      assert s[k..][i] == s[k + i];
    }
  }

  lemma NoDigitsNoMagnitude(u: string)
    requires forall i :: 0 <= i < |u| ==> !IsDecimalDigit(u[i])
    ensures Magnitude(u) == None
  {
    assert !HexPrefixed(u);
  }

  function DigitChar(d: nat): (c: char)
    requires d < 10
    ensures IsDecimalDigit(c) && DigitValue(c, 10) == Some(d)
  {
    ('0' as int + d) as char
  }

  /** Decimal rendering of a natural number, without leading zeros. */
  function ShowNat(n: nat): (s: string)
    ensures |s| > 0
    ensures forall i :: 0 <= i < |s| ==> IsDecimalDigit(s[i])
  {
    if n < 10 then [DigitChar(n)] else ShowNat(n / 10) + [DigitChar(n % 10)]
  }

  /** Decimal rendering of an integer, with a leading `-` when negative. */
  function Show(n: int): string {
    if n < 0 then "-" + ShowNat(-n) else ShowNat(n)
  }

  lemma {:induction false} ShowNatValue(n: nat)
    ensures AllDigits(ShowNat(n), 10)
    ensures ValueOf(ShowNat(n), 10) == n
  {
    var s := ShowNat(n);
    if n >= 10 {
      ShowNatValue(n / 10);
      assert s[..|s| - 1] == ShowNat(n / 10);
    }
  }

  lemma DigitRunAll(s: string, radix: nat)
    requires AllDigits(s, radix)
    ensures DigitRun(s, radix) == s
  {
  }

  /** A non-empty run of decimal digits that is not hex-prefixed denotes its decimal value. */
  lemma DecimalMagnitude(ds: string)
    requires |ds| > 0 && AllDigits(ds, 10)
    ensures Magnitude(ds) == Some(ValueOf(ds, 10))
  {
    assert !HexPrefixed(ds);
    DigitRunAll(ds, 10);
  }

  lemma DigitNotSpace(c: char)
    requires IsDecimalDigit(c)
    ensures !Text.IsSpace(c) && c != '-' && c != '+'
  {
  }

  lemma TrimStartKeeps(s: string)
    requires |s| > 0 && !Text.IsSpace(s[0])
    ensures Text.TrimStart(s) == s
  {
  }

  /** What `parseInt` reads from text that starts with no white space. */
  lemma ParseIntOf(s: string, m: nat)
    requires |s| > 0 && !Text.IsSpace(s[0])
    requires Magnitude(Unsigned(s)) == Some(m)
    ensures var v: int := if s[0] == '-' then -(m as int) else m; ParseInt(s) == Some(v)
  {
    TrimStartKeeps(s);
  }

  /** Parsing a rendered integer gives the integer back. */
  lemma ParseShow(n: int)
    ensures ParseInt(Show(n)) == Some(n)
  {
    var m: nat := if n < 0 then -n else n;
    var digits := ShowNat(m);
    ShowNatValue(m);
    DecimalMagnitude(digits);
    DigitNotSpace(digits[0]);
    if n < 0 {
      var s := "-" + digits;
      assert s[1..] == digits;
      ParseIntOf(s, m);
    } else {
      ParseIntOf(digits, m);
    }
  }

  /** A number field holding a rendered integer reads back as that integer. */
  lemma NumberInputRoundTrip(n: int)
    ensures NumberInput(Show(n)) == n
  {
    ParseShow(n);
  }
}
