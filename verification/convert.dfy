/** The argument converters of the interpreter: decimal unsigned 64-bit numbers, octal file modes
    and the user/group pair, all built on a model of the C library's `strtoul`/`strtoull`
    (C locale, bases 8 and 10). */
module Convert {
  import opened Base

  const UINT64_MAX: nat := 0xFFFF_FFFF_FFFF_FFFF
  /** `mode_t` is 32 bits wide: a converted mode keeps the low 32 bits of the `unsigned long`. */
  const MODE_MODULUS: nat := 0x1_0000_0000

  predicate IsBase(base: nat) {
    base == 8 || base == 10
  }

  /** `isspace` in the C locale. */
  predicate IsSpace(c: char) {
    c == ' ' || c == '\t' || c == '\n' || c == '\U{B}' || c == '\U{C}' || c == '\r'
  }

  predicate IsDigit(c: char, base: nat)
    requires IsBase(base)
  {
    '0' <= c && (c as int) < ('0' as int) + base
  }

  function DigitValue(c: char): int {
    (c as int) - ('0' as int)
  }

  predicate AllDigits(s: string, base: nat)
    requires IsBase(base)
  {
    forall i :: 0 <= i < |s| ==> IsDigit(s[i], base)
  }

  /** Length of the leading run of characters satisfying `isspace`. */
  function SpaceRun(s: string): (n: nat)
    ensures n <= |s|
    ensures forall i :: 0 <= i < n ==> IsSpace(s[i])
    ensures n < |s| ==> !IsSpace(s[n])
  {
    if s == [] || !IsSpace(s[0]) then 0 else 1 + SpaceRun(s[1..])
  }

  /** Length of the leading run of digits of `base`. */
  function DigitRun(s: string, base: nat): (n: nat)
    requires IsBase(base)
    ensures n <= |s|
    ensures AllDigits(s[..n], base)
    ensures n < |s| ==> !IsDigit(s[n], base)
  {
    if s == [] || !IsDigit(s[0], base) then 0
    else
      var n := 1 + DigitRun(s[1..], base);
      assert s[..n] == [s[0]] + s[1..][..n - 1];
      n
  }

  /** The number a digit string denotes, most significant digit first. */
  function ValueOf(digits: string, base: nat): nat
    requires IsBase(base) && AllDigits(digits, base)
  {
    if digits == [] then 0
    else ValueOf(digits[..|digits| - 1], base) * base + DigitValue(digits[|digits| - 1])
  }

  /** `strtoul(s, &end, base)`: the converted value and the text `end` points at.
      Leading white space and one sign are skipped; without any digit nothing is converted and
      `end` is `s` itself; a value beyond the range saturates at `UINT64_MAX`; a minus sign negates
      modulo 2^64. */
  function Strtoul(s: string, base: nat): (r: (nat, string))
    requires IsBase(base)
    ensures r.0 <= UINT64_MAX
  {
    var j := SignEnd(s);
    var n := DigitRun(s[j..], base);
    if n == 0 then (0, s)
    else (InRange(ValueOf(s[j..][..n], base), Negative(s)), s[j..][n..])
  }

  /** Where the digits start: after the leading white space and at most one sign. */
  function SignEnd(s: string): (j: nat)
    ensures j <= |s|
  {
    var i := SpaceRun(s);
    if i < |s| && (s[i] == '+' || s[i] == '-') then i + 1 else i
  }

  predicate Negative(s: string) {
    var i := SpaceRun(s);
    i < |s| && s[i] == '-'
  }

  /** The value `strtoul` returns for the magnitude `v` read after an optional minus sign. */
  function InRange(v: nat, negative: bool): (r: nat)
    ensures r <= UINT64_MAX
    ensures v <= UINT64_MAX && !negative ==> r == v
  {
    if v > UINT64_MAX then UINT64_MAX
    else if negative && v != 0 then UINT64_MAX + 1 - v
    else v
  }

  /** UG_repl_stmt_parse_uint64: decimal conversion that fails only when the value is 0 and
      unconverted text remains. */
  function ParseUint64(s: string): (r: Result<nat>)
    ensures r.Ok? ==> r.value <= UINT64_MAX
    ensures r.Err? ==> r.code == -EINVAL
  {
    var (v, rest) := Strtoul(s, 10);
    if v == 0 && rest != [] then Err(-EINVAL) else Ok(v)
  }

  /** UG_repl_stmt_parse_mode: octal conversion into a 32-bit `mode_t`; the zero test is made on
      the truncated mode. */
  function ParseMode(s: string): (r: Result<nat>)
    ensures r.Ok? ==> r.value < MODE_MODULUS
    ensures r.Err? ==> r.code == -EINVAL
  {
    var (v, rest) := Strtoul(s, 8);
    var mode := v % MODE_MODULUS;
    if mode == 0 && rest != [] then Err(-EINVAL) else Ok(mode)
  }

  /** UG_repl_stmt_parse_user_group: the arguments at `offset` and `offset + 1` as a user and a
      group id. */
  function ParseUserGroup(args: seq<string>, offset: nat): (r: Result<(nat, nat)>)
    ensures r.Ok? <==> |args| >= offset + 2 && ParseUint64(args[offset]).Ok? && ParseUint64(args[offset + 1]).Ok?
    ensures r.Ok? ==> r.value == (ParseUint64(args[offset]).value, ParseUint64(args[offset + 1]).value)
    ensures r.Err? ==> r.code == -EINVAL
  {
    if |args| < offset + 2 then Err(-EINVAL)
    else
      var user :- ParseUint64(args[offset]);
      var group :- ParseUint64(args[offset + 1]);
      Ok((user, group))
  }

  // ---------------------------------------------------------------------------------------------
  // Rendering numbers, the inverse of the converters

  function DigitChar(d: nat): char
    requires d < 10
  {
    (('0' as int) + d) as char
  }

  /** The usual numeral of `n` in `base`, without leading zeros. */
  function Numeral(n: nat, base: nat): (s: string)
    requires IsBase(base)
    ensures |s| >= 1 && AllDigits(s, base)
    decreases n
  {
    if n < base then [DigitChar(n)] else Numeral(n / base, base) + [DigitChar(n % base)]
  }

  lemma {:induction false} NumeralValue(n: nat, base: nat)
    requires IsBase(base)
    ensures ValueOf(Numeral(n, base), base) == n
    decreases n
  {
    var s := Numeral(n, base);
    if n >= base {
      NumeralValue(n / base, base);
      assert s[..|s| - 1] == Numeral(n / base, base);
    }
  }

  /** The digit run of a digit string followed by text that does not continue it is the string. */
  lemma {:induction false} DigitRunOfDigits(d: string, x: string, base: nat)
    requires IsBase(base) && AllDigits(d, base)
    requires x == [] || !IsDigit(x[0], base)
    ensures DigitRun(d + x, base) == |d|
    decreases |d|
  {
    if d != [] {
      assert (d + x)[0] == d[0];
      assert (d + x)[1..] == d[1..] + x;
      DigitRunOfDigits(d[1..], x, base);
    } else {
      assert d + x == x;
    }
  }

  /** A digit string followed by text that does not continue it converts to the string's value,
      leaving that text unconverted. */
  lemma DigitsThenText(d: string, x: string, base: nat)
    requires IsBase(base) && d != [] && AllDigits(d, base) && ValueOf(d, base) <= UINT64_MAX
    requires x == [] || !IsDigit(x[0], base)
    ensures Strtoul(d + x, base) == (ValueOf(d, base), x)
  {
    var s := d + x;
    assert !IsSpace(s[0]) && s[0] != '+' && s[0] != '-' by { assert s[0] == d[0]; }
    assert SpaceRun(s) == 0;
    assert SignEnd(s) == 0 && !Negative(s);
    assert s[0..] == s;
    var n := DigitRun(s, base);
    DigitRunOfDigits(d, x, base);
    assert s[..n] == d;
    assert s[n..] == x;
  }

  /** Round trip: the decimal numeral of any 64-bit value parses back to it. */
  lemma ParseUint64Numeral(n: nat)
    requires n <= UINT64_MAX
    ensures ParseUint64(Numeral(n, 10)) == Ok(n)
  {
    NumeralValue(n, 10);
    DigitsThenText(Numeral(n, 10), [], 10);
    assert Numeral(n, 10) + [] == Numeral(n, 10);
  }

  /** Round trip: the octal numeral of any 32-bit mode parses back to it. */
  lemma ParseModeNumeral(m: nat)
    requires m < MODE_MODULUS
    ensures ParseMode(Numeral(m, 8)) == Ok(m)
  {
    var s := Numeral(m, 8);
    assert Strtoul(s, 8) == (m, []) by {
      NumeralValue(m, 8);
      DigitsThenText(s, [], 8);
      assert s + [] == s;
    }
    assert m % MODE_MODULUS == m;
  }

  /** Trailing text after a nonzero number is ignored: "12x" parses as 12. */
  lemma ParseUint64IgnoresTrailingText(n: nat, x: string)
    requires 0 < n <= UINT64_MAX
    requires x == [] || !IsDigit(x[0], 10)
    ensures ParseUint64(Numeral(n, 10) + x) == Ok(n)
  {
    NumeralValue(n, 10);
    DigitsThenText(Numeral(n, 10), x, 10);
  }

  /** Text the source does not reject although it holds no plain number: the empty argument
      converts to 0, and a leading blank or plus sign is skipped. */
  lemma ParseUint64Lenient()
    ensures ParseUint64("") == Ok(0)
    ensures ParseUint64(" 7") == Ok(7)
    ensures ParseUint64("+7") == Ok(7)
  {
  }

  /** Zero followed by text is rejected: "0x" fails, where "0" alone gives 0. */
  lemma ParseUint64ZeroThenText(x: string)
    requires x != [] && !IsDigit(x[0], 10)
    ensures ParseUint64("0" + x) == Err(-EINVAL)
  {
    assert ValueOf("0", 10) == 0 by { assert "0"[..0] == []; }
    DigitsThenText("0", x, 10);
  }

  /** Text that starts with no space, sign or digit converts nothing and is rejected: "x" and
      "/path" fail, and only the empty string escapes (it gives 0). */
  lemma ParseUint64NoDigits(s: string)
    requires s != [] && !IsSpace(s[0]) && s[0] != '+' && s[0] != '-' && !IsDigit(s[0], 10)
    ensures ParseUint64(s) == Err(-EINVAL)
  {
    assert SpaceRun(s) == 0;
    assert s[0..] == s;
    assert DigitRun(s, 10) == 0;
  }
}
