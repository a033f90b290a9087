/** Decimal and hexadecimal numerals as strconv and fmt print and read them. */
module Numerals {
  import opened Strings
  import opened Widths

  function Digit(d: nat): char
    requires d < 16
  {
    if d < 10 then ('0' as int + d) as char else ('a' as int + d - 10) as char
  }

  /** v in base 10 or 16, most significant digit first. */
  function Numeral(v: nat, base: nat): (s: string)
    requires base == 10 || base == 16
    ensures s != ""
  {
    if v < base then [Digit(v)] else Numeral(v / base, base) + [Digit(v % base)]
  }

  /** strconv.Itoa on a non-negative number */
  function Decimal(v: nat): string { Numeral(v, 10) }

  /** fmt.Sprintf("%x") */
  function Hex(v: nat): string { Numeral(v, 16) }

  function DigitValue(c: char): nat
  {
    if '0' <= c <= '9' then c as int - '0' as int
    else if 'a' <= c <= 'f' then c as int - 'a' as int + 10
    else 16
  }

  /** The number s spells in the base; digits outside it count too. */
  function Value(s: string, base: nat): nat
  {
    if s == "" then 0 else Value(s[..|s| - 1], base) * base + DigitValue(s[|s| - 1])
  }

  predicate AllDigits(s: string, base: nat)
  {
    forall c | c in s :: DigitValue(c) < base
  }

  lemma {:induction false} NumeralRoundTrip(v: nat, base: nat)
    requires base == 10 || base == 16
    ensures Value(Numeral(v, base), base) == v && AllDigits(Numeral(v, base), base)
    decreases v
  {
    if v >= base {
      NumeralRoundTrip(v / base, base);
      var s := Numeral(v, base);
      assert s[..|s| - 1] == Numeral(v / base, base);
    } else {
      assert [Digit(v)][..0] == "";
    }
  }

  /** No numeral has a leading zero but that of 0. */
  lemma {:induction false} NoLeadingZero(v: nat, base: nat)
    requires base == 10 || base == 16
    ensures Numeral(v, base)[0] == '0' ==> v == 0
    decreases v
  {
    if v >= base { NoLeadingZero(v / base, base); }
  }

  /** Different numbers have different numerals. */
  lemma NumeralInjective(v: nat, w: nat, base: nat)
    requires base == 10 || base == 16
    requires Numeral(v, base) == Numeral(w, base)
    ensures v == w
  {
    NumeralRoundTrip(v, base);
    NumeralRoundTrip(w, base);
  }

  datatype Parsed = Number(v: nat) | NotANumber

  /** strconv.ParseUint(s, 10, 64) */
  function ParseUint(s: string): Parsed
  {
    if s != "" && AllDigits(s, 10) && Value(s, 10) < TWO_64 then Number(Value(s, 10)) else NotANumber
  }

  /** Member ids come as decimal in JSON and as hex in etcd's own log. */
  function HexID(s: string): string
  {
    if s == "" then ""
    else match ParseUint(s)
      case Number(v) => Hex(v)
      case NotANumber => s
  }

  lemma HexIDOfDecimal(v: nat)
    requires v < TWO_64
    ensures HexID(Decimal(v)) == Hex(v)
  {
    NumeralRoundTrip(v, 10);
  }

  /** Anything but a decimal of 64 bits is left as it is. */
  lemma HexIDOther(s: string)
    requires s == "" || (exists c :: c in s && !IsDigit(c)) || Value(s, 10) >= 0x1_0000_0000_0000_0000
    ensures HexID(s) == s
  {
    if c :| c in s && !IsDigit(c) { assert DigitValue(c) >= 10; }
  }
}
