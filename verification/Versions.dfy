/** The order in which chart versions are compared. */
module Versions {
  import opened Strings
  import opened Numerals
  import opened Widths

  const MAX_INT := TWO_63 - 1

  // ----- taking a version string apart

  function TrimV(v: string): string
  {
    if v != "" && v[0] == 'v' then v[1..] else v
  }

  /** s up to its first character in stops. */
  function UpTo(s: string, stops: set<char>): string
  {
    if s == "" || s[0] in stops then "" else [s[0]] + UpTo(s[1..], stops)
  }

  /** The version without its leading "v" and its build metadata. */
  function StripMeta(v: string): string
  {
    UpTo(TrimV(v), {'+'})
  }

  predicate IsPrerelease(v: string)
  {
    '-' in StripMeta(v)
  }

  datatype Cut = Cut(before: string, after: string, found: bool)

  /** strings.Cut at one character */
  function CutAt(s: string, c: char): Cut
  {
    if s == "" then Cut("", "", false)
    else if s[0] == c then Cut("", s[1..], true)
    else
      var rest := CutAt(s[1..], c);
      Cut([s[0]] + rest.before, rest.after, rest.found)
  }

  /** strings.TrimFunc of everything but digits */
  function TrimToDigits(s: string): string
    decreases |s|
  {
    if s == "" then ""
    else if !IsDigit(s[0]) then TrimToDigits(s[1..])
    else if !IsDigit(s[|s| - 1]) then TrimToDigits(s[..|s| - 1])
    else s
  }

  function LeadingDigits(s: string): string
  {
    if s == "" || !IsDigit(s[0]) then "" else [s[0]] + LeadingDigits(s[1..])
  }

  /** The number strconv.Atoi gives, with or without an error: the largest int
      for one that is too big, 0 for what is not a number. It reads from the
      front, so digits past 64 bits count before any later other character. */
  function Atoi(s: string): nat
  {
    var digits := LeadingDigits(s);
    if Value(digits, 10) >= TWO_64 then MAX_INT
    else if s == "" || digits != s then 0
    else if Value(s, 10) > MAX_INT then MAX_INT
    else Value(s, 10)
  }

  datatype Core = Core(major: nat, minor: nat, patch: nat)

  function Part(s: string): nat { Atoi(TrimToDigits(s)) }

  /** Up to three dot-separated numbers; the third part takes the rest. */
  function CoreOf(s: string): Core
  {
    var first := CutAt(s, '.');
    if !first.found then Core(Part(s), 0, 0)
    else
      var second := CutAt(first.after, '.');
      if !second.found then Core(Part(first.before), Part(first.after), 0)
      else Core(Part(first.before), Part(second.before), Part(second.after))
  }

  function Parts(v: string): Core
  {
    CoreOf(UpTo(TrimV(v), {'-', '+'}))
  }

  // ----- the comparison

  function StringCompare(a: string, b: string): int
  {
    if Less(a, b) then -1 else if Less(b, a) then 1 else 0
  }

  function CompareCores(a: Core, b: Core): int
  {
    if a.major != b.major then (if a.major < b.major then -1 else 1)
    else if a.minor != b.minor then (if a.minor < b.minor then -1 else 1)
    else if a.patch != b.patch then (if a.patch < b.patch then -1 else 1)
    else 0
  }

  function CompareVersions(a: string, b: string): int
  {
    var c := CompareCores(Parts(a), Parts(b));
    if c != 0 then c
    else if IsPrerelease(a) && !IsPrerelease(b) then -1
    else if !IsPrerelease(a) && IsPrerelease(b) then 1
    else StringCompare(StripMeta(a), StripMeta(b))
  }

  lemma {:induction false} UpToTwice(s: string, stops: set<char>, more: set<char>)
    ensures UpTo(UpTo(s, stops), more) == UpTo(s, stops + more)
  {
    if s != "" && s[0] !in stops {
      var u := UpTo(s, stops);
      assert u[1..] == UpTo(s[1..], stops);
      UpToTwice(s[1..], stops, more);
    }
  }

  /** The numbers, too, are read off the stripped version. */
  lemma PartsOfStripped(v: string)
    ensures Parts(v) == CoreOf(UpTo(StripMeta(v), {'-'}))
  {
    UpToTwice(TrimV(v), {'+'}, {'-'});
    assert {'+'} + {'-'} == {'-', '+'};
  }

  lemma StringCompareOrder(a: string, b: string, c: string)
    ensures StringCompare(a, b) == -StringCompare(b, a)
    ensures StringCompare(a, b) == 0 <==> a == b
    ensures StringCompare(a, b) <= 0 && StringCompare(b, c) <= 0 ==> StringCompare(a, c) <= 0
  {
    LessTrichotomy(a, b);
    LessTrichotomy(b, c);
    LessTrichotomy(a, c);
    if AtMost(a, b) && AtMost(b, c) { AtMostTransitive(a, b, c); }
  }

  /** A total preorder whose ties are exactly the versions that agree after
      dropping the leading "v" and the build metadata. */
  lemma CompareIsATotalPreorder(a: string, b: string, c: string)
    ensures CompareVersions(a, b) in {-1, 0, 1}
    ensures CompareVersions(a, b) == -CompareVersions(b, a)
    ensures CompareVersions(a, b) <= 0 && CompareVersions(b, c) <= 0 ==> CompareVersions(a, c) <= 0
    ensures CompareVersions(a, b) == 0 <==> StripMeta(a) == StripMeta(b)
  {
    hide CoreOf, StripMeta, Less, Parts;
    PartsOfStripped(a);
    PartsOfStripped(b);
    StringCompareOrder(StripMeta(a), StripMeta(b), StripMeta(c));
  }

  // ----- release versions compare as numbers

  lemma {:induction false} CutJoin(a: string, c: char, b: string)
    requires c !in a
    ensures CutAt(a + [c] + b, c) == Cut(a, b, true)
  {
    var s := a + [c] + b;
    if a != "" {
      assert s[1..] == a[1..] + [c] + b;
      CutJoin(a[1..], c, b);
    } else {
      assert s == [c] + b;
    }
  }

  lemma {:induction false} CutMissing(s: string, c: char)
    requires c !in s
    ensures CutAt(s, c) == Cut(s, "", false)
  {
    if s != "" { CutMissing(s[1..], c); }
  }

  lemma {:induction false} UpToPrefix(a: string, b: string, stops: set<char>)
    requires forall c :: c in a ==> c !in stops
    requires b == "" || b[0] in stops
    ensures UpTo(a + b, stops) == a
  {
    if a != "" {
      assert (a + b)[1..] == a[1..] + b;
      UpToPrefix(a[1..], b, stops);
    } else {
      assert a + b == b;
    }
  }

  /** One leading "v" and everything from the first "+" on do not count; what
      is left is a prerelease iff it has a dash. */
  lemma MetaDropped(text: string, meta: string)
    requires '+' !in text
    ensures StripMeta("v" + text) == StripMeta("v" + text + "+" + meta) == text
    ensures text == "" || text[0] != 'v' ==> StripMeta(text) == StripMeta(text + "+" + meta) == text
    ensures IsPrerelease("v" + text) <==> '-' in text
    ensures IsPrerelease("v" + text + "+" + meta) <==> '-' in text
  {
    var tail := "+" + meta;
    UpToPrefix(text, "", {'+'});
    UpToPrefix(text, tail, {'+'});
    assert text + "" == text && text + "+" + meta == text + tail;
    assert "v" + text + "+" + meta == "v" + (text + tail);
    assert ("v" + text)[1..] == text && ("v" + (text + tail))[1..] == text + tail;
    assert text != "" ==> (text + tail)[0] == text[0];
  }

  lemma {:induction false} AllLeading(s: string)
    requires forall c :: c in s ==> IsDigit(c)
    ensures LeadingDigits(s) == s
  {
    if s != "" { AllLeading(s[1..]); }
  }

  lemma NumeralIsDigits(n: nat)
    ensures Decimal(n) != "" && Value(Decimal(n), 10) == n && AllDigits(Decimal(n), 10)
    ensures forall c :: c in Decimal(n) ==> IsDigit(c)
    ensures IsDigit(Decimal(n)[0]) && IsDigit(Decimal(n)[|Decimal(n)| - 1])
  {
    NumeralRoundTrip(n, 10);
    var s := Decimal(n);
    forall c | c in s
      ensures IsDigit(c)
    {
      assert DigitValue(c) < 10;
    }
    assert s[0] in s && s[|s| - 1] in s;
  }

  /** A decimal numeral reads back as its number, if it fits an int. */
  lemma PartOfDecimal(n: nat)
    requires n <= MAX_INT
    ensures Part(Decimal(n)) == n
    ensures forall c :: c in Decimal(n) ==> IsDigit(c)
  {
    NumeralIsDigits(n);
    AllLeading(Decimal(n));
  }

  // ----- odd forms

  ghost predicate Digitless(s: string) { forall c :: c in s ==> !IsDigit(c) }

  /** Text that starts and ends with a digit is what is left of it between
      text without any. */
  lemma {:induction false} TrimAround(front: string, core: string, back: string)
    requires Digitless(front) && Digitless(back) && core != "" && IsDigit(core[0]) && IsDigit(core[|core| - 1])
    ensures TrimToDigits(front + core + back) == core
    decreases |front| + |back|
  {
    var s := front + core + back;
    if front != "" {
      assert front[0] in front;
      assert s[1..] == front[1..] + core + back;
      TrimAround(front[1..], core, back);
    } else if back != "" {
      assert back[|back| - 1] in back && s[0] == core[0] && s[|s| - 1] == back[|back| - 1];
      assert s[..|s| - 1] == core + back[..|back| - 1] == front + core + back[..|back| - 1];
      TrimAround(front, core, back[..|back| - 1]);
    } else {
      assert s == core;
    }
  }

  lemma {:induction false} TrimAll(s: string)
    requires Digitless(s)
    ensures TrimToDigits(s) == ""
  {
    if s != "" {
      assert s[0] in s;
      TrimAll(s[1..]);
    }
  }

  lemma {:induction false} LeadingUpTo(digits: string, rest: string)
    requires AllDigits(digits, 10) && rest != "" && !IsDigit(rest[0])
    ensures LeadingDigits(digits + rest) == digits
  {
    if digits != "" {
      assert DigitValue(digits[0]) < 10 && digits[0] in digits;
      assert (digits + rest)[1..] == digits[1..] + rest;
      LeadingUpTo(digits[1..], rest);
    } else {
      assert digits + rest == rest;
    }
  }

  lemma AtoiOfDecimal(n: nat)
    ensures Atoi(Decimal(n)) == if n < 0x8000_0000_0000_0000 then n else 0x7fff_ffff_ffff_ffff
  {
    NumeralIsDigits(n);
    hide Numeral, Value;
    AllLeading(Decimal(n));
  }

  lemma AtoiOfMixed(n: nat, rest: string)
    requires rest != "" && !IsDigit(rest[0])
    ensures Atoi(Decimal(n) + rest) == if n < 0x1_0000_0000_0000_0000 then 0 else 0x7fff_ffff_ffff_ffff
  {
    NumeralIsDigits(n);
    hide Numeral, Value;
    LeadingUpTo(Decimal(n), rest);
  }

  lemma PartOfNumber(front: string, n: nat, back: string)
    requires Digitless(front) && Digitless(back)
    ensures Part(front + Decimal(n) + back) == Atoi(Decimal(n))
  {
    NumeralIsDigits(n);
    TrimAround(front, Decimal(n), back);
  }

  lemma PartOfMixed(front: string, n: nat, odd: string, m: nat, back: string)
    requires Digitless(front) && Digitless(odd) && Digitless(back) && odd != ""
    ensures Part(front + (Decimal(n) + odd + Decimal(m)) + back) == Atoi(Decimal(n) + (odd + Decimal(m)))
  {
    NumeralIsDigits(n);
    NumeralIsDigits(m);
    hide Numeral, Value, Atoi, TrimToDigits, AllDigits;
    var x, y := Decimal(n), Decimal(m);
    var mixed := x + odd + y;
    assert mixed[0] == x[0] && mixed[|mixed| - 1] == y[|y| - 1];
    TrimAround(front, mixed, back);
    assert mixed == x + (odd + y);
  }

  /** A part is the number in it, whatever stands around the digits: the
      largest int for one too big, and 0 without one. Digits with something in
      between are no number, unless the first of them are already far too big. */
  lemma PartReads(front: string, n: nat, odd: string, m: nat, back: string)
    requires Digitless(front) && Digitless(odd) && Digitless(back) && odd != ""
    ensures Part(front) == 0
    ensures Part(front + Decimal(n) + back) == if n < 0x8000_0000_0000_0000 then n else 0x7fff_ffff_ffff_ffff
    ensures Part(front + (Decimal(n) + odd + Decimal(m)) + back) ==
      if n < 0x1_0000_0000_0000_0000 then 0 else 0x7fff_ffff_ffff_ffff
  {
    TrimAll(front);
    assert Atoi("") == 0;
    assert odd[0] in odd;
    PartOfNumber(front, n, back);
    AtoiOfDecimal(n);
    PartOfMixed(front, n, odd, m, back);
    AtoiOfMixed(n, odd + Decimal(m));
  }

  /** Missing parts are 0, and so is a third part that holds a fourth. */
  lemma ShortAndLongCores(x: nat, y: nat, z: nat, w: nat)
    requires x <= MAX_INT && y <= MAX_INT && z <= MAX_INT
    ensures CoreOf(Decimal(x)) == Core(x, 0, 0)
    ensures CoreOf(Decimal(x) + "." + Decimal(y)) == Core(x, y, 0)
    ensures CoreOf(Decimal(x) + "." + (Decimal(y) + "." + (Decimal(z) + "." + Decimal(w)))) == Core(x, y, 0)
  {
    PartOfDecimal(x);
    PartOfDecimal(y);
    PartReads("", z, ".", w, "");
    var a, b, c, d := Decimal(x), Decimal(y), Decimal(z), Decimal(w);
    assert '.' !in a && '.' !in b;
    assert "" + (c + "." + d) + "" == c + "." + d;
    hide Decimal, Part, CutAt;
    CutMissing(a, '.');
    CutMissing(b, '.');
    CutJoin(a, '.', b);
    CutJoin(a, '.', b + "." + (c + "." + d));
    CutJoin(b, '.', c + "." + d);
  }

  /** MAJOR.MINOR.PATCH */
  function ReleaseCore(v: Core): string
  {
    Decimal(v.major) + "." + (Decimal(v.minor) + "." + Decimal(v.patch))
  }

  predicate Fits(v: Core)
  {
    v.major <= MAX_INT && v.minor <= MAX_INT && v.patch <= MAX_INT
  }

  lemma CoreRoundTrip(v: Core)
    requires Fits(v)
    ensures CoreOf(ReleaseCore(v)) == v
    ensures forall c :: c in ReleaseCore(v) ==> IsDigit(c) || c == '.'
    ensures ReleaseCore(v) != "" && ReleaseCore(v)[0] != 'v'
  {
    hide Part, Numeral;
    var x, y, z := Decimal(v.major), Decimal(v.minor), Decimal(v.patch);
    PartOfDecimal(v.major);
    PartOfDecimal(v.minor);
    PartOfDecimal(v.patch);
    assert '.' !in x && '.' !in y;
    assert x + "." + (y + "." + z) == x + ['.'] + (y + ['.'] + z);
    CutJoin(x, '.', y + ['.'] + z);
    CutJoin(y, '.', z);
    assert x[0] in x && ReleaseCore(v)[0] == x[0];
  }

  /** How a version may be written: with or without a leading "v", and with a
      suffix that starts a prerelease ("-") or build metadata ("+"). */
  ghost predicate Written(text: string, v: Core, suffix: string)
  {
    && (suffix == "" || suffix[0] == '-' || suffix[0] == '+')
    && (text == ReleaseCore(v) + suffix || text == "v" + (ReleaseCore(v) + suffix))
  }

  lemma ReadWritten(text: string, v: Core, suffix: string)
    requires Fits(v) && Written(text, v, suffix)
    ensures Parts(text) == v
    ensures suffix == "" || suffix[0] == '+' ==> !IsPrerelease(text) && StripMeta(text) == ReleaseCore(v)
    ensures suffix != "" && suffix[0] == '-' ==> IsPrerelease(text)
  {
    CoreRoundTrip(v);
    var core := ReleaseCore(v);
    assert core + suffix != "" && (core + suffix)[0] == core[0];
    assert TrimV(text) == core + suffix;
    UpToPrefix(core, suffix, {'-', '+'});
    if suffix == "" || suffix[0] == '+' {
      UpToPrefix(core, suffix, {'+'});
    } else {
      DashKept(core, suffix);
    }
  }

  lemma {:induction false} DashKept(core: string, suffix: string)
    requires suffix != "" && suffix[0] == '-' && '+' !in core
    ensures '-' in UpTo(core + suffix, {'+'})
  {
    var s := core + suffix;
    if core != "" {
      assert s[1..] == core[1..] + suffix;
      DashKept(core[1..], suffix);
    } else {
      assert s == suffix;
      assert UpTo(s, {'+'})[0] == '-';
    }
  }

  /** Releases are ordered by their numbers, however they are written, and a
      prerelease comes right before its release. */
  lemma ReleasesCompareAsNumbers(a: string, v: Core, s: string, b: string, w: Core, t: string)
    requires Fits(v) && Fits(w) && Written(a, v, s) && Written(b, w, t)
    ensures v != w ==> CompareVersions(a, b) == CompareCores(v, w) && CompareCores(v, w) != 0
    ensures v == w && (s == "" || s[0] == '+') && (t == "" || t[0] == '+') ==> CompareVersions(a, b) == 0
    ensures v == w && (s != "" && s[0] == '-') && (t == "" || t[0] == '+') ==> CompareVersions(a, b) == -1
  {
    ReadWritten(a, v, s);
    ReadWritten(b, w, t);
    LessTrichotomy(StripMeta(a), StripMeta(b));
  }

  lemma {:induction false} LessAfterPrefix(p: string, x: string, y: string)
    ensures Less(p + x, p + y) == Less(x, y)
  {
    if p == "" {
      assert p + x == x && p + y == y;
    } else {
      assert (p + x)[1..] == p[1..] + x && (p + y)[1..] == p[1..] + y;
      LessAfterPrefix(p[1..], x, y);
    }
  }

  lemma ReadPrerelease(v: Core, x: string)
    requires Fits(v) && '+' !in x
    ensures var a := ReleaseCore(v) + "-" + x;
      Parts(a) == v && IsPrerelease(a) && StripMeta(a) == a
  {
    var core := ReleaseCore(v);
    var a := core + "-" + x;
    CoreRoundTrip(v);
    hide ReleaseCore, Parts, StripMeta, IsPrerelease;
    assert a == core + ("-" + x);
    ReadWritten(a, v, "-" + x);
    assert '+' !in core;
    MetaDropped(a, "");
  }

  /** Prereleases of one core compare as text, suffix against suffix. */
  lemma PrereleasesCompareAsText(v: Core, x: string, y: string)
    requires Fits(v) && '+' !in x && '+' !in y
    ensures CompareVersions(ReleaseCore(v) + "-" + x, ReleaseCore(v) + "-" + y) == StringCompare(x, y)
  {
    hide Parts, IsPrerelease, StripMeta, ReleaseCore;
    ReadPrerelease(v, x);
    ReadPrerelease(v, y);
    LessAfterPrefix(ReleaseCore(v) + "-", x, y);
    LessAfterPrefix(ReleaseCore(v) + "-", y, x);
  }
}
