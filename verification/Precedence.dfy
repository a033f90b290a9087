/** The precedence of prereleases in Semantic Versioning 2.0.0 (items 9 and
    11), and when comparing versions as text agrees with it. */
module Precedence {
  import opened Numerals
  import opened Strings
  import opened Versions

  // ----- the standard's order

  predicate IsNumeric(id: string)
  {
    forall c | c in id :: IsDigit(c)
  }

  predicate IsIdentifierChar(c: char)
  {
    IsDigit(c) || c == '-' || 'A' <= c <= 'Z' || 'a' <= c <= 'z'
  }

  /** Not empty, no other characters, and no leading zero in a number. */
  predicate Valid(id: string)
  {
    && id != "" && (forall c | c in id :: IsIdentifierChar(c))
    && (IsNumeric(id) && |id| > 1 ==> id[0] != '0')
  }

  predicate AllValid(ids: seq<string>)
  {
    forall id | id in ids :: Valid(id)
  }

  /** Numbers by value and below anything else, the rest as text. */
  function CompareIdentifiers(a: string, b: string): int
  {
    if IsNumeric(a) && IsNumeric(b) then
      if Value(a, 10) < Value(b, 10) then -1 else if Value(a, 10) > Value(b, 10) then 1 else 0
    else if IsNumeric(a) then -1
    else if IsNumeric(b) then 1
    else StringCompare(a, b)
  }

  /** Identifier by identifier; of two lists alike as far as they go the
      shorter comes first. */
  function ComparePrereleases(xs: seq<string>, ys: seq<string>): int
  {
    if xs == [] then (if ys == [] then 0 else -1)
    else if ys == [] then 1
    else
      var c := CompareIdentifiers(xs[0], ys[0]);
      if c != 0 then c else ComparePrereleases(xs[1..], ys[1..])
  }

  /** The identifiers as they are written, with dots between them. */
  function Dotted(ids: seq<string>): string
    decreases ids, 1
  {
    if ids == [] then "" else ids[0] + More(ids)
  }

  /** What follows the first identifier. */
  function More(ids: seq<string>): string
    requires ids != []
    decreases ids, 0
  {
    if |ids| == 1 then "" else "." + Dotted(ids[1..])
  }

  // ----- numbers as text

  function Pow10(n: nat): nat
  {
    if n == 0 then 1 else 10 * Pow10(n - 1)
  }

  lemma {:induction false} ValueBelow(s: string)
    requires IsNumeric(s)
    ensures Value(s, 10) < Pow10(|s|)
  {
    if s != "" {
      assert s[|s| - 1] in s;
      ValueBelow(s[..|s| - 1]);
    }
  }

  lemma {:induction false} ValueAbove(s: string)
    requires s != "" && IsNumeric(s) && s[0] != '0'
    ensures Value(s, 10) >= Pow10(|s| - 1)
  {
    if |s| > 1 {
      ValueAbove(s[..|s| - 1]);
    } else {
      assert Value(s, 10) == Value("", 10) * 10 + DigitValue(s[0]);
    }
  }

  lemma {:induction false} PowGrows(n: nat, m: nat)
    requires n <= m
    ensures Pow10(n) <= Pow10(m)
  {
    if n < m { PowGrows(n, m - 1); }
  }

  lemma {:induction false} LessSnoc(a: string, c: char, b: string, d: char)
    requires |a| == |b|
    ensures Less(a + [c], b + [d]) <==> Less(a, b) || (a == b && c < d)
  {
    if a == "" {
      assert a + [c] == [c] && b + [d] == [d] && [c][1..] == [d][1..] == "";
    } else {
      assert (a + [c])[1..] == a[1..] + [c] && (b + [d])[1..] == b[1..] + [d];
      LessSnoc(a[1..], c, b[1..], d);
      assert a == [a[0]] + a[1..] && b == [b[0]] + b[1..];
    }
  }

  lemma {:induction false} SameLengthOrder(a: string, b: string)
    requires |a| == |b| && IsNumeric(a) && IsNumeric(b)
    ensures Less(a, b) <==> Value(a, 10) < Value(b, 10)
    ensures a == b <==> Value(a, 10) == Value(b, 10)
  {
    hide Less;
    if a != "" {
      var n := |a| - 1;
      SameLengthOrder(a[..n], b[..n]);
      assert a == a[..n] + [a[n]] && b == b[..n] + [b[n]];
      assert a[n] in a && b[n] in b;
      LessSnoc(a[..n], a[n], b[..n], b[n]);
    } else {
      LessTrichotomy(a, b);
    }
  }

  /** Numbers without leading zeros: the longer is the larger, and of the same
      length the text decides. */
  lemma NumericOrder(a: string, b: string)
    requires Valid(a) && Valid(b) && IsNumeric(a) && IsNumeric(b)
    ensures CompareIdentifiers(a, b) == if |a| < |b| then -1 else if |a| > |b| then 1 else StringCompare(a, b)
  {
    if |a| < |b| {
      ShorterIsSmaller(a, b);
    } else if |b| < |a| {
      ShorterIsSmaller(b, a);
    } else {
      SameLengthOrder(a, b);
      SameLengthOrder(b, a);
    }
  }

  lemma ShorterIsSmaller(a: string, b: string)
    requires IsNumeric(a) && IsNumeric(b) && |a| < |b| && b[0] != '0'
    ensures Value(a, 10) < Value(b, 10)
  {
    ValueBelow(a);
    ValueAbove(b);
    PowGrows(|a|, |b| - 1);
  }

  lemma SameIdentifier(a: string, b: string)
    requires Valid(a) && Valid(b)
    ensures CompareIdentifiers(a, b) == 0 <==> a == b
    ensures CompareIdentifiers(a, b) in {-1, 0, 1}
  {
    hide Valid;
    LessTrichotomy(a, b);
    if IsNumeric(a) && IsNumeric(b) { NumericOrder(a, b); }
  }

  // ----- where text and the standard agree

  /** b goes on with a dash just where a ends and its version goes on with a
      dot: the one case where a comes after what it is a prefix of. */
  predicate DashAtDot(a: string, more: bool, b: string)
  {
    more && |a| < |b| && b[..|a|] == a && b[|a|] == '-'
  }

  /** As text, a with what follows comes before b with what follows. */
  predicate TextFirst(a: string, moreA: bool, b: string, moreB: bool)
  {
    if DashAtDot(a, moreA, b) then false
    else if DashAtDot(b, moreB, a) then true
    else Less(a, b)
  }

  /** For the first two identifiers that differ: numbers of one length, or the
      shorter first as text; a number first as text; two others without a dash
      against a dot. */
  predicate TextAgrees(a: string, moreA: bool, b: string, moreB: bool)
  {
    if IsNumeric(a) && IsNumeric(b) then |a| == |b| || (|a| < |b| <==> Less(a, b))
    else if IsNumeric(a) then TextFirst(a, moreA, b, moreB)
    else if IsNumeric(b) then TextFirst(b, moreB, a, moreA)
    else !DashAtDot(a, moreA, b) && !DashAtDot(b, moreB, a)
  }

  /** TextAgrees at the first difference, if there is one in both lists. */
  predicate AgreeAtDifference(xs: seq<string>, ys: seq<string>)
  {
    if xs == [] || ys == [] then true
    else if xs[0] == ys[0] then AgreeAtDifference(xs[1..], ys[1..])
    else TextAgrees(xs[0], |xs| > 1, ys[0], |ys| > 1)
  }

  predicate Tail(rest: string, more: bool)
  {
    if more then rest != "" && rest[0] == '.' else rest == ""
  }

  /** The texts of two lists that differ in their first identifiers. */
  lemma {:induction false} TextOrder(a: string, moreA: bool, restA: string, b: string, moreB: bool, restB: string)
    requires a != b && Tail(restA, moreA) && Tail(restB, moreB)
    requires forall c :: c in a || c in b ==> IsIdentifierChar(c)
    ensures Less(a + restA, b + restB) <==> TextFirst(a, moreA, b, moreB)
  {
    if a == "" {
      assert a + restA == restA && (b + restB)[0] == b[0] && b[0] in b;
    } else if b == "" {
      assert b + restB == restB && (a + restA)[0] == a[0] && a[0] in a;
    } else {
      assert (a + restA)[1..] == a[1..] + restA && (b + restB)[1..] == b[1..] + restB;
      if a[0] == b[0] {
        assert a == [a[0]] + a[1..] && b == [b[0]] + b[1..];
        TextOrder(a[1..], moreA, restA, b[1..], moreB, restB);
        DashFurther(a, moreA, b);
        DashFurther(b, moreB, a);
      }
    }
  }

  lemma DashFurther(a: string, more: bool, b: string)
    requires a != "" && b != "" && a[0] == b[0]
    ensures DashAtDot(a, more, b) <==> DashAtDot(a[1..], more, b[1..])
  {
    if |a| < |b| {
      assert b[..|a|] == [b[0]] + b[1..][..|a| - 1] && a == [a[0]] + a[1..];
    }
  }

  /** At the first difference the two orders agree under TextAgrees only. */
  lemma AgreeHere(xs: seq<string>, ys: seq<string>)
    requires xs != [] && ys != [] && AllValid(xs) && AllValid(ys) && xs[0] != ys[0]
    ensures StringCompare(Dotted(xs), Dotted(ys)) == ComparePrereleases(xs, ys)
      <==> TextAgrees(xs[0], |xs| > 1, ys[0], |ys| > 1)
  {
    hide Less, Valid, DashAtDot;
    var a, b, moreA, moreB := xs[0], ys[0], |xs| > 1, |ys| > 1;
    assert Valid(a) && Valid(b);
    ValidChars(a);
    ValidChars(b);
    TextOrder(a, moreA, More(xs), b, moreB, More(ys));
    TextOrder(b, moreB, More(ys), a, moreA, More(xs));
    SameIdentifier(a, b);
    LessTrichotomy(a, b);
    DashOneWay(a, moreA, b, moreB);
    if IsNumeric(a) && IsNumeric(b) {
      NumericOrder(a, b);
      NoDash(a, moreA, b);
      NoDash(b, moreB, a);
    } else if IsNumeric(a) {
      NoDash(b, moreB, a);
    } else if IsNumeric(b) {
      NoDash(a, moreA, b);
    }
  }

  lemma ValidChars(id: string)
    requires Valid(id)
    ensures forall c :: c in id ==> IsIdentifierChar(c)
  {}

  lemma NoDash(a: string, more: bool, b: string)
    requires IsNumeric(b)
    ensures !DashAtDot(a, more, b)
  {
    assert '-' !in b;
  }

  /** A dash at a dot turns the text order round, one way at most. */
  lemma DashOneWay(a: string, moreA: bool, b: string, moreB: bool)
    ensures !(DashAtDot(a, moreA, b) && DashAtDot(b, moreB, a))
    ensures DashAtDot(a, moreA, b) ==> Less(a, b)
    ensures DashAtDot(b, moreB, a) ==> Less(b, a)
  {
    if DashAtDot(a, moreA, b) { PrefixIsLess(a, b); }
    if DashAtDot(b, moreB, a) { PrefixIsLess(b, a); }
  }

  lemma {:induction false} PrefixIsLess(a: string, b: string)
    requires |a| < |b| && b[..|a|] == a
    ensures Less(a, b)
  {
    if a != "" {
      assert b[0] == b[..|a|][0] && b[1..][..|a| - 1] == b[..|a|][1..];
      PrefixIsLess(a[1..], b[1..]);
    }
  }

  /** Text order is the standard's order exactly when it agrees at the first
      identifiers that differ. */
  lemma {:induction false} TextAgreesIff(xs: seq<string>, ys: seq<string>)
    requires xs != [] && ys != [] && AllValid(xs) && AllValid(ys)
    ensures StringCompare(Dotted(xs), Dotted(ys)) == ComparePrereleases(xs, ys) <==> AgreeAtDifference(xs, ys)
  {
    hide Less, Valid, TextAgrees;
    if xs[0] != ys[0] {
      AgreeHere(xs, ys);
    } else {
      SameIdentifier(xs[0], ys[0]);
      LessAfterPrefix(xs[0], More(xs), More(ys));
      LessAfterPrefix(xs[0], More(ys), More(xs));
      if |xs| > 1 && |ys| > 1 {
        TextAgreesIff(xs[1..], ys[1..]);
        LessAfterPrefix(".", Dotted(xs[1..]), Dotted(ys[1..]));
        LessAfterPrefix(".", Dotted(ys[1..]), Dotted(xs[1..]));
      } else {
        OneEnds(xs, ys);
      }
    }
  }

  lemma OneEnds(xs: seq<string>, ys: seq<string>)
    requires xs != [] && ys != [] && (|xs| == 1 || |ys| == 1)
    ensures StringCompare(More(xs), More(ys)) == ComparePrereleases(xs[1..], ys[1..])
  {}

  lemma {:induction false} DottedHasNoPlus(ids: seq<string>)
    requires AllValid(ids)
    ensures '+' !in Dotted(ids)
  {
    if ids != [] {
      ValidChars(ids[0]);
      DottedHasNoPlus(ids[1..]);
    }
  }

  /** CompareVersions follows item 11 on two prereleases of one core exactly
      when the text agrees at the first difference. */
  lemma FollowsPrecedenceIff(v: Core, xs: seq<string>, ys: seq<string>)
    requires Fits(v) && xs != [] && ys != [] && AllValid(xs) && AllValid(ys)
    ensures CompareVersions(ReleaseCore(v) + "-" + Dotted(xs), ReleaseCore(v) + "-" + Dotted(ys)) ==
      ComparePrereleases(xs, ys)
      <==> AgreeAtDifference(xs, ys)
  {
    hide CompareVersions, StringCompare, Dotted, ComparePrereleases, AgreeAtDifference;
    DottedHasNoPlus(xs);
    DottedHasNoPlus(ys);
    PrereleasesCompareAsText(v, Dotted(xs), Dotted(ys));
    TextAgreesIff(xs, ys);
  }

  /** The tenth release candidate is taken for older than the ninth. */
  lemma TenBeforeNine(v: Core)
    requires Fits(v)
    ensures ComparePrereleases(["rc", "10"], ["rc", "9"]) == 1
    ensures CompareVersions(ReleaseCore(v) + "-" + "rc.10", ReleaseCore(v) + "-" + "rc.9") == -1
  {
    hide CompareVersions, ReleaseCore;
    PrereleasesCompareAsText(v, "rc.10", "rc.9");
    LessAfterPrefix("rc.", "10", "9");
    LessAfterPrefix("rc.", "9", "10");
    assert "rc." + "10" == "rc.10" && "rc." + "9" == "rc.9";
    NumericOrder("10", "9");
  }
}
