/** How the pattern table uses the prefilter: skipping a regular expression
    never changes the answer, and the concatenation rule keeps the most
    selective set on offer. */
module PrefilterUse {
  import opened Strings
  import opened Regexp
  import opened Prefilter
  import opened PrefilterSoundness

  // ----- the klog header scan

  predicate MarkAt(line: string, sev: char, i: nat)
  {
    && i + 5 < |line| && line[i] == sev && !(i > 0 && IsWord(line[i - 1]))
    && IsDigit(line[i + 1]) && IsDigit(line[i + 2]) && IsDigit(line[i + 3]) && IsDigit(line[i + 4])
    && line[i + 5] == ' '
  }

  /** Where the first header of severity sev starts, or -1. */
  method KlogIndex(line: string, sev: char) returns (at: int)
    ensures at >= 0 ==> MarkAt(line, sev, at) && forall k: nat :: k < at ==> !MarkAt(line, sev, k)
    ensures at < 0 ==> at == -1 && forall k: nat :: !MarkAt(line, sev, k)
  {
    var i := 0;
    while i + 5 < |line|
      invariant i >= 0
      invariant forall k: nat :: k < i ==> !MarkAt(line, sev, k)
    {
      if line[i] != sev || (i > 0 && IsWord(line[i - 1])) {
        i := i + 1;
        continue;
      }
      if IsDigit(line[i + 1]) && IsDigit(line[i + 2]) && IsDigit(line[i + 3]) && IsDigit(line[i + 4])
        && line[i + 5] == ' ' {
        return i;
      }
      i := i + 1;
    }
    return -1;
  }

  const DIGITS := CharClass({'0', '1', '2', '3', '4', '5', '6', '7', '8', '9'})

  /** re is \b<sev>[0-9]{4}<space>, with the repetition spelled out. */
  predicate IsKlogRe(re: Re, sev: char)
  {
    && re.Concat? && |re.subs| == 4
    && re.subs[0] == WordBoundary && re.subs[1] == Literal([sev], false) && re.subs[3] == Literal(" ", false)
    && re.subs[2].Concat? && |re.subs[2].subs| == 4
    && forall k :: 0 <= k < 4 ==> re.subs[2].subs[k] == DIGITS
  }

  ghost predicate HasWidth(re: Re, t: string, w: nat)
  {
    forall i: nat, j: nat :: i <= j <= |t| && Match(re, t, i, j) ==> j == i + w
  }

  lemma FixedWidthFirst(re: Re, rest: seq<Re>, t: string, w: nat, i: nat, j: nat)
    requires i <= j <= |t| && HasWidth(re, t, w)
    ensures MatchSeq([re] + rest, t, i, j) <==>
      i + w <= j && Match(re, t, i, i + w) && MatchSeq(rest, t, i + w, j)
  {
    assert ([re] + rest)[1..] == rest;
  }

  lemma {:induction false} DigitRun(ds: seq<Re>, t: string, i: nat, j: nat)
    requires i <= j <= |t| && forall k :: 0 <= k < |ds| ==> ds[k] == DIGITS
    ensures MatchSeq(ds, t, i, j) <==> j == i + |ds| && forall k :: i <= k < j ==> IsDigit(t[k])
  {
    if ds != [] {
      assert ds == [DIGITS] + ds[1..];
      FixedWidthFirst(DIGITS, ds[1..], t, 1, i, j);
      if i < j { DigitRun(ds[1..], t, i + 1, j); }
    }
  }

  lemma TwoParts(c: Re, d: Re, n: nat, t: string, i: nat, j: nat)
    requires i <= j <= |t| && HasWidth(c, t, n) && HasWidth(d, t, 1)
    ensures MatchSeq([c, d], t, i, j) <==> j == i + n + 1 && Match(c, t, i, i + n) && Match(d, t, i + n, j)
  {
    hide Match;
    assert [c, d] == [c] + [d] && [d] == [d] + [];
    FixedWidthFirst(c, [d], t, n, i, j);
    if i + n <= j { FixedWidthFirst(d, [], t, 1, i + n, j); }
  }

  lemma ThreeParts(b: Re, c: Re, d: Re, n: nat, t: string, i: nat, j: nat)
    requires i <= j <= |t| && HasWidth(b, t, 1) && HasWidth(c, t, n) && HasWidth(d, t, 1)
    ensures MatchSeq([b, c, d], t, i, j) <==>
      j == i + n + 2 && Match(b, t, i, i + 1) && Match(c, t, i + 1, i + 1 + n) && Match(d, t, i + 1 + n, j)
  {
    hide Match, MatchSeq;
    assert [b, c, d] == [b] + [c, d];
    FixedWidthFirst(b, [c, d], t, 1, i, j);
    if i + 1 <= j { TwoParts(c, d, n, t, i + 1, j); }
  }

  lemma FourParts(a: Re, b: Re, c: Re, d: Re, n: nat, t: string, i: nat, j: nat)
    requires i <= j <= |t|
    requires HasWidth(a, t, 0) && HasWidth(b, t, 1) && HasWidth(c, t, n) && HasWidth(d, t, 1)
    ensures MatchSeq([a, b, c, d], t, i, j) <==>
      && j == i + n + 2 && Match(a, t, i, i) && Match(b, t, i, i + 1)
      && Match(c, t, i + 1, i + 1 + n) && Match(d, t, i + 1 + n, j)
  {
    hide Match, MatchSeq;
    assert [a, b, c, d] == [a] + [b, c, d];
    FixedWidthFirst(a, [b, c, d], t, 0, i, j);
    ThreeParts(b, c, d, n, t, i, j);
  }

  lemma KlogReMeaning(re: Re, sev: char, t: string, i: nat, j: nat)
    requires i <= j <= |t| && IsKlogRe(re, sev)
    ensures Match(re, t, i, j) <==>
      && j == i + 6 && t[i] == sev && AtBoundary(t, i)
      && t[i + 5] == ' ' && forall k :: i < k < i + 5 ==> IsDigit(t[k])
  {
    var digits := re.subs[2];
    forall a: nat, b: nat | a <= b <= |t|
      ensures Match(digits, t, a, b) <==> b == a + 4 && forall k :: a <= k < b ==> IsDigit(t[k])
    {
      DigitRun(digits.subs, t, a, b);
    }
    hide MatchSeq;
    assert re.subs == [re.subs[0], re.subs[1], digits, re.subs[3]];
    FourParts(re.subs[0], re.subs[1], digits, re.subs[3], 4, t, i, j);
  }

  lemma MarkIsMatch(re: Re, sev: char, t: string, i: nat)
    requires IsWord(sev) && IsKlogRe(re, sev)
    ensures MarkAt(t, sev, i) <==> i + 6 <= |t| && Match(re, t, i, i + 6)
  {
    hide Match;
    if i + 6 <= |t| { KlogReMeaning(re, sev, t, i, i + 6); }
  }

  /** The scan and the expression agree on every line just when the severity
      is a word character (before any other, \b asks for the opposite). */
  lemma ScanIsTheExpression(re: Re, sev: char)
    requires IsKlogRe(re, sev)
    ensures (forall t: string, i: nat :: MarkAt(t, sev, i) <==> i + 6 <= |t| && Match(re, t, i, i + 6)) <==> IsWord(sev)
  {
    hide Match;
    if IsWord(sev) {
      forall t: string, i: nat
        ensures MarkAt(t, sev, i) <==> i + 6 <= |t| && Match(re, t, i, i + 6)
      {
        MarkIsMatch(re, sev, t, i);
      }
    } else {
      var t := [sev, '0', '0', '0', '0', ' '];
      KlogReMeaning(re, sev, t, 0, 6);
      assert MarkAt(t, sev, 0) && !Match(re, t, 0, 0 + 6);
    }
  }

  // ----- the pattern table

  /** The hand-written necessary condition some patterns carry. */
  datatype Pre = NoPre | ErrorMarks | WarnMarks

  datatype Pattern = Pattern(name: string, re: Re, need: Slice, pre: Pre)

  function PreFor(name: string): Pre
  {
    if name == "generic-error" then ErrorMarks
    else if name == "generic-warn" then WarnMarks
    else NoPre
  }

  /** re is level=error|\bE[0-9]{4} |error= */
  predicate IsGenericError(re: Re)
  {
    && re.Alternate? && |re.subs| == 3
    && re.subs[0] == Literal("level=error", false) && IsKlogRe(re.subs[1], 'E')
    && re.subs[2] == Literal("error=", false)
  }

  /** re is level=warn(ing)?|\bW[0-9]{4}<space> */
  predicate IsGenericWarn(re: Re)
  {
    && re.Alternate? && |re.subs| == 2 && IsKlogRe(re.subs[1], 'W')
    && re.subs[0].Concat? && |re.subs[0].subs| == 2
    && re.subs[0].subs[0] == Literal("level=warn", false) && re.subs[0].subs[1] == Quest(Capture(Literal("ing", false)))
  }

  /** The catch-all names are bound to the catch-all expressions. */
  predicate Declared(p: Pattern)
  {
    && (p.name == "generic-error" ==> IsGenericError(p.re))
    && (p.name == "generic-warn" ==> IsGenericWarn(p.re))
  }

  predicate Ready(p: Pattern)
  {
    Declared(p) && p.need == NeedLiterals(p.re) && p.pre == PreFor(p.name)
  }

  /** Start-up fills in the derived fields of every table entry in place. */
  method Init(patterns: array<Pattern>)
    requires forall i :: 0 <= i < patterns.Length ==> Declared(patterns[i])
    modifies patterns
    ensures forall i :: 0 <= i < patterns.Length ==>
      && Ready(patterns[i])
      && patterns[i].name == old(patterns[i].name) && patterns[i].re == old(patterns[i].re)
  {
    for i := 0 to patterns.Length
      invariant forall k :: i <= k < patterns.Length ==> patterns[k] == old(patterns[k])
      invariant forall k :: 0 <= k < i ==>
        && Ready(patterns[k])
        && patterns[k].name == old(patterns[k].name) && patterns[k].re == old(patterns[k].re)
    {
      var p := patterns[i];
      var c := ComputeLiterals(p.re);
      var need := NeedOf(c);
      if need.Of? {
        var tooShort := false;
        for k := 0 to |need.elems|
          invariant tooShort <==> exists s :: s in need.elems[..k] && |s| < MIN_NEED
        {
          assert need.elems[..k + 1] == need.elems[..k] + [need.elems[k]];
          if |need.elems[k]| < MIN_NEED {
            tooShort := true;
            assert need.elems[k] in need.elems[..k + 1];
          }
        }
        assert need.elems[..|need.elems|] == need.elems;
        if tooShort { need := Nil; }
      }
      patterns[i] := Pattern(p.name, p.re, need, PreFor(p.name));
    }
  }

  ghost predicate HasMark(line: string, sev: char)
  {
    exists i: nat :: MarkAt(line, sev, i)
  }

  method PrePasses(pre: Pre, line: string, lower: string) returns (ok: bool)
    ensures ok <==> PreHolds(pre, line, lower)
  {
    match pre
    case NoPre => ok := true;
    case ErrorMarks =>
      var at := KlogIndex(line, 'E');
      ok := Contains(lower, "level=error") || Contains(lower, "error=") || at >= 0;
    case WarnMarks =>
      var at := KlogIndex(line, 'W');
      ok := Contains(lower, "level=warn") || at >= 0;
  }

  ghost predicate PreHolds(pre: Pre, line: string, lower: string)
  {
    match pre
    case NoPre => true
    case ErrorMarks => Contains(lower, "level=error") || Contains(lower, "error=") || HasMark(line, 'E')
    case WarnMarks => Contains(lower, "level=warn") || HasMark(line, 'W')
  }

  predicate ContainsAny(lower: string, lits: seq<string>)
  {
    exists s | s in lits :: Contains(lower, s)
  }

  method AnyHit(lower: string, need: seq<string>) returns (hit: bool)
    ensures hit <==> ContainsAny(lower, need)
  {
    for k := 0 to |need|
      invariant !ContainsAny(lower, need[..k])
    {
      assert need[..k + 1] == need[..k] + [need[k]];
      if Contains(lower, need[k]) {
        assert need[k] in need;
        return true;
      }
    }
    assert need[..|need|] == need;
    return false;
  }

  /** pattern p lets the line through to its expression. */
  ghost predicate Passes(p: Pattern, line: string, lower: string)
  {
    if p.pre != NoPre then PreHolds(p.pre, line, lower)
    else p.need.Of? ==> ContainsAny(lower, p.need.elems)
  }

  lemma WithinIsContained(low: string, lits: seq<string>)
    requires Hits(low, lits, 0, |low|)
    ensures ContainsAny(low, lits)
  {
    var s :| s in lits && Within(low, s, 0, |low|);
    var p: nat :| p + |s| <= |low| && OccursAt(low, s, p);
    assert p <= |low| && Contains(low, s);
  }

  lemma LiteralMatchContained(runes: string, t: string, i: nat, j: nat)
    requires i <= j <= |t| && Match(Literal(runes, false), t, i, j)
    ensures Contains(Lower(t), Lower(runes))
  {
    LowerSlice(t, i, j);
    assert OccursAt(Lower(t), Lower(runes), i);
  }

  /** The literals are necessary for a match. */
  lemma NeedIsNecessary(re: Re, line: string)
    requires Search(re, line) && NeedLiterals(re).Of?
    ensures ContainsAny(Lower(line), NeedLiterals(re).elems)
  {
    var i: nat, j: nat :| i <= j <= |line| && Match(re, line, i, j);
    LiteralsSound(re, line, i, j);
    NeedOfSound(Literals(re), Lower(line), i, j);
    var need := NeedLiterals(re).elems;
    HitsWider(Lower(line), need, i, j, 0, |line|);
    WithinIsContained(Lower(line), need);
  }

  lemma KlogMatchIsMark(re: Re, sev: char, t: string, i: nat, j: nat)
    requires i <= j <= |t| && IsWord(sev) && IsKlogRe(re, sev) && Match(re, t, i, j)
    ensures HasMark(t, sev)
  {
    hide Match;
    KlogReMeaning(re, sev, t, i, j);
    MarkIsMatch(re, sev, t, i);
  }

  lemma MarksAreLower()
    ensures Lower("level=error") == "level=error"
    ensures Lower("error=") == "error="
    ensures Lower("level=warn") == "level=warn"
  {}

  lemma ErrorIsMarked(re: Re, line: string)
    requires IsGenericError(re) && Search(re, line)
    ensures PreHolds(ErrorMarks, line, Lower(line))
  {
    hide Match;
    var i, j, k := SomeBranch(re.subs, line);
    MarksAreLower();
    if k == 0 {
      LiteralMatchContained("level=error", line, i, j);
    } else if k == 1 {
      KlogMatchIsMark(re.subs[k], 'E', line, i, j);
    } else {
      LiteralMatchContained("error=", line, i, j);
    }
  }

  lemma WarnIsMarked(re: Re, line: string)
    requires IsGenericWarn(re) && Search(re, line)
    ensures PreHolds(WarnMarks, line, Lower(line))
  {
    var i, j, k := SomeBranch(re.subs, line);
    MarksAreLower();
    if k == 0 {
      FirstPartMatches(re.subs[k].subs, line, i, j, "level=warn");
    } else {
      KlogMatchIsMark(re.subs[k], 'W', line, i, j);
    }
  }

  lemma SomeBranch(subs: seq<Re>, t: string) returns (i: nat, j: nat, k: nat)
    requires Search(Alternate(subs), t)
    ensures i <= j <= |t| && k < |subs| && Match(subs[k], t, i, j)
  {
    i, j :| i <= j <= |t| && Match(Alternate(subs), t, i, j);
    k :| 0 <= k < |subs| && Match(subs[k], t, i, j);
  }

  lemma FirstPartMatches(parts: seq<Re>, t: string, i: nat, j: nat, runes: string)
    requires i <= j <= |t| && parts != [] && parts[0] == Literal(runes, false) && MatchSeq(parts, t, i, j)
    ensures Contains(Lower(t), Lower(runes))
  {
    var m: nat :| i <= m <= j && Match(parts[0], t, i, m) && MatchSeq(parts[1..], t, m, j);
    LiteralMatchContained(runes, t, i, m);
  }

  /** The hand-written conditions are necessary for a match too. */
  lemma PreIsNecessary(p: Pattern, line: string)
    requires Ready(p) && Search(p.re, line)
    ensures PreHolds(p.pre, line, Lower(line))
  {
    match p.pre
    case NoPre =>
    case ErrorMarks => ErrorIsMarked(p.re, line);
    case WarnMarks => WarnIsMarked(p.re, line);
  }

  lemma SearchPasses(p: Pattern, line: string)
    requires Ready(p) && Search(p.re, line)
    ensures Passes(p, line, Lower(line))
    ensures p.need.Of? ==> ContainsAny(Lower(line), p.need.elems)
  {
    PreIsNecessary(p, line);
    if p.need.Of? { NeedIsNecessary(p.re, line); }
  }

  /** The pattern's answer is the expression's own answer, for every line:
      found is what the regular-expression engine would say. */
  method Matches(p: Pattern, line: string, lower: string, found: bool) returns (r: bool)
    requires Ready(p) && lower == Lower(line)
    requires found <==> Search(p.re, line)
    ensures r <==> Search(p.re, line)
  {
    if found { SearchPasses(p, line); }
    if p.pre != NoPre {
      var ok := PrePasses(p.pre, line, lower);
      if !ok { return false; }
    }
    if p.need.Of? {
      var hit := AnyHit(lower, p.need.elems);
      if !hit { return false; }
    }
    return found;
  }

  ghost predicate SomePasses(patterns: seq<Pattern>, line: string, lower: string)
  {
    exists p :: p in patterns && Passes(p, line, lower)
  }

  method AnyPasses(patterns: seq<Pattern>, line: string, lower: string) returns (r: bool)
    ensures r <==> SomePasses(patterns, line, lower)
  {
    for i := 0 to |patterns|
      invariant forall k :: 0 <= k < i ==> !Passes(patterns[k], line, lower)
    {
      var p := patterns[i];
      if p.pre != NoPre {
        var ok := PrePasses(p.pre, line, lower);
        if ok {
          assert p in patterns && Passes(p, line, lower);
          return true;
        }
        continue;
      }
      if p.need.Nil? { return true; }
      var hit := AnyHit(lower, p.need.elems);
      if hit {
        assert p in patterns && Passes(p, line, lower);
        return true;
      }
    }
    return false;
  }

  /** A ready catch-all lets a line through for its marks alone. */
  lemma CatchAllsPass(p: Pattern, line: string)
    requires Ready(p)
    ensures p.name == "generic-error" ==> (Passes(p, line, Lower(line)) <==>
      || Contains(Lower(line), "level=error") || Contains(Lower(line), "error=")
      || exists i: nat :: MarkAt(line, 'E', i))
    ensures p.name == "generic-warn" ==> (Passes(p, line, Lower(line)) <==>
      Contains(Lower(line), "level=warn") || exists i: nat :: MarkAt(line, 'W', i))
    ensures p.name !in {"generic-error", "generic-warn"} ==> (Passes(p, line, Lower(line)) <==>
      (p.need.Of? ==> exists s :: s in p.need.elems && Contains(Lower(line), s)))
  {
    hide Contains, Lower, MarkAt, NeedLiterals, IsGenericError, IsGenericWarn;
  }

  // ----- the two ways a line is let through

  ghost predicate AllReady(patterns: seq<Pattern>)
  {
    forall p :: p in patterns ==> Ready(p)
  }

  /** MayMatch: the line is looked at without the blanks around it. */
  ghost predicate Kept(patterns: seq<Pattern>, line: string)
  {
    SomePasses(patterns, TrimSpace(line), Lower(TrimSpace(line)))
  }

  /** MayMatchBytes: the line is looked at as it was read. */
  ghost predicate KeptRaw(patterns: seq<Pattern>, line: string)
  {
    line != "" && SomePasses(patterns, line, Lower(line))
  }

  /** A line no pattern lets through is matched by no pattern. */
  lemma RejectedLineMatchesNothing(patterns: seq<Pattern>, line: string)
    requires AllReady(patterns) && !Kept(patterns, line)
    ensures forall p :: p in patterns ==> !Search(p.re, TrimSpace(line))
  {
    forall p | p in patterns
      ensures !Search(p.re, TrimSpace(line))
    {
      if Search(p.re, TrimSpace(line)) { SearchPasses(p, TrimSpace(line)); }
    }
  }

  method MayMatch(patterns: seq<Pattern>, line: string) returns (r: bool)
    requires AllReady(patterns)
    ensures r <==> Kept(patterns, line)
    ensures !r ==> forall p :: p in patterns ==> !Search(p.re, TrimSpace(line))
  {
    var t := TrimSpace(line);
    r := AnyPasses(patterns, t, Lower(t));
    if !r { RejectedLineMatchesNothing(patterns, line); }
  }

  /** Nothing is known that p needs: every line is let through. */
  predicate Unfiltered(p: Pattern) { p.pre == NoPre && p.need.Nil? }

  ghost predicate SomeUnfiltered(patterns: seq<Pattern>)
  {
    exists p :: p in patterns && Unfiltered(p)
  }

  predicate Spells(line: string, lit: string, a: nat, b: nat)
  {
    b == a + |lit| && OccursAt(Lower(line), lit, a)
  }

  predicate Marks(line: string, sev: char, a: nat, b: nat)
  {
    b == a + 6 && MarkAt(line, sev, a)
  }

  /** line[a..b] is what makes p let the line through. */
  predicate Hit(p: Pattern, line: string, a: nat, b: nat)
  {
    match p.pre
    case NoPre => p.need.Of? && exists s | s in p.need.elems :: Spells(line, s, a, b)
    case ErrorMarks => Spells(line, "level=error", a, b) || Spells(line, "error=", a, b) || Marks(line, 'E', a, b)
    case WarnMarks => Spells(line, "level=warn", a, b) || Marks(line, 'W', a, b)
  }

  lemma ContainedIsSpelled(line: string, lit: string)
    ensures Contains(Lower(line), lit) <==> exists a: nat, b: nat :: Spells(line, lit, a, b)
  {
    if Contains(Lower(line), lit) {
      var a: nat :| a <= |line| && OccursAt(Lower(line), lit, a);
      assert Spells(line, lit, a, a + |lit|);
    }
    if a: nat, b: nat :| Spells(line, lit, a, b) {
      assert a <= |Lower(line)|;
    }
  }

  lemma MarkIsHit(line: string, sev: char)
    ensures HasMark(line, sev) <==> exists a: nat, b: nat :: Marks(line, sev, a, b)
  {
    if a: nat :| MarkAt(line, sev, a) {
      assert Marks(line, sev, a, a + 6);
    }
  }

  lemma PassesOnHit(p: Pattern, line: string)
    ensures Passes(p, line, Lower(line)) <==> Unfiltered(p) || exists a: nat, b: nat :: Hit(p, line, a, b)
  {
    hide Spells, Marks, Contains, HasMark;
    match p.pre
    case NoPre =>
      if p.need.Of? {
        forall s | s in p.need.elems
          ensures Contains(Lower(line), s) <==> exists a: nat, b: nat :: Spells(line, s, a, b)
        {
          ContainedIsSpelled(line, s);
        }
        if s, a: nat, b: nat :| s in p.need.elems && Spells(line, s, a, b) {
          assert Hit(p, line, a, b);
        }
      }
    case ErrorMarks =>
      ContainedIsSpelled(line, "level=error");
      ContainedIsSpelled(line, "error=");
      MarkIsHit(line, 'E');
      forall a: nat, b: nat
        ensures Hit(p, line, a, b) <==>
          Spells(line, "level=error", a, b) || Spells(line, "error=", a, b) || Marks(line, 'E', a, b)
      {}
    case WarnMarks =>
      ContainedIsSpelled(line, "level=warn");
      MarkIsHit(line, 'W');
      forall a: nat, b: nat
        ensures Spells(line, "level=warn", a, b) || Marks(line, 'W', a, b) <==> Hit(p, line, a, b)
      {}
  }

  lemma SpelledInside(line: string, lo: nat, hi: nat, lit: string, a: nat, b: nat)
    requires lo <= hi <= |line|
    ensures Spells(line[lo..hi], lit, a, b) <==> lo + b <= hi && Spells(line, lit, lo + a, lo + b)
  {
    LowerSlice(line, lo, hi);
    if b == a + |lit| && lo + b <= hi {
      assert Lower(line)[lo..hi][a..b] == Lower(line)[lo + a..lo + b];
    }
  }

  /** A hit in a part of the line that starts after a blank is a hit in the
      line, and the other way round. */
  lemma HitInside(p: Pattern, line: string, lo: nat, hi: nat, a: nat, b: nat)
    requires lo <= hi <= |line| && (lo > 0 ==> IsSpace(line[lo - 1]))
    ensures Hit(p, line[lo..hi], a, b) <==> lo + b <= hi && Hit(p, line, lo + a, lo + b)
  {
    hide Spells;
    forall lit: string
      ensures Spells(line[lo..hi], lit, a, b) <==> lo + b <= hi && Spells(line, lit, lo + a, lo + b)
    {
      SpelledInside(line, lo, hi, lit, a, b);
    }
  }

  /** What passes without the blanks around it passes with them. */
  lemma TrimmedPasses(p: Pattern, line: string)
    requires Passes(p, TrimSpace(line), Lower(TrimSpace(line)))
    ensures Passes(p, line, Lower(line))
  {
    hide Passes, Hit;
    PassesOnHit(p, TrimSpace(line));
    PassesOnHit(p, line);
    var lo, hi := TrimSpan(line);
    if a: nat, b: nat :| Hit(p, TrimSpace(line), a, b) {
      HitInside(p, line, lo, hi, a, b);
    }
  }

  /** The empty line passes unfiltered patterns only. */
  lemma EmptyPasses(p: Pattern)
    requires Ready(p)
    ensures Passes(p, "", Lower("")) <==> Unfiltered(p)
  {
    if p.pre == NoPre && p.need.Of? {
      forall s | s in p.need.elems
        ensures !Contains(Lower(""), s)
      {
        assert |s| >= MIN_NEED;
      }
    }
  }

  lemma NoUnfilteredKeepsEmpty(patterns: seq<Pattern>)
    requires AllReady(patterns)
    ensures SomePasses(patterns, "", Lower("")) <==> SomeUnfiltered(patterns)
  {
    hide Passes, Ready;
    forall p | p in patterns
      ensures Passes(p, "", Lower("")) <==> Unfiltered(p)
    {
      EmptyPasses(p);
    }
  }

  /** The streaming reader loses nothing MayMatch would keep, but for the
      empty line when some pattern is unfiltered. */
  lemma StreamKeepsAll(patterns: seq<Pattern>, line: string)
    requires AllReady(patterns) && Kept(patterns, line)
    ensures KeptRaw(patterns, line) || (line == "" && SomeUnfiltered(patterns))
  {
    hide Passes, Ready, Unfiltered;
    if line == "" {
      NoUnfilteredKeepsEmpty(patterns);
    } else {
      var p :| p in patterns && Passes(p, TrimSpace(line), Lower(TrimSpace(line)));
      TrimmedPasses(p, line);
    }
  }

  /** A line the streaming reader drops, blanks and all, is one no pattern
      matches once it is trimmed. */
  lemma DroppedLineMatchesNothing(patterns: seq<Pattern>, line: string)
    requires AllReady(patterns) && !KeptRaw(patterns, line)
    requires line != "" || !SomeUnfiltered(patterns)
    ensures forall p :: p in patterns ==> !Search(p.re, TrimSpace(line))
  {
    hide KeptRaw, Kept;
    if Kept(patterns, line) { StreamKeepsAll(patterns, line); }
    RejectedLineMatchesNothing(patterns, line);
  }

  /** line[a..b] does not reach into the blanks around the line. */
  ghost predicate ClearOfBlanks(line: string, a: nat, b: nat)
  {
    && (exists i: nat :: i <= a && i < |line| && !IsSpace(line[i]))
    && exists j: nat :: b <= j + 1 <= |line| && !IsSpace(line[j])
  }

  lemma ClearIsInside(line: string, lo: nat, hi: nat, a: nat, b: nat)
    requires TrimsTo(line, lo, hi) && a < b <= |line|
    ensures ClearOfBlanks(line, a, b) <==> lo <= a && b <= hi
  {
    if lo <= a && b <= hi {
      assert lo <= a && !IsSpace(line[lo]);
      assert b <= (hi - 1) + 1 && !IsSpace(line[hi - 1]);
    }
  }

  lemma HitIsLong(p: Pattern, line: string, a: nat, b: nat)
    requires Ready(p) && Hit(p, line, a, b)
    ensures a < b <= |line|
  {}

  /** Trimming keeps a hit just when it is clear of the blanks. */
  lemma TrimmedHit(p: Pattern, line: string)
    requires Ready(p)
    ensures (exists a: nat, b: nat :: Hit(p, TrimSpace(line), a, b))
      <==> exists a: nat, b: nat :: Hit(p, line, a, b) && ClearOfBlanks(line, a, b)
  {
    hide Ready, Hit, ClearOfBlanks;
    var lo, hi := TrimSpan(line);
    if a: nat, b: nat :| Hit(p, TrimSpace(line), a, b) {
      HitInside(p, line, lo, hi, a, b);
      HitIsLong(p, line, lo + a, lo + b);
      ClearIsInside(line, lo, hi, lo + a, lo + b);
    }
    if a: nat, b: nat :| Hit(p, line, a, b) && ClearOfBlanks(line, a, b) {
      HitIsLong(p, line, a, b);
      ClearIsInside(line, lo, hi, a, b);
      HitInside(p, line, lo, hi, a - lo, b - lo);
      assert Hit(p, TrimSpace(line), a - lo, b - lo);
    }
  }

  ghost predicate SomeHit(patterns: seq<Pattern>, line: string)
  {
    exists p, a: nat, b: nat :: p in patterns && Hit(p, line, a, b)
  }

  ghost predicate SomeClearHit(patterns: seq<Pattern>, line: string)
  {
    exists p, a: nat, b: nat :: p in patterns && Hit(p, line, a, b) && ClearOfBlanks(line, a, b)
  }

  lemma PassesOnSomeHit(patterns: seq<Pattern>, line: string)
    ensures SomePasses(patterns, line, Lower(line)) <==> SomeUnfiltered(patterns) || SomeHit(patterns, line)
  {
    hide Passes, Hit, Unfiltered;
    forall p | p in patterns
      ensures Passes(p, line, Lower(line)) <==> Unfiltered(p) || exists a: nat, b: nat :: Hit(p, line, a, b)
    {
      PassesOnHit(p, line);
    }
  }

  /** When the two ways agree. With an unfiltered pattern: on every line but
      the empty one. Otherwise: unless the line has hits and all of them reach
      into the blanks around it. */
  lemma ReadersAgreeIff(patterns: seq<Pattern>, line: string)
    requires AllReady(patterns)
    ensures (KeptRaw(patterns, line) <==> Kept(patterns, line)) <==>
      if SomeUnfiltered(patterns) then line != ""
      else SomeHit(patterns, line) ==> SomeClearHit(patterns, line)
  {
    hide Passes, Hit, Unfiltered, Ready, ClearOfBlanks;
    PassesOnSomeHit(patterns, line);
    PassesOnSomeHit(patterns, TrimSpace(line));
    forall p | p in patterns
      ensures (exists a: nat, b: nat :: Hit(p, TrimSpace(line), a, b))
        <==> exists a: nat, b: nat :: Hit(p, line, a, b) && ClearOfBlanks(line, a, b)
    {
      TrimmedHit(p, line);
    }
    if line == "" { NoUnfilteredKeepsEmpty(patterns); }
  }

  /** On text without blanks around it only the empty line can differ. */
  lemma ReadersAgreeOnTrimmed(patterns: seq<Pattern>, line: string)
    requires AllReady(patterns) && TrimSpace(line) == line
    ensures (KeptRaw(patterns, line) <==> Kept(patterns, line)) <==> line != "" || !SomeUnfiltered(patterns)
  {
    hide Passes, Ready, Unfiltered;
    if line == "" { NoUnfilteredKeepsEmpty(patterns); }
  }

  lemma CutHeader()
    ensures TrimSpace("E0926 ") == "E0926" && HasMark("E0926 ", 'E') && !HasMark("E0926", 'E')
  {
    var lo, hi := TrimSpan("E0926 ");
    assert !IsSpace("E0926 "[0]) && !IsSpace("E0926 "[4]);
    assert lo == 0 && hi == 5;
    assert MarkAt("E0926 ", 'E', 0);
  }

  /** A header cut off after its blank is kept raw and rejected trimmed. */
  lemma CutHeaderIsKeptRaw(re: Re)
    requires IsGenericError(re)
    ensures var patterns := [Pattern("generic-error", re, NeedLiterals(re), ErrorMarks)];
      AllReady(patterns) && KeptRaw(patterns, "E0926 ") && !Kept(patterns, "E0926 ")
  {
    hide NeedLiterals, IsGenericError, Contains, HasMark, Lower, TrimSpace;
    var p := Pattern("generic-error", re, NeedLiterals(re), ErrorMarks);
    CutHeader();
    assert Passes(p, "E0926 ", Lower("E0926 "));
    assert p in [p];
    NotInShort("level=error", "E0926");
    NotInShort("error=", "E0926");
  }

  lemma NotInShort(lit: string, line: string)
    requires |lit| > |line|
    ensures !Contains(Lower(line), lit)
  {}

  // ----- lower-casing into a reused buffer

  class Scratch {
    var low: array<char>

    constructor ()
      ensures fresh(low) && low.Length == 0
    {
      low := new char[0];
    }

    /** The streaming form: the line, blanks and all, is lower-cased in place
        in the reused buffer. The empty line is always dropped. */
    method MayMatchBytes(patterns: seq<Pattern>, line: string) returns (r: bool)
      modifies this, low
      ensures low == old(low) || fresh(low)
      ensures line != "" ==> low.Length >= |line| && low[..|line|] == Lower(line)
      ensures line == "" ==> low == old(low) && low[..] == old(low[..])
      ensures r <==> KeptRaw(patterns, line)
    {
      if |line| == 0 {
        return false;
      }
      if low.Length < |line| {
        low := new char[|line|];
      }
      for i := 0 to |line|
        invariant low == old(low) || fresh(low)
        invariant low.Length >= |line|
        invariant low[..i] == line[..i]
      {
        low[i] := line[i];
      }
      LowerInPlace(low, |line|);
      assert low[..|line|] == Lower(line);
      r := AnyPasses(patterns, line, low[..|line|]);
    }

    static method LowerInPlace(low: array<char>, n: nat)
      requires n <= low.Length
      modifies low
      ensures low[..n] == Lower(old(low[..n])) && low[n..] == old(low[n..])
    {
      for i := 0 to n
        invariant forall k :: 0 <= k < i ==> low[k] == LowerChar(old(low[k]))
        invariant forall k :: i <= k < low.Length ==> low[k] == old(low[k])
      {
        if 'A' <= low[i] <= 'Z' {
          low[i] := (low[i] as int + 32) as char;
        }
      }
    }
  }

  // ----- the most selective set wins

  lemma {:induction false} ShortestIsALength(strs: seq<string>)
    requires strs != []
    ensures exists s :: s in strs && |s| == Shortest(strs)
    ensures forall s :: s in strs ==> Shortest(strs) <= |s|
  {
    var init, last := strs[..|strs| - 1], strs[|strs| - 1];
    assert strs == init + [last];
    if init != [] { ShortestIsALength(init); }
    assert Shortest(strs) == |last| ==> last in strs;
  }

  /** "Better" is a strict order whose incomparable sets are interchangeable. */
  lemma BetterIsAStrictOrder(a: Slice, b: Slice, c: Slice)
    requires a.Of? && b.Of? && c.Of?
    ensures !Better(a, a)
    ensures Better(a, b) ==> !Better(b, a)
    ensures Better(a, b) && Better(b, c) ==> Better(a, c)
    ensures !Better(a, b) && Better(c, b) ==> !Better(a, c)
  {}

  /** The shortest string of a is longer than that of b. */
  ghost predicate ShortestLonger(a: seq<string>, b: seq<string>)
  {
    exists y :: y in b && forall x :: x in a ==> |x| > |y|
  }

  /** a is more selective than b: its shortest string is longer, or as long
      with fewer strings in all. */
  ghost predicate MoreSelective(a: seq<string>, b: seq<string>)
  {
    ShortestLonger(a, b) || (!ShortestLonger(b, a) && |a| < |b|)
  }

  lemma BetterIff(a: seq<string>, b: seq<string>)
    requires a != [] && b != []
    ensures Better(Of(a), Of(b)) <==> MoreSelective(a, b)
  {
    ShortestIsALength(a);
    ShortestIsALength(b);
    ShortestLongerIff(a, b);
    ShortestLongerIff(b, a);
    hide Shortest, ShortestLonger;
  }

  lemma ShortestLongerIff(a: seq<string>, b: seq<string>)
    requires a != [] && b != []
    ensures ShortestLonger(a, b) <==> Shortest(a) > Shortest(b)
  {
    ShortestIsALength(a);
    ShortestIsALength(b);
    hide Shortest;
  }

  /** s may be required: it has strings, and none is empty. */
  ghost predicate Selects(s: Slice) { s.Of? && s.elems != [] && "" !in s.elems }

  /** r is the most selective set of pool that may be required, nil only when
      there is none. */
  ghost predicate Picked(r: Slice, pool: seq<Slice>)
  {
    && (r.Nil? ==> forall c :: c in pool ==> !Selects(c))
    && (r.Of? ==> Selects(r) && r in pool && forall c :: c in pool && Selects(c) ==> !MoreSelective(c.elems, r.elems))
  }

  /** The sets a concatenation has to choose from: every maximal run of parts
      with short enough lists, joined, and the required set of every part that
      broke one. */
  ghost function Candidates(subs: seq<Re>, cur: seq<string>): seq<Slice>
    decreases subs
  {
    if subs == [] then [Of(cur)]
    else
      var c := Literals(subs[0]);
      if c.exact.Of? && |cur| * |c.exact.elems| <= 32 then Candidates(subs[1..], Cross(cur, c.exact.elems))
      else [Of(cur), NeedOf(c)] + Candidates(subs[1..], if c.exact.Of? then c.exact.elems else [""])
  }

  lemma ConsiderPicks(best: Slice, pool: seq<Slice>, c: Slice)
    requires Picked(best, pool)
    ensures Picked(Consider(best, c), pool + [c])
  {
    hide MoreSelective, Better;
    var r := Consider(best, c);
    assert forall d :: d in pool + [c] <==> d in pool || d == c;
    if r.Of? {
      forall d | d in pool + [c] && Selects(d)
        ensures !MoreSelective(d.elems, r.elems)
      {
        BetterIff(d.elems, r.elems);
        if best.Of? {
          BetterIff(d.elems, best.elems);
          if Selects(c) { BetterIff(c.elems, best.elems); }
          BetterIsAStrictOrder(d, r, best);
          BetterIsAStrictOrder(best, d, r);
          BetterIsAStrictOrder(d, best, r);
        } else {
          BetterIsAStrictOrder(d, d, d);
        }
      }
    }
  }

  lemma AppendTwo<T>(pool: seq<T>, x: T, y: T, rest: seq<T>)
    ensures pool + [x] + [y] + rest == pool + ([x, y] + rest)
  {}

  lemma {:induction false} ConcatPicks(subs: seq<Re>, st: Run, pool: seq<Slice>)
    requires Picked(st.best, pool)
    ensures Picked(ConcatInfo(subs, st).need, pool + Candidates(subs, st.cur))
    decreases subs
  {
    if subs == [] {
      ConsiderPicks(st.best, pool, Of(st.cur));
    } else {
      var c := Literals(subs[0]);
      var next := NextPart(st, c);
      if Joins(st, c) {
        ConcatPicks(subs[1..], next, pool);
      } else {
        var grown := pool + [Of(st.cur)] + [NeedOf(c)];
        assert Picked(next.best, grown) by {
          ConsiderPicks(st.best, pool, Of(st.cur));
          ConsiderPicks(Consider(st.best, Of(st.cur)), pool + [Of(st.cur)], NeedOf(c));
        }
        ConcatPicks(subs[1..], next, grown);
        assert grown + Candidates(subs[1..], next.cur) == pool + Candidates(subs, st.cur) by {
          AppendTwo(pool, Of(st.cur), NeedOf(c), Candidates(subs[1..], next.cur));
        }
      }
    }
  }

  /** A concatenation requires the most selective of its candidate sets:
      none has a longer shortest literal, or as long a one in fewer strings. */
  lemma ConcatKeepsTheMostSelective(subs: seq<Re>)
    ensures Picked(Literals(Concat(subs)).need, Candidates(subs, [""]))
  {
    assert Literals(Concat(subs)) == ConcatInfo(subs, NO_PARTS);
    assert Picked(Nil, []);
    hide Literals, ConcatInfo, Candidates, Picked;
    ConcatPicks(subs, NO_PARTS, []);
    assert [] + Candidates(subs, [""]) == Candidates(subs, [""]);
  }
}
