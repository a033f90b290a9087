/** The literal analysis is sound for every regular expression and every span
    it matches, its exact lists are exact, and they stay short. */
module PrefilterSoundness {
  import opened Strings
  import opened Regexp
  import opened Prefilter

  /** s lies inside low[i..j]. */
  ghost predicate Within(low: string, s: string, i: nat, j: nat)
  {
    exists p: nat :: i <= p && p + |s| <= j && OccursAt(low, s, p)
  }

  ghost predicate Hits(low: string, lits: seq<string>, i: nat, j: nat)
  {
    exists s :: s in lits && Within(low, s, i, j)
  }

  ghost predicate NeedHolds(need: Slice, low: string, i: nat, j: nat)
  {
    need.Of? ==> Hits(low, need.elems, i, j)
  }

  /** What c claims about the lower-cased span low[i..j]. */
  ghost predicate Sound(c: LitInfo, low: string, i: nat, j: nat)
    requires i <= j <= |low|
  {
    && (c.exact.Of? ==> low[i..j] in c.exact.elems)
    && NeedHolds(c.need, low, i, j)
  }

  lemma HitsWider(low: string, lits: seq<string>, i: nat, j: nat, i': nat, j': nat)
    requires i' <= i <= j <= j' && Hits(low, lits, i, j)
    ensures Hits(low, lits, i', j')
  {
    var s :| s in lits && Within(low, s, i, j);
    assert Within(low, s, i', j');
  }

  lemma SpanHits(low: string, lits: seq<string>, i: nat, j: nat)
    requires i <= j <= |low| && low[i..j] in lits
    ensures Hits(low, lits, i, j)
  {
    assert OccursAt(low, low[i..j], i);
    assert Within(low, low[i..j], i, j);
  }

  lemma NeedOfSound(c: LitInfo, low: string, i: nat, j: nat)
    requires i <= j <= |low| && Sound(c, low, i, j)
    ensures NeedHolds(NeedOf(c), low, i, j)
  {
    if c.need.Nil? && Usable(c.exact) {
      SpanHits(low, c.exact.elems, i, j);
    }
  }

  lemma {:induction false} InCross(a: seq<string>, b: seq<string>, x: string, y: string)
    requires x in a && y in b
    ensures x + y in Cross(a, b)
  {
    var k :| 0 <= k < |b| && b[k] == y;
    if a[|a| - 1] == x {
      assert Prefixed(x, b)[k] == x + y;
    } else {
      InCross(a[..|a| - 1], b, x, y);
    }
  }

  lemma {:induction false} FromCross(a: seq<string>, b: seq<string>, z: string) returns (x: string, y: string)
    requires z in Cross(a, b)
    ensures x in a && y in b && z == x + y
  {
    var init, last := a[..|a| - 1], a[|a| - 1];
    if z in Cross(init, b) {
      x, y := FromCross(init, b, z);
    } else {
      var k :| 0 <= k < |b| && Prefixed(last, b)[k] == z;
      x, y := last, b[k];
    }
  }

  lemma {:induction false} CrossSize(a: seq<string>, b: seq<string>)
    ensures |Cross(a, b)| == |a| * |b|
  {
    if a != [] {
      CrossSize(a[..|a| - 1], b);
      OneMore(|a| - 1, |b|);
    }
  }

  lemma OneMore(x: nat, y: nat)
    ensures x * y + y == (x + 1) * y
  {}

  lemma CrossOne(x: string, y: string)
    ensures Cross([x], [y]) == [x + y]
  {
    assert [x][..0] == [];
    assert Cross([], [y]) + Prefixed(x, [y]) == [x + y];
  }

  // ----- soundness

  /** Every string the analysis lists is complete for the match, and every set
      it requires is really hit, for every span the expression matches. */
  lemma {:induction false} LiteralsSound(re: Re, t: string, i: nat, j: nat)
    requires i <= j <= |t| && Match(re, t, i, j)
    ensures Sound(Literals(re), Lower(t), i, j)
    decreases re, 0
  {
    var low := Lower(t);
    match re
    case Literal(runes, fold) =>
      LowerSlice(t, i, j);
      SpanHits(low, [Lower(runes)], i, j);
    case Capture(sub) =>
      LiteralsSound(sub, t, i, j);
    case Quest(sub) =>
      if i != j { LiteralsSound(sub, t, i, j); }
      assert low[i..i] == "";
      if i == j && Match(sub, t, i, j) { LiteralsSound(sub, t, i, j); }
    case Plus(sub) =>
      var n: nat :| n >= 1 && MatchTimes(sub, n, t, i, j);
      RepeatSound(sub, n, t, i, j);
    case Repeat(sub, min, max) =>
      if min >= 1 {
        var n: nat :| min <= n && (max < 0 || n <= max) && MatchTimes(sub, n, t, i, j);
        RepeatSound(sub, n, t, i, j);
      }
    case Alternate(subs) =>
      var k :| 0 <= k < |subs| && Match(subs[k], t, i, j);
      LiteralsSound(subs[k], t, i, j);
      AlternateSound(subs, NO_BRANCHES, k, low, i, j);
    case Concat(subs) =>
      ConcatSound(subs, NO_PARTS, t, i, i, i, j);
    case EmptyMatch | BeginLine | EndLine | BeginText | EndText | WordBoundary | NoWordBoundary =>
      assert low[i..i] == "";
    case _ =>
  }

  lemma RepeatSound(sub: Re, n: nat, t: string, i: nat, j: nat)
    requires i <= j <= |t| && n >= 1 && MatchTimes(sub, n, t, i, j)
    ensures NeedHolds(NeedOf(Literals(sub)), Lower(t), i, j)
    decreases sub, n
  {
    var k: nat :| i <= k <= j && Match(sub, t, i, k) && MatchTimes(sub, n - 1, t, k, j);
    LiteralsSound(sub, t, i, k);
    NeedOfSound(Literals(sub), Lower(t), i, k);
    var need := NeedOf(Literals(sub));
    if need.Of? { HitsWider(Lower(t), need.elems, i, k, i, j); }
  }

  /** What the alternation loop has collected covers the span already. */
  ghost predicate Covered(st: Branches, low: string, i: nat, j: nat)
    requires i <= j <= |low|
  {
    && (st.exOK ==> st.ex.Of? && low[i..j] in st.ex.elems)
    && (st.ndOK ==> st.nd.Of? && Hits(low, st.nd.elems, i, j))
  }

  lemma HitsAppend(low: string, s: Slice, more: seq<string>, i: nat, j: nat)
    requires (s.Of? && Hits(low, s.elems, i, j)) || Hits(low, more, i, j)
    ensures Append(s, more).Of? && Hits(low, Append(s, more).elems, i, j)
  {
    if s.Of? && Hits(low, s.elems, i, j) {
      var x :| x in s.elems && Within(low, x, i, j);
      assert x in Append(s, more).elems;
    } else {
      var x :| x in more && Within(low, x, i, j);
      assert x in Append(s, more).elems;
    }
  }

  lemma BranchCovers(st: Branches, c: LitInfo, low: string, i: nat, j: nat)
    requires i <= j <= |low| && (Sound(c, low, i, j) || Covered(st, low, i, j))
    ensures Covered(NextBranch(st, c), low, i, j)
  {
    var n := NeedOf(c);
    if Sound(c, low, i, j) { NeedOfSound(c, low, i, j); }
    if st.ndOK && n.Of? { HitsAppend(low, st.nd, n.elems, i, j); }
  }

  lemma {:induction false} AlternateSound(subs: seq<Re>, st: Branches, k: int, low: string, i: nat, j: nat)
    requires i <= j <= |low|
    requires Covered(st, low, i, j) || (0 <= k < |subs| && Sound(Literals(subs[k]), low, i, j))
    ensures Sound(AlternateInfo(subs, st), low, i, j)
    decreases |subs|
  {
    if subs != [] {
      var next := NextBranch(st, Literals(subs[0]));
      if Covered(st, low, i, j) || k == 0 {
        BranchCovers(st, Literals(subs[0]), low, i, j);
      }
      AlternateSound(subs[1..], next, k - 1, low, i, j);
    }
  }

  /** The invariant of the concatenation loop once the parts so far have
      matched t[i..k]: the current run of exact parts spells low[m..k], it is
      the whole of it while every part was exact, and best is hit. */
  ghost predicate RunHolds(st: Run, low: string, i: nat, m: nat, k: nat)
    requires i <= m <= k <= |low|
  {
    && low[m..k] in st.cur
    && (st.allExact ==> m == i)
    && NeedHolds(st.best, low, i, k)
  }

  lemma ConsiderHolds(best: Slice, candidate: Slice, low: string, i: nat, k: nat)
    requires NeedHolds(best, low, i, k)
    requires Usable(candidate) ==> NeedHolds(candidate, low, i, k)
    ensures NeedHolds(Consider(best, candidate), low, i, k)
  {}

  lemma JoinKeepsRun(st: Run, c: LitInfo, low: string, i: nat, m: nat, k: nat, k': nat)
    requires i <= m <= k <= k' <= |low|
    requires RunHolds(st, low, i, m, k) && Sound(c, low, k, k') && Joins(st, c)
    ensures RunHolds(NextPart(st, c), low, i, m, k')
  {
    InCross(st.cur, c.exact.elems, low[m..k], low[k..k']);
    assert low[m..k'] == low[m..k] + low[k..k'];
    if st.best.Of? { HitsWider(low, st.best.elems, i, k, i, k'); }
  }

  lemma BreakKeepsRun(st: Run, c: LitInfo, low: string, i: nat, m: nat, k: nat, k': nat)
    requires i <= m <= k <= k' <= |low|
    requires RunHolds(st, low, i, m, k) && Sound(c, low, k, k') && !Joins(st, c)
    ensures RunHolds(NextPart(st, c), low, i, if c.exact.Of? then k else k', k')
  {
    SpanHits(low, st.cur, m, k);
    HitsWider(low, st.cur, m, k, i, k');
    if st.best.Of? { HitsWider(low, st.best.elems, i, k, i, k'); }
    NeedOfSound(c, low, k, k');
    var n := NeedOf(c);
    if n.Of? { HitsWider(low, n.elems, k, k', i, k'); }
    ConsiderHolds(st.best, Of(st.cur), low, i, k');
    ConsiderHolds(Consider(st.best, Of(st.cur)), n, low, i, k');
    assert low[k'..k'] == "";
  }

  lemma {:induction false} ConcatSound(subs: seq<Re>, st: Run, t: string, i: nat, m: nat, k: nat, j: nat)
    requires i <= m <= k <= j <= |t|
    requires RunHolds(st, Lower(t), i, m, k) && MatchSeq(subs, t, k, j)
    ensures Sound(ConcatInfo(subs, st), Lower(t), i, j)
    decreases subs, 0
  {
    var low := Lower(t);
    if subs == [] {
      SpanHits(low, st.cur, m, k);
      HitsWider(low, st.cur, m, k, i, k);
      ConsiderHolds(st.best, Of(st.cur), low, i, k);
    } else {
      var k': nat :| k <= k' <= j && Match(subs[0], t, k, k') && MatchSeq(subs[1..], t, k', j);
      LiteralsSound(subs[0], t, k, k');
      var c := Literals(subs[0]);
      if Joins(st, c) {
        JoinKeepsRun(st, c, low, i, m, k, k');
        ConcatSound(subs[1..], NextPart(st, c), t, i, m, k', j);
      } else {
        BreakKeepsRun(st, c, low, i, m, k, k');
        ConcatSound(subs[1..], NextPart(st, c), t, i, if c.exact.Of? then k else k', k', j);
      }
    }
  }

  // ----- when a list is kept, and how long it is

  /** How many strings an expression spells out, counted from its shape alone;
      0 when it has no list or the list would outgrow the cap. */
  ghost function ListSize(re: Re): (n: nat)
    ensures n <= 32
    decreases re, 0
  {
    match re
    case Capture(sub) => ListSize(sub)
    case Quest(sub) => Capped(if ListSize(sub) == 0 then 0 else ListSize(sub) + 1)
    case Alternate(subs) => Capped(ListSum(subs))
    case Concat(subs) => Capped(ListProduct(subs))
    case NoMatch => 0
    case CharClass(_) => 0
    case AnyChar => 0
    case AnyCharNotNL => 0
    case Star(_) => 0
    case Plus(_) => 0
    case Repeat(_, _, _) => 0
    case _ => 1
  }

  ghost function Capped(n: nat): nat { if n <= 32 then n else 0 }

  /** 0 when there is no branch or one has no list. */
  ghost function ListSum(subs: seq<Re>): nat
    decreases subs, 0
  {
    if subs == [] || ListSize(subs[0]) == 0 then 0
    else if |subs| == 1 then ListSize(subs[0])
    else if ListSum(subs[1..]) == 0 then 0
    else ListSize(subs[0]) + ListSum(subs[1..])
  }

  ghost function ListProduct(subs: seq<Re>): nat
    decreases subs, 0
  {
    if subs == [] then 1 else ListSize(subs[0]) * ListProduct(subs[1..])
  }

  /** s is a list of n strings, or nil when n is 0. */
  ghost predicate HasSize(s: Slice, n: nat)
  {
    if n == 0 then s.Nil? else s.Of? && |s.elems| == n
  }

  /** A list is kept exactly when the shape spells out 1 to 32 strings, and it
      holds that many: no list is dropped early, none outgrows the cap. */
  lemma {:induction false} ExactHasListSize(re: Re)
    ensures HasSize(Literals(re).exact, ListSize(re))
    decreases re, 0
  {
    match re
    case Capture(sub) => ExactHasListSize(sub);
    case Quest(sub) => ExactHasListSize(sub);
    case Alternate(subs) => AlternateHasSize(subs, NO_BRANCHES);
    case Concat(subs) => ConcatHasSize(subs, NO_PARTS);
    case _ =>
  }

  /** The length the alternation's list reaches, 0 once a branch had none. */
  ghost function Total(st: Branches, subs: seq<Re>): nat
  {
    if !st.exOK then 0
    else if subs == [] then Length(st.ex)
    else if ListSum(subs) == 0 then 0
    else Length(st.ex) + ListSum(subs)
  }

  lemma {:induction false} AlternateHasSize(subs: seq<Re>, st: Branches)
    requires st.ex.Of? ==> st.ex.elems != []
    ensures HasSize(AlternateInfo(subs, st).exact, Capped(Total(st, subs)))
    decreases subs, 0
  {
    if subs != [] {
      ExactHasListSize(subs[0]);
      AlternateHasSize(subs[1..], NextBranch(st, Literals(subs[0])));
    }
  }

  lemma {:induction false} ConcatHasSize(subs: seq<Re>, st: Run)
    requires 1 <= |st.cur| <= MAX_EXACT
    ensures HasSize(ConcatInfo(subs, st).exact, if st.allExact then Capped(|st.cur| * ListProduct(subs)) else 0)
    decreases subs, 0
  {
    if subs != [] {
      var c := Literals(subs[0]);
      ExactHasListSize(subs[0]);
      if Joins(st, c) {
        CrossSize(st.cur, c.exact.elems);
        Reassociate(|st.cur|, |c.exact.elems|, ListProduct(subs[1..]));
      } else {
        Outgrown(|st.cur|, ListSize(subs[0]), ListProduct(subs[1..]));
      }
      ConcatHasSize(subs[1..], NextPart(st, c));
    }
  }

  lemma Reassociate(a: nat, b: nat, c: nat)
    ensures a * b * c == a * (b * c)
    ensures a > 0 && b > 0 ==> a * b > 0
  {}

  lemma Outgrown(a: nat, b: nat, c: nat)
    requires b == 0 || a * b > MAX_EXACT
    ensures Capped(a * (b * c)) == 0
  {
    Reassociate(a, b, c);
    if b != 0 && c != 0 { assert a * b * c >= a * b; }
  }

  // ----- precision

  ghost predicate AssertionFree(re: Re)
  {
    match re
    case BeginLine => false
    case EndLine => false
    case BeginText => false
    case EndText => false
    case WordBoundary => false
    case NoWordBoundary => false
    case Capture(sub) => AssertionFree(sub)
    case Star(sub) => AssertionFree(sub)
    case Plus(sub) => AssertionFree(sub)
    case Quest(sub) => AssertionFree(sub)
    case Repeat(sub, _, _) => AssertionFree(sub)
    case Concat(subs) => forall k :: 0 <= k < |subs| ==> AssertionFree(subs[k])
    case Alternate(subs) => forall k :: 0 <= k < |subs| ==> AssertionFree(subs[k])
    case _ => true
  }

  /** w is matched wherever it stands. */
  ghost predicate MatchedAnywhere(re: Re, w: string)
  {
    forall pre: string, post: string ::
      Match(re, pre + w + post, |pre|, |pre| + |w|)
  }

  ghost predicate SeqMatchedAnywhere(subs: seq<Re>, w: string)
  {
    forall pre: string, post: string ::
      MatchSeq(subs, pre + w + post, |pre|, |pre| + |w|)
  }

  /** Nothing is listed that the expression cannot match. */
  lemma {:induction false} ExactIsMatched(re: Re, s: string) returns (w: string)
    requires AssertionFree(re) && Literals(re).exact.Of? && s in Literals(re).exact.elems
    ensures Lower(w) == s && MatchedAnywhere(re, w)
    decreases re, 0
  {
    match re
    case Literal(runes, fold) =>
      w := runes;
      forall pre: string, post: string
        ensures Match(re, pre + w + post, |pre|, |pre| + |w|)
      {
        assert (pre + w + post)[|pre|..|pre| + |w|] == w;
      }
    case EmptyMatch =>
      w := "";
    case Capture(sub) =>
      w := ExactIsMatched(sub, s);
      MatchedBySuper(sub, re, w);
    case Quest(sub) =>
      if s == "" {
        w := "";
      } else {
        w := ExactIsMatched(sub, s);
        MatchedBySuper(sub, re, w);
      }
    case Alternate(subs) =>
      var k;
      k, w := AlternateIsMatched(subs, NO_BRANCHES, s);
      forall pre: string, post: string
        ensures Match(re, pre + w + post, |pre|, |pre| + |w|)
      {
        assert Match(subs[k], pre + w + post, |pre|, |pre| + |w|);
      }
    case Concat(subs) =>
      var x;
      x, w := ConcatIsMatched(subs, NO_PARTS, s);
      forall pre: string, post: string
        ensures Match(re, pre + w + post, |pre|, |pre| + |w|)
      {
        assert MatchSeq(subs, pre + w + post, |pre|, |pre| + |w|);
      }
  }

  lemma MatchedBySuper(sub: Re, re: Re, w: string)
    requires (re == Capture(sub) || re == Quest(sub)) && MatchedAnywhere(sub, w)
    ensures MatchedAnywhere(re, w)
  {
    forall pre: string, post: string
      ensures Match(re, pre + w + post, |pre|, |pre| + |w|)
    {
      assert Match(sub, pre + w + post, |pre|, |pre| + |w|);
    }
  }

  lemma {:induction false} AlternateIsMatched(subs: seq<Re>, st: Branches, s: string) returns (k: int, w: string)
    requires forall n :: 0 <= n < |subs| ==> AssertionFree(subs[n])
    requires AlternateInfo(subs, st).exact.Of? && s in AlternateInfo(subs, st).exact.elems
    ensures (st.ex.Of? && s in st.ex.elems && k == -1)
      || (0 <= k < |subs| && Lower(w) == s && MatchedAnywhere(subs[k], w))
    decreases subs, 0
  {
    if subs == [] {
      k, w := -1, "";
    } else {
      var c := Literals(subs[0]);
      AlternateNeedsExact(subs[1..], NextBranch(st, c));
      k, w := AlternateIsMatched(subs[1..], NextBranch(st, c), s);
      if k >= 0 {
        k := k + 1;
      } else if st.ex.Of? && s in st.ex.elems {
      } else {
        w := ExactIsMatched(subs[0], s);
        k := 0;
      }
    }
  }

  lemma {:induction false} AlternateNeedsExact(subs: seq<Re>, st: Branches)
    requires AlternateInfo(subs, st).exact.Of?
    ensures st.exOK
  {
    if subs != [] { AlternateNeedsExact(subs[1..], NextBranch(st, Literals(subs[0]))); }
  }

  lemma {:induction false} ConcatNeedsExact(subs: seq<Re>, st: Run)
    requires ConcatInfo(subs, st).exact.Of?
    ensures st.allExact
  {
    if subs != [] { ConcatNeedsExact(subs[1..], NextPart(st, Literals(subs[0]))); }
  }

  lemma {:induction false} ConcatIsMatched(subs: seq<Re>, st: Run, s: string) returns (x: string, w: string)
    requires forall n :: 0 <= n < |subs| ==> AssertionFree(subs[n])
    requires ConcatInfo(subs, st).exact.Of? && s in ConcatInfo(subs, st).exact.elems
    ensures x in st.cur && s == x + Lower(w) && SeqMatchedAnywhere(subs, w)
    decreases subs, 0
  {
    if subs == [] {
      x, w := s, "";
    } else {
      var c := Literals(subs[0]);
      ConcatNeedsExact(subs[1..], NextPart(st, c));
      var x', w' := ConcatIsMatched(subs[1..], NextPart(st, c), s);
      var y;
      x, y := FromCross(st.cur, c.exact.elems, x');
      var w0 := ExactIsMatched(subs[0], y);
      w := w0 + w';
      assert s == x + Lower(w) by { SpellsOut(x, y, w0, w'); }
      MatchedInTurn(subs, w0, w');
    }
  }

  lemma SpellsOut(x: string, y: string, w0: string, w': string)
    requires Lower(w0) == y
    ensures (x + y) + Lower(w') == x + Lower(w0 + w')
  {
    LowerConcat(w0, w');
  }

  lemma MatchedInTurn(subs: seq<Re>, w0: string, w': string)
    requires subs != [] && MatchedAnywhere(subs[0], w0) && SeqMatchedAnywhere(subs[1..], w')
    ensures SeqMatchedAnywhere(subs, w0 + w')
  {
    forall pre: string, post: string
      ensures MatchSeq(subs, pre + (w0 + w') + post, |pre|, |pre| + |w0 + w'|)
    {
      var t := pre + (w0 + w') + post;
      assert t == pre + w0 + (w' + post) && t == (pre + w0) + w' + post;
      assert Match(subs[0], pre + w0 + (w' + post), |pre|, |pre| + |w0|);
      assert MatchSeq(subs[1..], (pre + w0) + w' + post, |pre + w0|, |pre + w0| + |w'|);
    }
  }

  /** For expressions without zero-width assertions a listed set is exactly
      the lower-cased language. */
  lemma ExactIsTheLanguage(re: Re, s: string)
    requires AssertionFree(re) && Literals(re).exact.Of?
    ensures s in Literals(re).exact.elems <==> exists w: string :: Lower(w) == s && Match(re, w, 0, |w|)
  {
    hide Literals, Match, AssertionFree;
    if s in Literals(re).exact.elems {
      var w := ExactIsMatched(re, s);
      assert Match(re, "" + w + "", |""|, |""| + |w|);
      assert "" + w + "" == w;
    }
    forall w: string | Lower(w) == s && Match(re, w, 0, |w|)
      ensures s in Literals(re).exact.elems
    {
      LiteralsSound(re, w, 0, |w|);
      assert Lower(w)[0..|w|] == s;
    }
  }

  // with assertions: the language once they are erased

  /** re with every zero-width assertion left out. */
  ghost function Erase(re: Re): Re
    decreases re, 0
  {
    match re
    case BeginLine => EmptyMatch
    case EndLine => EmptyMatch
    case BeginText => EmptyMatch
    case EndText => EmptyMatch
    case WordBoundary => EmptyMatch
    case NoWordBoundary => EmptyMatch
    case Capture(sub) => Capture(Erase(sub))
    case Star(sub) => Star(Erase(sub))
    case Plus(sub) => Plus(Erase(sub))
    case Quest(sub) => Quest(Erase(sub))
    case Repeat(sub, min, max) => Repeat(Erase(sub), min, max)
    case Concat(subs) => Concat(EraseAll(subs))
    case Alternate(subs) => Alternate(EraseAll(subs))
    case _ => re
  }

  ghost function EraseAll(subs: seq<Re>): (r: seq<Re>)
    ensures |r| == |subs|
    decreases subs, 0
  {
    if subs == [] then [] else [Erase(subs[0])] + EraseAll(subs[1..])
  }

  lemma {:induction false} ErasedIsFree(re: Re)
    ensures AssertionFree(Erase(re))
    decreases re, 0
  {
    match re
    case Capture(sub) => ErasedIsFree(sub);
    case Star(sub) => ErasedIsFree(sub);
    case Plus(sub) => ErasedIsFree(sub);
    case Quest(sub) => ErasedIsFree(sub);
    case Repeat(sub, _, _) => ErasedIsFree(sub);
    case Concat(subs) => ErasedAreFree(subs);
    case Alternate(subs) => ErasedAreFree(subs);
    case _ =>
  }

  lemma {:induction false} ErasedAreFree(subs: seq<Re>)
    ensures forall k :: 0 <= k < |subs| ==> AssertionFree(EraseAll(subs)[k])
    decreases subs, 0
  {
    hide AssertionFree;
    if subs != [] {
      ErasedIsFree(subs[0]);
      ErasedAreFree(subs[1..]);
    }
  }

  /** The analysis does not see the assertions. */
  lemma {:induction false} ErasedLiterals(re: Re)
    ensures Literals(Erase(re)) == Literals(re)
    decreases re, 0
  {
    hide ConcatInfo, AlternateInfo, NeedOf, QuestInfo, Lower, EraseAll;
    match re
    case Capture(sub) => ErasedLiterals(sub);
    case Plus(sub) => ErasedLiterals(sub);
    case Quest(sub) => ErasedLiterals(sub);
    case Repeat(sub, _, _) => ErasedLiterals(sub);
    case Concat(subs) => ErasedConcat(subs, NO_PARTS);
    case Alternate(subs) => ErasedAlternate(subs, NO_BRANCHES);
    case _ =>
  }

  lemma {:induction false} ErasedConcat(subs: seq<Re>, st: Run)
    ensures ConcatInfo(EraseAll(subs), st) == ConcatInfo(subs, st)
    decreases subs, 0
  {
    hide NextPart, FinishConcat, Erase, Literals;
    if subs != [] {
      ErasedLiterals(subs[0]);
      ErasedConcat(subs[1..], NextPart(st, Literals(subs[0])));
      assert EraseAll(subs)[1..] == EraseAll(subs[1..]);
    }
  }

  lemma {:induction false} ErasedAlternate(subs: seq<Re>, st: Branches)
    ensures AlternateInfo(EraseAll(subs), st) == AlternateInfo(subs, st)
    decreases subs, 0
  {
    hide NextBranch, FinishAlternate, Erase, Literals;
    if subs != [] {
      ErasedLiterals(subs[0]);
      ErasedAlternate(subs[1..], NextBranch(st, Literals(subs[0])));
      assert EraseAll(subs)[1..] == EraseAll(subs[1..]);
    }
  }

  /** For every expression a listed set is exactly the lower-cased language of
      the expression with its assertions erased. */
  lemma ExactIsTheErasedLanguage(re: Re, s: string)
    requires Literals(re).exact.Of?
    ensures s in Literals(re).exact.elems <==> exists w: string :: Lower(w) == s && Match(Erase(re), w, 0, |w|)
  {
    hide Literals, Erase, Match, AssertionFree;
    ErasedIsFree(re);
    ErasedLiterals(re);
    ExactIsTheLanguage(Erase(re), s);
  }

  /** With an assertion inside, a listed string may be unmatchable: no text
      holds a non-empty literal followed by \A. */
  lemma AssertionsMakeExactLoose(runes: string)
    requires runes != ""
    ensures Literals(Concat([Literal(runes, false), BeginText])).exact == Of([Lower(runes)])
    ensures forall t :: !Search(Concat([Literal(runes, false), BeginText]), t)
  {
    TwoExactParts(Literal(runes, false), BeginText, Lower(runes), "");
    assert Lower(runes) + "" == Lower(runes);
    forall t: string, i: nat, j: nat | i <= j <= |t|
      ensures !Match(Concat([Literal(runes, false), BeginText]), t, i, j)
    {
      NoStartInside([Literal(runes, false), BeginText], t, i, j);
    }
  }

  lemma TwoExactParts(a: Re, b: Re, x: string, y: string)
    requires Literals(a).exact == Of([x]) && Literals(b).exact == Of([y])
    ensures Literals(Concat([a, b])).exact == Of([x + y])
  {
    CrossOne("", x);
    CrossOne(x, y);
    assert "" + x == x;
    assert [a, b][1..] == [b] && [b][1..] == [];
    assert Literals(Concat([a, b])) == ConcatInfo([a, b], NO_PARTS);
    hide Literals, Cross, Consider;
    var st := NextPart(NO_PARTS, Literals(a));
    assert ConcatInfo([a, b], NO_PARTS) == ConcatInfo([b], st);
    assert ConcatInfo([b], st) == ConcatInfo([], NextPart(st, Literals(b)));
  }

  lemma SplitFirst(subs: seq<Re>, t: string, i: nat, j: nat) returns (k: nat)
    requires i <= j <= |t| && subs != [] && MatchSeq(subs, t, i, j)
    ensures i <= k <= j && Match(subs[0], t, i, k) && MatchSeq(subs[1..], t, k, j)
  {
    k :| i <= k <= j && Match(subs[0], t, i, k) && MatchSeq(subs[1..], t, k, j);
  }

  lemma SecondPart(subs: seq<Re>, t: string, i: nat, j: nat) returns (k: nat, k': nat)
    requires i <= j <= |t| && |subs| == 2 && MatchSeq(subs, t, i, j)
    ensures i <= k <= k' <= j && Match(subs[0], t, i, k) && Match(subs[1], t, k, k')
  {
    k := SplitFirst(subs, t, i, j);
    k' := SplitFirst(subs[1..], t, k, j);
  }

  lemma NoStartInside(subs: seq<Re>, t: string, i: nat, j: nat)
    requires i <= j <= |t| && |subs| == 2 && subs[0].Literal? && subs[0].runes != "" && subs[1] == BeginText
    ensures !MatchSeq(subs, t, i, j)
  {
    if MatchSeq(subs, t, i, j) {
      var k, k' := SecondPart(subs, t, i, j);
      assert false;
    }
  }
}
