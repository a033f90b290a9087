/** When the literal analysis knows what a match must contain, told from the
    shape of the expression alone, and what is in the sets it gives. */
module PrefilterNeeds {
  import opened Prefilter
  import opened PrefilterSoundness
  import opened PrefilterUse
  import opened Regexp
  import opened Strings

  // ----- the empty string among what is listed

  /** Whether the strings an expression spells out include the empty one. */
  ghost predicate ListsEmpty(re: Re)
    decreases re, 0
  {
    match re
    case Literal(runes, _) => runes == ""
    case Capture(sub) => ListsEmpty(sub)
    case Alternate(subs) => SomeListsEmpty(subs)
    case Concat(subs) => AllListEmpty(subs)
    case _ => true
  }

  ghost predicate SomeListsEmpty(subs: seq<Re>)
    decreases subs, 0
  {
    subs != [] && (ListsEmpty(subs[0]) || SomeListsEmpty(subs[1..]))
  }

  ghost predicate AllListEmpty(subs: seq<Re>)
    decreases subs, 0
  {
    subs == [] || (ListsEmpty(subs[0]) && AllListEmpty(subs[1..]))
  }

  lemma {:induction false} EmptyListed(re: Re)
    requires Literals(re).exact.Of?
    ensures "" in Literals(re).exact.elems <==> ListsEmpty(re)
    decreases re, 0
  {
    match re
    case Capture(sub) => EmptyListed(sub);
    case Quest(sub) =>
    case Alternate(subs) => EmptyAlternate(subs, NO_BRANCHES);
    case Concat(subs) => EmptyConcat(subs, NO_PARTS);
    case Literal(runes, _) =>
    case _ =>
  }

  lemma {:induction false} EmptyAlternate(subs: seq<Re>, st: Branches)
    requires AlternateInfo(subs, st).exact.Of?
    ensures "" in AlternateInfo(subs, st).exact.elems <==> (st.ex.Of? && "" in st.ex.elems) || SomeListsEmpty(subs)
    decreases subs, 0
  {
    if subs != [] {
      var c := Literals(subs[0]);
      AlternateNeedsExact(subs[1..], NextBranch(st, c));
      EmptyListed(subs[0]);
      EmptyAlternate(subs[1..], NextBranch(st, c));
    }
  }

  lemma CrossEmpty(a: seq<string>, b: seq<string>)
    ensures "" in Cross(a, b) <==> "" in a && "" in b
  {
    if "" in Cross(a, b) { var x, y := FromCross(a, b, ""); }
    if "" in a && "" in b {
      InCross(a, b, "", "");
      assert "" + "" == "";
    }
  }

  lemma {:induction false} EmptyConcat(subs: seq<Re>, st: Run)
    requires ConcatInfo(subs, st).exact.Of?
    ensures "" in ConcatInfo(subs, st).exact.elems <==> "" in st.cur && AllListEmpty(subs)
    decreases subs, 0
  {
    if subs != [] {
      var c := Literals(subs[0]);
      ConcatNeedsExact(subs[1..], NextPart(st, c));
      EmptyListed(subs[0]);
      CrossEmpty(st.cur, c.exact.elems);
      EmptyConcat(subs[1..], NextPart(st, c));
    }
  }

  // ----- when a required set is known

  /** Nothing known, or a set with or without the empty string. */
  datatype Shape = Unknown | Known(blank: bool)

  /** The shape of what an expression requires. */
  ghost function NeedShape(re: Re): Shape
    decreases re, 0
  {
    match re
    case Literal(runes, _) => Known(runes == "")
    case Capture(sub) => NeedShape(sub)
    case Plus(sub) => NeedOfShape(sub)
    case Repeat(sub, min, _) => if min >= 1 then NeedOfShape(sub) else Unknown
    case Alternate(subs) => if subs == [] then Unknown else BranchesShape(subs)
    case Concat(subs) => if RunNeeds(subs, 1, true) then Known(false) else Unknown
    case _ => Unknown
  }

  /** An expression whose list has no empty string requires its list. */
  ghost function NeedOfShape(re: Re): Shape
    decreases re, 1
  {
    if NeedShape(re).Known? then NeedShape(re)
    else if ListSize(re) > 0 && !ListsEmpty(re) then Known(false)
    else Unknown
  }

  /** An alternation requires something when each of its branches does. */
  ghost function BranchesShape(subs: seq<Re>): Shape
    decreases subs, 0
  {
    if subs == [] then Known(false)
    else
      match (NeedOfShape(subs[0]), BranchesShape(subs[1..]))
      case (Known(x), Known(y)) => Known(x || y)
      case _ => Unknown
  }

  /** A concatenation does when a run of joined parts has no empty string or a
      part that breaks a run requires something. The run so far lists n
      strings, the empty one among them or not. */
  ghost predicate RunNeeds(subs: seq<Re>, n: nat, empty: bool)
    decreases subs, 0
  {
    if subs == [] then !empty
    else
      var size := ListSize(subs[0]);
      if size > 0 && n * size <= 32 then RunNeeds(subs[1..], n * size, empty && ListsEmpty(subs[0]))
      else
        || !empty || NeedOfShape(subs[0]) == Known(false)
        || RunNeeds(subs[1..], if size > 0 then size else 1, size > 0 ==> ListsEmpty(subs[0]))
  }

  ghost predicate HasShape(s: Slice, shape: Shape)
  {
    match shape
    case Unknown => s.Nil?
    case Known(blank) => s.Of? && s.elems != [] && ("" in s.elems <==> blank)
  }

  /** Whether a required set is known, and whether the empty string spoils it,
      is told by the shape. */
  lemma {:induction false} NeedHasShape(re: Re)
    ensures HasShape(Literals(re).need, NeedShape(re))
    decreases re, 0
  {
    match re
    case Capture(sub) => NeedHasShape(sub);
    case Plus(sub) => NeedOfHasShape(sub);
    case Repeat(sub, min, _) => if min >= 1 { NeedOfHasShape(sub); }
    case Alternate(subs) => AlternateHasShape(subs, NO_BRANCHES, Known(false));
    case Concat(subs) => ConcatHasShape(subs, NO_PARTS);
    case Literal(runes, _) =>
    case _ =>
  }

  lemma {:induction false} NeedOfHasShape(re: Re)
    ensures HasShape(NeedOf(Literals(re)), NeedOfShape(re))
    decreases re, 1
  {
    NeedHasShape(re);
    ExactHasListSize(re);
    if Literals(re).exact.Of? { EmptyListed(re); }
  }

  ghost function Both(a: Shape, b: Shape): Shape
  {
    if a.Known? && b.Known? then Known(a.blank || b.blank) else Unknown
  }

  /** What the alternation loop has gathered. */
  ghost predicate Gathered(st: Branches, shape: Shape)
  {
    && (st.ndOK <==> shape.Known?)
    && (st.ndOK && st.nd.Of? ==> HasShape(st.nd, shape))
    && (st.ndOK && st.nd.Nil? ==> shape == Known(false))
  }

  lemma GatherMore(st: Branches, c: LitInfo, shape: Shape, more: Shape)
    requires Gathered(st, shape) && HasShape(NeedOf(c), more)
    ensures Gathered(NextBranch(st, c), Both(shape, more))
    ensures NextBranch(st, c).ndOK ==> NextBranch(st, c).nd.Of?
  {}

  lemma {:induction false} AlternateHasShape(subs: seq<Re>, st: Branches, shape: Shape)
    requires Gathered(st, shape)
    ensures HasShape(AlternateInfo(subs, st).need,
      if subs == [] && st.nd.Nil? then Unknown else Both(shape, BranchesShape(subs)))
    decreases subs, 0
  {
    hide HasShape, NeedOf;
    if subs == [] {
      NoneGathered(st, shape);
    } else {
      var c := Literals(subs[0]);
      NeedOfHasShape(subs[0]);
      GatherMore(st, c, shape, NeedOfShape(subs[0]));
      AlternateHasShape(subs[1..], NextBranch(st, c), Both(shape, NeedOfShape(subs[0])));
      hide NextBranch, Gathered;
    }
  }

  lemma NoneGathered(st: Branches, shape: Shape)
    requires Gathered(st, shape)
    ensures HasShape(FinishAlternate(st).need, if st.nd.Nil? then Unknown else shape)
  {}

  lemma ConsiderSelects(best: Slice, candidate: Slice)
    requires best.Nil? || Selects(best)
    ensures Consider(best, candidate).Of? <==> best.Of? || Selects(candidate)
    ensures Consider(best, candidate).Nil? || Selects(Consider(best, candidate))
  {
    hide Better;
  }

  lemma {:induction false} ConcatHasShape(subs: seq<Re>, st: Run)
    requires (st.best.Nil? || Selects(st.best)) && 1 <= |st.cur| <= 32
    ensures HasShape(ConcatInfo(subs, st).need,
      if st.best.Of? || RunNeeds(subs, |st.cur|, "" in st.cur) then Known(false) else Unknown)
    decreases subs, 0
  {
    if subs == [] {
      ConsiderSelects(st.best, Of(st.cur));
    } else {
      var c := Literals(subs[0]);
      ExactHasListSize(subs[0]);
      if c.exact.Of? { EmptyListed(subs[0]); }
      if Joins(st, c) {
        CrossSize(st.cur, c.exact.elems);
        CrossEmpty(st.cur, c.exact.elems);
        assert |st.cur| * |c.exact.elems| >= 1;
      } else {
        NeedOfHasShape(subs[0]);
        ConsiderSelects(st.best, Of(st.cur));
        ConsiderSelects(Consider(st.best, Of(st.cur)), NeedOf(c));
      }
      hide Cross, Consider, NeedOf;
      ConcatHasShape(subs[1..], NextPart(st, c));
    }
  }

  // ----- what is in the sets

  /** An alternation requires exactly what its branches do, if all do. */
  lemma AlternateNeedIs(subs: seq<Re>, s: string)
    ensures var need := Literals(Alternate(subs)).need;
      && (need.Of? <==> subs != [] && forall k :: 0 <= k < |subs| ==> NeedOf(Literals(subs[k])).Of?)
      && (need.Of? ==>
        (s in need.elems <==> exists k :: 0 <= k < |subs| && s in Elems(NeedOf(Literals(subs[k])))))
  {
    GatheredStrings(subs, NO_BRANCHES, s);
  }

  ghost function Elems(s: Slice): seq<string>
  {
    if s.Of? then s.elems else []
  }

  ghost predicate AllKnown(subs: seq<Re>)
  {
    forall k :: 0 <= k < |subs| ==> NeedOf(Literals(subs[k])).Of?
  }

  ghost predicate SomeHas(subs: seq<Re>, s: string)
  {
    exists k :: 0 <= k < |subs| && s in Elems(NeedOf(Literals(subs[k])))
  }

  lemma FirstBranch(subs: seq<Re>, s: string)
    requires subs != []
    ensures AllKnown(subs) <==> NeedOf(Literals(subs[0])).Of? && AllKnown(subs[1..])
    ensures SomeHas(subs, s) <==> s in Elems(NeedOf(Literals(subs[0]))) || SomeHas(subs[1..], s)
  {
    hide Literals, NeedOf;
    forall k | 0 < k < |subs|
      ensures subs[k] == subs[1..][k - 1]
    {}
    if AllKnown(subs[1..]) && NeedOf(Literals(subs[0])).Of? {
      forall k | 0 <= k < |subs|
        ensures NeedOf(Literals(subs[k])).Of?
      {
        if k > 0 { assert NeedOf(Literals(subs[1..][k - 1])).Of?; }
      }
    }
    if SomeHas(subs, s) {
      var k :| 0 <= k < |subs| && s in Elems(NeedOf(Literals(subs[k])));
      if k > 0 { assert s in Elems(NeedOf(Literals(subs[1..][k - 1]))); }
    }
    if SomeHas(subs[1..], s) {
      var k :| 0 <= k < |subs[1..]| && s in Elems(NeedOf(Literals(subs[1..][k])));
      assert s in Elems(NeedOf(Literals(subs[k + 1])));
    }
  }

  lemma {:induction false} GatheredStrings(subs: seq<Re>, st: Branches, s: string)
    requires st.nd.Of? ==> st.nd.elems != []
    ensures var need := AlternateInfo(subs, st).need;
      && (need.Of? <==> st.ndOK && AllKnown(subs) && (subs != [] || st.nd.Of?))
      && (need.Of? ==> (s in need.elems <==> s in Elems(st.nd) || SomeHas(subs, s)))
    decreases subs, 0
  {
    if subs != [] {
      var c := Literals(subs[0]);
      FirstBranch(subs, s);
      NeedOfHasShape(subs[0]);
      hide NeedOf, Literals;
      GatheredStrings(subs[1..], NextBranch(st, c), s);
    }
  }

  /** One or more of an expression requires what the expression does. */
  lemma RepeatedNeedIs(sub: Re, min: nat, max: int)
    ensures Literals(Plus(sub)).need == NeedOf(Literals(sub))
    ensures Literals(Repeat(sub, min, max)).need == if min >= 1 then NeedOf(Literals(sub)) else Nil
  {}

  /** What is worth checking: a known set of strings of three or more. */
  lemma NeedLiteralsIff(re: Re)
    ensures NeedLiterals(re).Of? <==>
      NeedOfShape(re).Known? && forall s :: s in Elems(NeedOf(Literals(re))) ==> |s| >= 3
    ensures NeedLiterals(re).Of? ==> NeedLiterals(re) == NeedOf(Literals(re))
  {
    NeedOfHasShape(re);
  }

  /** Two alternatives long enough are both required, one or the other. */
  lemma TwoLiterals(a: string, b: string)
    requires |a| >= 3 && |b| >= 3
    ensures NeedLiterals(Alternate([Literal(a, false), Literal(b, false)])) == Of([Lower(a), Lower(b)])
  {
    var x, y := Literal(a, false), Literal(b, false);
    assert [x, y][1..] == [y] && [y][1..] == [];
    var st := NextBranch(NO_BRANCHES, Literals(x));
    assert st.nd == Of([Lower(a)]);
    var st' := NextBranch(st, Literals(y));
    assert st'.nd == Of([Lower(a), Lower(b)]);
    assert AlternateInfo([x, y], NO_BRANCHES) == AlternateInfo([y], st) == AlternateInfo([], st');
  }

  lemma {:induction false} ClassesNeedNothing(subs: seq<Re>)
    requires forall k :: 0 <= k < |subs| ==> subs[k].CharClass?
    ensures !RunNeeds(subs, 1, true)
    ensures subs != [] ==> ListProduct(subs) == 0
  {
    if subs != [] {
      assert ListSize(subs[0]) == 0 && NeedOfShape(subs[0]) == Unknown;
      ClassesNeedNothing(subs[1..]);
    }
  }

  lemma FourDigitsNeed(re: Re)
    requires re.Concat? && |re.subs| == 4 && forall k :: 0 <= k < 4 ==> re.subs[k] == DIGITS
    ensures Literals(re).exact.Nil? && NeedOf(Literals(re)).Nil?
  {
    ExactHasListSize(re);
    NeedOfHasShape(re);
    ClassesNeedNothing(re.subs);
    assert ListSize(re) == 0;
    assert NeedShape(re) == Unknown;
    assert NeedOfShape(re) == Unknown;
  }

  lemma OneMorePart(subs: seq<Re>, st: Run, k: nat)
    requires k < |subs|
    ensures ConcatInfo(subs[k..], st) == ConcatInfo(subs[k + 1..], NextPart(st, Literals(subs[k])))
  {
    assert subs[k..][1..] == subs[k + 1..];
  }

  lemma JoinOne(x: string, y: string, best: Slice, c: LitInfo)
    requires c.exact == Of([y])
    ensures NextPart(Run([x], best, best.Nil?), c) == Run([x + y], best, best.Nil?)
  {
    CrossOne(x, y);
  }

  lemma BreakAfter(w: string, c: LitInfo)
    requires w != "" && c.exact.Nil? && NeedOf(c).Nil?
    ensures NextPart(Run([w], Nil, true), c) == Run([""], Of([w]), false)
  {}

  lemma KeepFirst(w: string, z: string)
    requires |w| == |z| == 1
    ensures FinishConcat(Run([z], Of([w]), false)) == LitInfo(Nil, Of([w]))
  {
    assert [w][..0] == [] && [z][..0] == [];
  }

  lemma PlainLiterals(sev: char)
    ensures Literals(WordBoundary).exact == Of([""])
    ensures Literals(Literal([sev], false)).exact == Of([Lower([sev])])
    ensures Literals(Literal(" ", false)).exact == Of([" "])
  {
    assert Lower(" ") == " ";
  }

  lemma FourPartsInfo(parts: seq<Re>)
    requires |parts| == 4
    ensures ConcatInfo(parts, NO_PARTS) ==
      FinishConcat(NextPart(NextPart(NextPart(NextPart(NO_PARTS,
        Literals(parts[0])), Literals(parts[1])), Literals(parts[2])), Literals(parts[3])))
  {
    hide Literals, NextPart, FinishConcat, ConcatInfo;
    assert parts[0..] == parts && parts[4..] == [];
    var one := NextPart(NO_PARTS, Literals(parts[0]));
    var two := NextPart(one, Literals(parts[1]));
    var three := NextPart(two, Literals(parts[2]));
    OneMorePart(parts, NO_PARTS, 0);
    OneMorePart(parts, one, 1);
    OneMorePart(parts, two, 2);
    OneMorePart(parts, three, 3);
    NoMoreParts(NextPart(three, Literals(parts[3])));
  }

  lemma ConcatLiterals(parts: seq<Re>)
    ensures Literals(Concat(parts)) == ConcatInfo(parts, NO_PARTS)
  {}

  /** All a klog header requires is the letter it starts with. */
  lemma KlogNeed(re: Re, sev: char)
    requires IsKlogRe(re, sev)
    ensures Literals(re) == LitInfo(Nil, Of([Lower([sev])]))
  {
    var w, digits := Lower([sev]), re.subs[2];
    ConcatLiterals(re.subs);
    FourPartsInfo(re.subs);
    FourDigitsNeed(digits);
    PlainLiterals(sev);
    hide *;
    assert re == Concat(re.subs);
    JoinOne("", "", Nil, Literals(WordBoundary));
    JoinOne("", w, Nil, Literals(Literal([sev], false)));
    BreakAfter(w, Literals(digits));
    JoinOne("", " ", Of([w]), Literals(Literal(" ", false)));
    assert "" + "" == "" && "" + w == w && "" + " " == " ";
    KeepFirst(w, " ");
  }

  lemma NoMoreParts(st: Run)
    ensures ConcatInfo([], st) == FinishConcat(st)
  {}

  lemma SecondHasNoList(subs: seq<Re>)
    requires |subs| >= 2 && Literals(subs[1]).exact.Nil?
    ensures Literals(Alternate(subs)).exact.Nil?
  {
    ExactHasListSize(subs[1]);
    ExactHasListSize(Alternate(subs));
    assert subs[1..][0] == subs[1];
    assert ListSum(subs[1..]) == 0;
    assert ListSum(subs) == 0;
    assert ListSize(Alternate(subs)) == 0;
  }

  /** Neither catch-all has literals worth checking: their header's letter is
      too short, so they need the hand-written conditions. */
  lemma CatchAllsHaveNoLiterals(re: Re)
    requires IsGenericError(re) || IsGenericWarn(re)
    ensures NeedLiterals(re).Nil?
  {
    hide IsKlogRe, Literals, NeedOf;
    var sev := if IsGenericError(re) then 'E' else 'W';
    var s := Lower([sev]);
    KlogNeed(re.subs[1], sev);
    SecondHasNoList(re.subs);
    NeedOfKnown(Literals(re.subs[1]));
    NeedOfKnown(Literals(re));
    AlternateNeedIs(re.subs, s);
    assert s in Elems(NeedOf(Literals(re.subs[1])));
    NeedLiteralsIff(re);
    assert re == Alternate(re.subs);
  }

  lemma NeedOfKnown(c: LitInfo)
    ensures c.need.Of? ==> NeedOf(c) == c.need
    ensures c.need.Nil? && c.exact.Nil? ==> NeedOf(c).Nil?
  {}
}
