/** The literal prefilter: for a regular expression, the short list of strings
    it can match (exact) and a set of strings one of which every match must
    contain (need). */
module Prefilter {
  import opened Strings
  import opened Regexp

  const MIN_NEED := 3
  const MAX_EXACT := 32

  /** A Go slice of strings; the nil slice means "nothing known". */
  datatype Slice = Nil | Of(elems: seq<string>)

  datatype LitInfo = LitInfo(exact: Slice, need: Slice)

  const UNKNOWN := LitInfo(Nil, Nil)

  /** append(s, more...): appending nothing to the nil slice leaves it nil. */
  function Append(s: Slice, more: seq<string>): Slice
  {
    match s
    case Nil => if more == [] then Nil else Of(more)
    case Of(elems) => Of(elems + more)
  }

  predicate Usable(lits: Slice)
  {
    lits.Of? && lits.elems != [] && "" !in lits.elems
  }

  function NeedOf(c: LitInfo): Slice
  {
    if c.need.Of? then c.need
    else if Usable(c.exact) then c.exact
    else Nil
  }

  function Length(s: Slice): nat
  {
    if s.Nil? then 0 else |s.elems|
  }

  /** Length of the shortest string, -1 for an empty list. */
  function Shortest(strs: seq<string>): int
  {
    if strs == [] then -1
    else
      var rest := Shortest(strs[..|strs| - 1]);
      var last := |strs[|strs| - 1]|;
      if rest < 0 || last < rest then last else rest
  }

  predicate Better(a: Slice, b: Slice)
    requires a.Of? && b.Of?
  {
    var ma, mb := Shortest(a.elems), Shortest(b.elems);
    if ma != mb then ma > mb else |a.elems| < |b.elems|
  }

  /** Every x in a followed by every y in b. */
  function Cross(a: seq<string>, b: seq<string>): seq<string>
  {
    if a == [] then [] else Cross(a[..|a| - 1], b) + Prefixed(a[|a| - 1], b)
  }

  function Prefixed(x: string, b: seq<string>): (r: seq<string>)
    ensures |r| == |b|
  {
    seq(|b|, k requires 0 <= k < |b| => x + b[k])
  }

  /** The local state of the concatenation loop. */
  datatype Run = Run(cur: seq<string>, best: Slice, allExact: bool)

  function Consider(best: Slice, candidate: Slice): Slice
  {
    if Usable(candidate) && (best.Nil? || Better(candidate, best)) then candidate else best
  }

  /** The next part still joins the current run of exact parts. */
  predicate Joins(st: Run, c: LitInfo)
  {
    c.exact.Of? && |st.cur| * |c.exact.elems| <= MAX_EXACT
  }

  function NextPart(st: Run, c: LitInfo): Run
  {
    if Joins(st, c) then st.(cur := Cross(st.cur, c.exact.elems))
    else Run(
      if c.exact.Of? then c.exact.elems else [""],
      Consider(Consider(st.best, Of(st.cur)), NeedOf(c)),
      false)
  }

  function FinishConcat(st: Run): LitInfo
  {
    var best := Consider(st.best, Of(st.cur));
    LitInfo(if st.allExact then Of(st.cur) else Nil, best)
  }

  /** The local state of the alternation loop. */
  datatype Branches = Branches(ex: Slice, nd: Slice, exOK: bool, ndOK: bool)

  function NextBranch(st: Branches, c: LitInfo): Branches
  {
    var n := NeedOf(c);
    Branches(
      if c.exact.Nil? then st.ex else Append(st.ex, c.exact.elems),
      if n.Nil? then st.nd else Append(st.nd, n.elems),
      st.exOK && c.exact.Of?,
      st.ndOK && n.Of?)
  }

  function FinishAlternate(st: Branches): LitInfo
  {
    LitInfo(
      if st.exOK && Length(st.ex) <= MAX_EXACT then st.ex else Nil,
      if st.ndOK then st.nd else Nil)
  }

  const NO_PARTS := Run([""], Nil, true)
  const NO_BRANCHES := Branches(Nil, Nil, true, true)

  function Literals(re: Re): LitInfo
    decreases re, 0
  {
    match re
    case Literal(runes, _) => LitInfo(Of([Lower(runes)]), Of([Lower(runes)]))
    case EmptyMatch => LitInfo(Of([""]), Nil)
    case BeginLine => LitInfo(Of([""]), Nil)
    case EndLine => LitInfo(Of([""]), Nil)
    case BeginText => LitInfo(Of([""]), Nil)
    case EndText => LitInfo(Of([""]), Nil)
    case WordBoundary => LitInfo(Of([""]), Nil)
    case NoWordBoundary => LitInfo(Of([""]), Nil)
    case Capture(sub) => Literals(sub)
    case Quest(sub) => QuestInfo(Literals(sub))
    case Plus(sub) => LitInfo(Nil, NeedOf(Literals(sub)))
    case Repeat(sub, min, _) => if min >= 1 then LitInfo(Nil, NeedOf(Literals(sub))) else UNKNOWN
    case Alternate(subs) => AlternateInfo(subs, NO_BRANCHES)
    case Concat(subs) => ConcatInfo(subs, NO_PARTS)
    case _ => UNKNOWN
  }

  function QuestInfo(c: LitInfo): LitInfo
  {
    if c.exact.Of? && |c.exact.elems| < MAX_EXACT
    then LitInfo(Of([""] + c.exact.elems), Nil)
    else UNKNOWN
  }

  function ConcatInfo(subs: seq<Re>, st: Run): LitInfo
    decreases subs, 0
  {
    if subs == [] then FinishConcat(st)
    else ConcatInfo(subs[1..], NextPart(st, Literals(subs[0])))
  }

  function AlternateInfo(subs: seq<Re>, st: Branches): LitInfo
    decreases subs, 0
  {
    if subs == [] then FinishAlternate(st)
    else AlternateInfo(subs[1..], NextBranch(st, Literals(subs[0])))
  }

  /** What a match must contain one of, when that is worth checking. */
  function NeedLiterals(re: Re): Slice
  {
    var lits := NeedOf(Literals(re));
    if lits.Of? && exists s | s in lits.elems :: |s| < MIN_NEED then Nil else lits
  }

  // ----- the loops of the source, each proved to compute the function above

  method ComputeShortest(strs: seq<string>) returns (m: int)
    ensures m == Shortest(strs)
  {
    m := -1;
    for k := 0 to |strs|
      invariant m == Shortest(strs[..k])
    {
      assert strs[..k + 1][..k] == strs[..k];
      if m < 0 || |strs[k]| < m {
        m := |strs[k]|;
      }
    }
    assert strs[..|strs|] == strs;
  }

  method ComputeCross(a: seq<string>, b: seq<string>) returns (out: seq<string>)
    ensures out == Cross(a, b)
  {
    out := [];
    for i := 0 to |a|
      invariant out == Cross(a[..i], b)
    {
      for j := 0 to |b|
        invariant out == Cross(a[..i], b) + Prefixed(a[i], b)[..j]
      {
        out := out + [a[i] + b[j]];
      }
      assert a[..i + 1][..i] == a[..i];
    }
    assert a[..|a|] == a;
  }

  method ComputeBetter(a: Slice, b: Slice) returns (r: bool)
    requires a.Of? && b.Of?
    ensures r == Better(a, b)
  {
    var ma := ComputeShortest(a.elems);
    var mb := ComputeShortest(b.elems);
    if ma != mb {
      return ma > mb;
    }
    return |a.elems| < |b.elems|;
  }

  method ComputeConsider(best: Slice, candidate: Slice) returns (r: Slice)
    ensures r == Consider(best, candidate)
  {
    r := best;
    if Usable(candidate) {
      if best.Nil? {
        r := candidate;
      } else {
        var b := ComputeBetter(candidate, best);
        if b { r := candidate; }
      }
    }
  }

  /** The recursive analysis with its two loops over sub-expressions. */
  method ComputeLiterals(re: Re) returns (c: LitInfo)
    ensures c == Literals(re)
    decreases re
  {
    match re {
      case Literal(runes, _) =>
        var s := Lower(runes);
        c := LitInfo(Of([s]), Of([s]));
      case EmptyMatch | BeginLine | EndLine | BeginText | EndText | WordBoundary | NoWordBoundary =>
        c := LitInfo(Of([""]), Nil);
      case Capture(sub) =>
        c := ComputeLiterals(sub);
      case Quest(sub) =>
        c := ComputeLiterals(sub);
        if c.exact.Of? && |c.exact.elems| < MAX_EXACT {
          c := LitInfo(Of([""] + c.exact.elems), Nil);
        } else {
          c := UNKNOWN;
        }
      case Plus(sub) =>
        c := ComputeLiterals(sub);
        c := LitInfo(Nil, NeedOf(c));
      case Repeat(sub, min, max) =>
        c := UNKNOWN;
        if min >= 1 {
          c := ComputeLiterals(sub);
          c := LitInfo(Nil, NeedOf(c));
        }
      case Alternate(subs) =>
        c := ComputeAlternate(subs, re);
      case Concat(subs) =>
        c := ComputeConcat(subs, re);
      case NoMatch | CharClass(_) | AnyCharNotNL | AnyChar | Star(_) =>
        c := UNKNOWN;
    }
  }

  method ComputeAlternate(subs: seq<Re>, ghost re: Re) returns (c: LitInfo)
    requires re == Alternate(subs)
    ensures c == AlternateInfo(subs, NO_BRANCHES)
    decreases re, 0
  {
    var ex, nd, exOK, ndOK := Nil, Nil, true, true;
    for k := 0 to |subs|
      invariant AlternateInfo(subs[k..], Branches(ex, nd, exOK, ndOK)) == AlternateInfo(subs, NO_BRANCHES)
    {
      assert subs[k] in subs && subs[k..][1..] == subs[k + 1..];
      var sub := ComputeLiterals(subs[k]);
      if sub.exact.Nil? {
        exOK := false;
      } else {
        ex := Append(ex, sub.exact.elems);
      }
      var n := NeedOf(sub);
      if n.Nil? {
        ndOK := false;
      } else {
        nd := Append(nd, n.elems);
      }
    }
    c := UNKNOWN;
    if exOK && Length(ex) <= MAX_EXACT {
      c := c.(exact := ex);
    }
    if ndOK {
      c := c.(need := nd);
    }
  }

  method ComputeConcat(subs: seq<Re>, ghost re: Re) returns (c: LitInfo)
    requires re == Concat(subs)
    ensures c == ConcatInfo(subs, NO_PARTS)
    decreases re, 0
  {
    var cur, best, allExact := [""], Nil, true;
    for k := 0 to |subs|
      invariant ConcatInfo(subs[k..], Run(cur, best, allExact)) == ConcatInfo(subs, NO_PARTS)
    {
      assert subs[k] in subs && subs[k..][1..] == subs[k + 1..];
      var sub := ComputeLiterals(subs[k]);
      if sub.exact.Of? && |cur| * |sub.exact.elems| <= MAX_EXACT {
        cur := ComputeCross(cur, sub.exact.elems);
        continue;
      }
      allExact := false;
      best := ComputeConsider(best, Of(cur));
      best := ComputeConsider(best, NeedOf(sub));
      cur := [""];
      if sub.exact.Of? {
        cur := sub.exact.elems;
      }
    }
    best := ComputeConsider(best, Of(cur));
    c := LitInfo(if allExact then Of(cur) else Nil, best);
  }
}
