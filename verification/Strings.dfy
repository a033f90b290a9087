/** Strings as the source uses them: ASCII lower-casing, substring search and
    the byte-wise order behind Go's string comparison and sorting. */
module Strings {

  predicate IsDigit(c: char) { '0' <= c <= '9' }

  function LowerChar(c: char): char
  {
    if 'A' <= c <= 'Z' then (c as int + 32) as char else c
  }

  function Lower(s: string): (r: string)
    ensures |r| == |s|
    ensures forall i :: 0 <= i < |s| ==> r[i] == LowerChar(s[i])
  {
    seq(|s|, i requires 0 <= i < |s| => LowerChar(s[i]))
  }

  /** Each capital letter becomes its small one, everything else stays. */
  lemma LowerSpelled(c: char)
    ensures var upper, lower := "ABCDEFGHIJKLMNOPQRSTUVWXYZ", "abcdefghijklmnopqrstuvwxyz";
      && (forall i :: 0 <= i < 26 && c == upper[i] ==> LowerChar(c) == lower[i])
      && (c !in upper ==> LowerChar(c) == c)
  {
    var upper := "ABCDEFGHIJKLMNOPQRSTUVWXYZ";
    if 'A' <= c <= 'Z' { assert c == upper[c as int - 'A' as int]; }
  }

  lemma LowerConcat(a: string, b: string)
    ensures Lower(a + b) == Lower(a) + Lower(b)
  {}

  lemma LowerSlice(s: string, i: nat, j: nat)
    requires i <= j <= |s|
    ensures Lower(s)[i..j] == Lower(s[i..j])
  {}

  predicate OccursAt(hay: string, needle: string, p: nat)
  {
    p + |needle| <= |hay| && hay[p..p + |needle|] == needle
  }

  /** strings.Contains */
  predicate Contains(hay: string, needle: string)
  {
    exists p: nat | p <= |hay| :: OccursAt(hay, needle, p)
  }

  /** Byte-wise lexicographic order, a proper prefix first. */
  predicate Less(a: string, b: string)
  {
    b != [] && (a == [] || a[0] < b[0] || (a[0] == b[0] && Less(a[1..], b[1..])))
  }

  predicate AtMost(a: string, b: string)
  {
    !Less(b, a)
  }

  lemma {:induction false} LessTrichotomy(a: string, b: string)
    ensures Less(a, b) || a == b || Less(b, a)
    ensures !(Less(a, b) && Less(b, a))
    ensures Less(a, b) ==> a != b
  {
    if a != [] && b != [] && a[0] == b[0] {
      LessTrichotomy(a[1..], b[1..]);
      assert a == [a[0]] + a[1..] && b == [b[0]] + b[1..];
    }
  }

  lemma {:induction false} LessTransitive(a: string, b: string, c: string)
    requires Less(a, b) && Less(b, c)
    ensures Less(a, c)
  {
    if a != [] && a[0] == b[0] == c[0] {
      LessTransitive(a[1..], b[1..], c[1..]);
    }
  }

  lemma AtMostTransitive(a: string, b: string, c: string)
    requires AtMost(a, b) && AtMost(b, c)
    ensures AtMost(a, c)
  {
    LessTrichotomy(a, b);
    LessTrichotomy(b, c);
    LessTrichotomy(a, c);
    if Less(c, a) {
      if a == b { assert false; }
      LessTransitive(c, a, b);
    }
  }

  // ----- trimming

  predicate HasPrefix(s: string, p: string) { p <= s }

  predicate HasSuffix(s: string, p: string) { |p| <= |s| && s[|s| - |p|..] == p }

  function TrimPrefix(s: string, p: string): string { if HasPrefix(s, p) then s[|p|..] else s }

  function TrimSuffix(s: string, p: string): string { if HasSuffix(s, p) then s[..|s| - |p|] else s }

  predicate IsSpace(c: char) { c == ' ' || '\t' <= c <= '\r' }

  /** The white space of ASCII. */
  lemma SpaceSpelled(c: char)
    ensures IsSpace(c) <==> c in " \t\n\r" || c as int == 11 || c as int == 12
  {}

  /** The part of s that strings.TrimSpace keeps starts at lo and ends at hi. */
  ghost predicate TrimsTo(s: string, lo: nat, hi: nat)
  {
    && lo <= hi <= |s|
    && (forall i :: 0 <= i < lo || hi <= i < |s| ==> IsSpace(s[i]))
    && (lo < hi ==> !IsSpace(s[lo]) && !IsSpace(s[hi - 1]))
  }

  /** strings.TrimSpace */
  function TrimSpace(s: string): string
    decreases |s|
  {
    if s == "" then ""
    else if IsSpace(s[0]) then TrimSpace(s[1..])
    else if IsSpace(s[|s| - 1]) then TrimSpace(s[..|s| - 1])
    else s
  }

  lemma {:induction false} TrimSpan(s: string) returns (lo: nat, hi: nat)
    ensures TrimsTo(s, lo, hi) && TrimSpace(s) == s[lo..hi]
    decreases |s|
  {
    if s == "" {
      lo, hi := 0, 0;
    } else if IsSpace(s[0]) {
      lo, hi := TrimSpan(s[1..]);
      assert s[1..][lo..hi] == s[lo + 1..hi + 1];
      lo, hi := lo + 1, hi + 1;
    } else if IsSpace(s[|s| - 1]) {
      lo, hi := TrimSpan(s[..|s| - 1]);
    } else {
      lo, hi := 0, |s|;
    }
  }

  ghost predicate Blank(s: string) { forall c :: c in s ==> IsSpace(c) }

  /** Text whose ends are no blanks is what is left of it between blanks. */
  lemma TrimBlanks(front: string, core: string, back: string)
    requires Blank(front) && Blank(back) && core != "" && !IsSpace(core[0]) && !IsSpace(core[|core| - 1])
    ensures TrimSpace(front + core + back) == core
  {
    var s := front + core + back;
    var a, b := |front|, |front| + |core|;
    assert s[a] == core[0] && s[b - 1] == core[|core| - 1] && s[a..b] == core;
    assert forall i :: 0 <= i < a ==> s[i] == front[i] && front[i] in front;
    assert forall i :: b <= i < |s| ==> s[i] == back[i - b] && back[i - b] in back;
    var lo, hi := TrimSpan(s);
    assert lo <= a && b <= hi;
    assert lo < hi;
    assert lo == a && hi == b;
  }
}
