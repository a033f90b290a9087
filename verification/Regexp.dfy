/** Simplified regular expressions and what it means for one to match the
    span t[i..j] of a text. Spans keep the text around a match visible, so the
    zero-width assertions have the context they look at. Folding is ASCII. */
module Regexp {
  import opened Strings

  datatype Re =
    | NoMatch
    | EmptyMatch
    | Literal(runes: string, foldCase: bool)
    | CharClass(chars: set<char>)
    | AnyCharNotNL
    | AnyChar
    | BeginLine
    | EndLine
    | BeginText
    | EndText
    | WordBoundary
    | NoWordBoundary
    | Capture(sub: Re)
    | Star(sub: Re)
    | Plus(sub: Re)
    | Quest(sub: Re)
    | Repeat(sub: Re, min: nat, max: int) // max -1: no upper bound
    | Concat(subs: seq<Re>)
    | Alternate(subs: seq<Re>)

  predicate IsWord(c: char)
  {
    IsDigit(c) || c == '_' || 'a' <= c <= 'z' || 'A' <= c <= 'Z'
  }

  /** Digits, the underscore and the letters, small and capital. */
  lemma WordSpelled(c: char)
    ensures IsWord(c) <==> c in "0123456789_" || LowerChar(c) in "abcdefghijklmnopqrstuvwxyz"
  {
    var digits, letters := "0123456789_", "abcdefghijklmnopqrstuvwxyz";
    var d := LowerChar(c);
    if IsDigit(c) { assert c == digits[c as int - '0' as int]; }
    if c == '_' { assert c == digits[10]; }
    if 'a' <= d <= 'z' { assert d == letters[d as int - 'a' as int]; }
  }

  predicate AtBoundary(t: string, i: nat)
    requires i <= |t|
  {
    (i > 0 && IsWord(t[i - 1])) != (i < |t| && IsWord(t[i]))
  }

  ghost predicate Match(re: Re, t: string, i: nat, j: nat)
    requires i <= j <= |t|
    decreases re, 0
  {
    match re
    case NoMatch => false
    case EmptyMatch => i == j
    case Literal(runes, fold) =>
      j - i == |runes| && (if fold then Lower(t[i..j]) == Lower(runes) else t[i..j] == runes)
    case CharClass(chars) => j == i + 1 && t[i] in chars
    case AnyCharNotNL => j == i + 1 && t[i] != '\n'
    case AnyChar => j == i + 1
    case BeginLine => i == j && (i == 0 || t[i - 1] == '\n')
    case EndLine => i == j && (i == |t| || t[i] == '\n')
    case BeginText => i == j == 0
    case EndText => i == j == |t|
    case WordBoundary => i == j && AtBoundary(t, i)
    case NoWordBoundary => i == j && !AtBoundary(t, i)
    case Capture(sub) => Match(sub, t, i, j)
    case Star(sub) => exists n: nat :: MatchTimes(sub, n, t, i, j)
    case Plus(sub) => exists n: nat :: n >= 1 && MatchTimes(sub, n, t, i, j)
    case Quest(sub) => i == j || Match(sub, t, i, j)
    case Repeat(sub, min, max) =>
      exists n: nat :: min <= n && (max < 0 || n <= max) && MatchTimes(sub, n, t, i, j)
    case Concat(subs) => MatchSeq(subs, t, i, j)
    case Alternate(subs) => exists k :: 0 <= k < |subs| && Match(subs[k], t, i, j)
  }

  /** n matches of sub, one after the other. */
  ghost predicate MatchTimes(sub: Re, n: nat, t: string, i: nat, j: nat)
    requires i <= j <= |t|
    decreases sub, n + 1
  {
    if n == 0 then i == j
    else exists k: nat :: i <= k <= j && Match(sub, t, i, k) && MatchTimes(sub, n - 1, t, k, j)
  }

  /** One match of each of subs, one after the other. */
  ghost predicate MatchSeq(subs: seq<Re>, t: string, i: nat, j: nat)
    requires i <= j <= |t|
    decreases subs, 0
  {
    if subs == [] then i == j
    else exists k: nat :: i <= k <= j && Match(subs[0], t, i, k) && MatchSeq(subs[1..], t, k, j)
  }

  /** The unanchored search MatchString does. */
  ghost predicate Search(re: Re, t: string)
  {
    exists i: nat, j: nat :: i <= j <= |t| && Match(re, t, i, j)
  }
}
