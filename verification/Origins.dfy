/** When two charts are taken to come from the same place: links that differ
    in case, scheme, surrounding blanks, a trailing slash or ".git" are one. */
module Origins {
  import opened BestVersion
  import opened Common
  import opened Strings

  /** The address a link is about: small letters, no scheme, no ending. */
  ghost predicate Address(b: string)
  {
    && b != "" && Lower(b) == b && !IsSpace(b[0]) && !IsSpace(b[|b| - 1])
    && !HasSuffix(b, "/") && !HasSuffix(b, ".git")
  }

  /** scheme + text + ending is a way to write the address b. */
  ghost predicate Spelling(scheme: string, text: string, ending: string, b: string)
  {
    && Lower(scheme) in {"", "http://", "https://"} && Lower(text) == b && Lower(ending) in {"", "/", ".git", ".git/"}
    && !HasPrefix(b + Lower(ending), "http://") && !HasPrefix(b + Lower(ending), "https://")
  }

  /** link is about the address b. */
  ghost predicate Links(link: string, b: string)
  {
    Address(b) && exists front, scheme, text, ending, back ::
      Blank(front) && Blank(back) && Spelling(scheme, text, ending, b)
      && link == front + (scheme + text + ending) + back
  }

  lemma LowerKeepsSpaces(s: string, i: nat)
    requires i < |s|
    ensures IsSpace(Lower(s)[i]) <==> IsSpace(s[i])
  {}

  lemma EndsAreNoBlanks(scheme: string, text: string, ending: string, b: string)
    requires Address(b) && Spelling(scheme, text, ending, b)
    ensures var core := scheme + text + ending;
      && core != "" && !IsSpace(core[0]) && !IsSpace(core[|core| - 1])
      && Lower(core) == Lower(scheme) + b + Lower(ending)
  {
    var core := scheme + text + ending;
    LowerConcat(scheme + text, ending);
    LowerConcat(scheme, text);
    LowerKeepsSpaces(core, 0);
    LowerKeepsSpaces(core, |core| - 1);
    var low := Lower(scheme) + b + Lower(ending);
    assert low == Lower(core);
    assert low[0] == if Lower(scheme) == "" then b[0] else 'h';
    assert Lower(ending) != "" ==> low[|low| - 1] == Lower(ending)[|ending| - 1];
  }

  lemma DropScheme(scheme: string, rest: string)
    requires scheme in {"", "http://", "https://"}
    requires !HasPrefix(rest, "http://") && !HasPrefix(rest, "https://")
    ensures TrimPrefix(TrimPrefix(scheme + rest, "https://"), "http://") == rest
  {
    var s := scheme + rest;
    if scheme == "https://" {
      assert s[|scheme|..] == rest;
    } else if scheme == "http://" {
      assert s[4] == ':' && s[|scheme|..] == rest;
      assert !HasPrefix(s, "https://");
    } else {
      assert s == rest;
    }
  }

  lemma DropEnding(b: string, ending: string)
    requires ending in {"", "/", ".git", ".git/"} && !HasSuffix(b, "/") && !HasSuffix(b, ".git")
    ensures TrimSuffix(TrimSuffix(b + ending, "/"), ".git") == b
  {
    var s := b + ending;
    if ending == "" {
      assert s == b;
    } else if ending == "/" {
      assert s[|b|..] == "/" && s[..|b|] == b;
    } else if ending == ".git" {
      assert s[|s| - 1] == 't' && s[|s| - 1..] != "/";
      assert s[|b|..] == ".git" && s[..|b|] == b;
    } else {
      assert s[|s| - 1..] == "/" && s[..|s| - 1] == b + ".git";
      var t := b + ".git";
      assert t[|b|..] == ".git" && t[..|b|] == b;
    }
  }

  /** A link is normalized to the address it is about. */
  lemma NormOfLink(link: string, b: string)
    requires Links(link, b)
    ensures Norm(link) == b
  {
    var front, scheme, text, ending, back :| Blank(front) && Blank(back) && Spelling(scheme, text, ending, b)
      && link == front + (scheme + text + ending) + back;
    EndsAreNoBlanks(scheme, text, ending, b);
    TrimBlanks(front, scheme + text + ending, back);
    assert Lower(scheme) + b + Lower(ending) == Lower(scheme) + (b + Lower(ending));
    hide Blank, Spelling, Lower, TrimSpace;
    DropScheme(Lower(scheme), b + Lower(ending));
    DropEnding(b, Lower(ending));
  }

  /** The link is about address.value, or is empty. */
  ghost predicate IsAbout(link: string, address: Option<string>)
  {
    if address.Some? then link != "" && Links(link, address.value) else link == ""
  }

  ghost predicate AreAbout(links: seq<string>, addresses: seq<Option<string>>)
  {
    |links| == |addresses| && forall i :: 0 <= i < |links| ==> IsAbout(links[i], addresses[i])
  }

  lemma NormIs(link: string, address: Option<string>)
    requires IsAbout(link, address)
    ensures Norm(link) == (if address.Some? then address.value else "")
    ensures address.Some? ==> address.value != ""
    ensures address.None? <==> link == ""
  {
    hide Norm;
    if address.Some? {
      NormOfLink(link, address.value);
    } else {
      assert Norm("") == "" by { NormOfNothing(); }
    }
  }

  lemma NormOfNothing()
    ensures Norm("") == ""
  {}

  /** An entry is of a release's origin exactly when their home pages or some
      of their sources are about one address; empty links do not count. */
  lemma SameOriginIff(e: IndexEntry, r: Release, eHome: Option<string>, rHome: Option<string>,
      eFrom: seq<Option<string>>, rFrom: seq<Option<string>>)
    requires IsAbout(e.home, eHome) && IsAbout(r.home, rHome)
    requires AreAbout(e.sources, eFrom) && AreAbout(r.sources, rFrom)
    ensures SameOrigin(e, r) <==>
      || (eHome.Some? && eHome == rHome)
      || exists i, j :: 0 <= i < |eFrom| && 0 <= j < |rFrom| && eFrom[i].Some? && eFrom[i] == rFrom[j]
  {
    hide IsAbout, Norm;
    NormIs(e.home, eHome);
    NormIs(r.home, rHome);
    forall i | 0 <= i < |eFrom|
      ensures Norm(e.sources[i]) == if eFrom[i].Some? then eFrom[i].value else ""
    {
      NormIs(e.sources[i], eFrom[i]);
    }
    forall j | 0 <= j < |rFrom|
      ensures rFrom[j].None? <==> r.sources[j] == ""
      ensures rFrom[j].Some? ==> Norm(r.sources[j]) == rFrom[j].value && rFrom[j].value != ""
    {
      NormIs(r.sources[j], rFrom[j]);
    }
    if i, j :| 0 <= i < |eFrom| && 0 <= j < |rFrom| && eFrom[i].Some? && eFrom[i] == rFrom[j] {
      assert r.sources[j] in r.sources && e.sources[i] in e.sources;
    }
  }

  /** A recorded repository counts when it is an http or https URL, without the
      blanks around it and one trailing slash. */
  lemma RepoURLOf(front: string, u: string, back: string)
    requires Blank(front) && Blank(back) && u != "" && !IsSpace(u[0]) && !IsSpace(u[|u| - 1])
    ensures RepoURL(front + u + back) ==
      if "http://" <= u || "https://" <= u then (if u[|u| - 1] == '/' then u[..|u| - 1] else u) else ""
  {
    TrimBlanks(front, u, back);
    hide TrimSpace;
    assert HasSuffix(u, "/") <==> u[|u| - 1] == '/' by { assert u[|u| - 1..] == [u[|u| - 1]]; }
  }
}
