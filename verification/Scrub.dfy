/** Scrubbing a JSON tree before it is bundled: what must not leave the
    cluster is dropped or masked wherever it sits, and nothing else changes. */
module Scrub {
  import opened Regexp
  import opened Strings

  datatype JSON =
    | Null
    | Bool(b: bool)
    | Num(n: real)
    | Str(s: string)
    | Arr(items: seq<JSON>)
    | Obj(fields: map<string, JSON>)

  const MANAGED := "managedFields"
  const ANNOTATIONS := "annotations"
  const LAST_APPLIED := "kubectl.kubernetes.io/last-applied-configuration"
  const VALUES := "ValuesYAML"
  const ENV := "env"
  const NAME := "name"
  const VALUE := "value"
  const NOT_COLLECTED := "<not collected>"
  const MASKED := "<masked>"

  const CREDENTIAL_WORDS := ["pass", "secret", "token", "key", "cred", "auth", "private"]

  predicate IsCredName(name: string)
  {
    exists w | w in CREDENTIAL_WORDS :: Contains(Lower(name), w)
  }

  lemma FoldedLiteral(w: string, name: string)
    requires Lower(w) == w
    ensures Contains(Lower(name), w) <==> Search(Literal(w, true), name)
  {
    if Contains(Lower(name), w) {
      var p: nat :| p <= |name| && OccursAt(Lower(name), w, p);
      LowerSlice(name, p, p + |w|);
      assert Match(Literal(w, true), name, p, p + |w|);
    }
    if i: nat, j: nat :| i <= j <= |name| && Match(Literal(w, true), name, i, j) {
      LowerSlice(name, i, j);
      assert i <= |Lower(name)| && OccursAt(Lower(name), w, i);
    }
  }

  lemma SearchAlternate(subs: seq<Re>, t: string)
    ensures Search(Alternate(subs), t) <==> exists k :: 0 <= k < |subs| && Search(subs[k], t)
  {
    if i: nat, j: nat :| i <= j <= |t| && Match(Alternate(subs), t, i, j) {
      var k :| 0 <= k < |subs| && Match(subs[k], t, i, j);
      assert Search(subs[k], t);
    }
    if k :| 0 <= k < |subs| && Search(subs[k], t) {
      var i: nat, j: nat :| i <= j <= |t| && Match(subs[k], t, i, j);
      assert Match(Alternate(subs), t, i, j);
    }
  }

  function Folded(words: seq<string>): (subs: seq<Re>)
    ensures |subs| == |words| && forall k :: 0 <= k < |words| ==> subs[k] == Literal(words[k], true)
  {
    seq(|words|, k requires 0 <= k < |words| => Literal(words[k], true))
  }

  lemma SearchWords(words: seq<string>, name: string)
    requires forall k :: 0 <= k < |words| ==> Lower(words[k]) == words[k]
    ensures Search(Alternate(Folded(words)), name) <==> exists w :: w in words && Contains(Lower(name), w)
  {
    SearchAlternate(Folded(words), name);
    forall k | 0 <= k < |words|
      ensures Contains(Lower(name), words[k]) <==> Search(Folded(words)[k], name)
    {
      FoldedLiteral(words[k], name);
    }
    hide Search, Contains, Lower;
  }

  /** (?i)pass|secret|token|key|cred|auth|private */
  ghost const CRED_RE := Alternate(Folded(["pass", "secret", "token", "key", "cred", "auth", "private"]))

  lemma LowerWords()
    ensures forall k :: 0 <= k < |CREDENTIAL_WORDS| ==> Lower(CREDENTIAL_WORDS[k]) == CREDENTIAL_WORDS[k]
  {}

  /** The names that count as credentials are those the expression finds. */
  lemma CredNameIff(name: string)
    ensures IsCredName(name) <==>
      Search(Alternate(Folded(["pass", "secret", "token", "key", "cred", "auth", "private"])), name)
  {
    LowerWords();
    SearchWords(CREDENTIAL_WORDS, name);
    hide Lower, Search, Contains, Folded;
  }

  // ----- what an object does to its own entries

  /** An env entry that names a credential and gives its value in place. */
  predicate HoldsCredential(e: map<string, JSON>)
  {
    VALUE in e && IsCredName(if NAME in e && e[NAME].Str? then e[NAME].s else "")
  }

  function MaskEntry(v: JSON): JSON
  {
    if v.Obj? && HoldsCredential(v.fields) then Obj(v.fields[VALUE := Str(MASKED)]) else v
  }

  /** Where a value stands, as far as its parent treats it specially. */
  datatype Place = Plain | Annotations | Values | EnvList | EnvEntry

  function PlaceOf(key: string): Place
  {
    if key == ANNOTATIONS then Annotations
    else if key == VALUES then Values
    else if key == ENV then EnvList
    else Plain
  }

  /** The parent's edit of a value. */
  function Edit(place: Place, v: JSON): JSON
  {
    match place
    case Plain => v
    case Annotations => if v.Obj? then Obj(v.fields - {LAST_APPLIED}) else v
    case Values => if v.Str? && v.s != "" then Str(NOT_COLLECTED) else v
    case EnvList => if v.Arr? then Arr(seq(|v.items|, i requires 0 <= i < |v.items| => MaskEntry(v.items[i]))) else v
    case EnvEntry => MaskEntry(v)
  }

  function EditFields(f: map<string, JSON>): map<string, JSON>
  {
    map k | k in f && k != MANAGED :: Edit(PlaceOf(k), f[k])
  }

  lemma KeysDiffer()
    ensures |MANAGED| == 13 && |ANNOTATIONS| == 11 && |VALUES| == 10 && |ENV| == 3 && |NAME| == 4 && |VALUE| == 5
  {}

  // ----- depth, for termination: editing never makes a tree deeper

  ghost function Max(s: set<nat>): (m: nat)
    ensures forall x :: x in s ==> x <= m
    ensures m == 0 || m in s
  {
    if s == {} then 0
    else
      var x :| x in s;
      var rest := Max(s - {x});
      assert s == (s - {x}) + {x};
      if x >= rest then x else rest
  }

  ghost function Depth(v: JSON): nat
    decreases v, 1
  {
    match v
    case Arr(_) => 1 + Max(ItemDepths(v))
    case Obj(_) => 1 + Max(FieldDepths(v))
    case _ => 0
  }

  ghost function ItemDepths(v: JSON): set<nat>
    requires v.Arr?
    decreases v, 0
  {
    set i | 0 <= i < |v.items| :: Depth(v.items[i])
  }

  ghost function FieldDepths(v: JSON): set<nat>
    requires v.Obj?
    decreases v, 0
  {
    set k | k in v.fields :: Depth(v.fields[k])
  }

  lemma ItemDepth(items: seq<JSON>, i: nat)
    requires i < |items|
    ensures Depth(items[i]) < Depth(Arr(items))
  {
    assert Depth(items[i]) in ItemDepths(Arr(items));
  }

  lemma FieldDepth(f: map<string, JSON>, k: string)
    requires k in f
    ensures Depth(f[k]) < Depth(Obj(f))
  {
    assert Depth(f[k]) in FieldDepths(Obj(f));
  }

  lemma ShallowerFields(f: map<string, JSON>, g: map<string, JSON>)
    requires forall k :: k in g ==> k in f && Depth(g[k]) <= Depth(f[k])
    ensures Depth(Obj(g)) <= Depth(Obj(f))
  {
    forall x | x in FieldDepths(Obj(g))
      ensures x < Depth(Obj(f))
    {
      var k :| k in g && x == Depth(g[k]);
      FieldDepth(f, k);
    }
  }

  lemma MaskedDepth(v: JSON)
    ensures Depth(MaskEntry(v)) <= Depth(v)
  {
    if v.Obj? {
      ShallowerFields(v.fields, if HoldsCredential(v.fields) then v.fields[VALUE := Str(MASKED)] else v.fields);
    }
  }

  lemma EditedDepth(place: Place, v: JSON)
    ensures Depth(Edit(place, v)) <= Depth(v)
  {
    MaskedDepth(v);
    if place == Annotations && v.Obj? { ShallowerFields(v.fields, v.fields - {LAST_APPLIED}); }
    if place == EnvList && v.Arr? {
      var masked := Edit(place, v).items;
      forall x | x in ItemDepths(Arr(masked))
        ensures x < Depth(v)
      {
        var i :| 0 <= i < |masked| && x == Depth(masked[i]);
        MaskedDepth(v.items[i]);
        ItemDepth(v.items, i);
      }
    }
  }

  lemma EditedFieldDepth(f: map<string, JSON>, k: string)
    requires k in EditFields(f)
    ensures Depth(EditFields(f)[k]) < Depth(Obj(f))
  {
    EditedDepth(PlaceOf(k), f[k]);
    FieldDepth(f, k);
  }

  // ----- the scrub

  /** Every object edits its own entries, then they are scrubbed in turn. */
  function ScrubTree(v: JSON): JSON
    decreases Depth(v)
  {
    match v
    case Arr(items) =>
      Arr(seq(|items|, i requires 0 <= i < |items| => ItemDepth(items, i); ScrubTree(items[i])))
    case Obj(f) =>
      var g := EditFields(f);
      Obj(map k | k in g :: (EditedFieldDepth(f, k); ScrubTree(g[k])))
    case _ => v
  }

  /** The pass over the tree, entry by entry. */
  method ScrubPass(v: JSON) returns (r: JSON)
    ensures r == ScrubTree(v)
    decreases Depth(v)
  {
    match v {
      case Arr(items) =>
        var out: seq<JSON> := [];
        for i := 0 to |items|
          invariant |out| == i && forall k :: 0 <= k < i ==> out[k] == ScrubTree(items[k])
        {
          ItemDepth(items, i);
          var e := ScrubPass(items[i]);
          out := out + [e];
        }
        r := Arr(out);
      case Obj(f) =>
        var t := EditOwn(f);
        var rest, out: map<string, JSON> := t.Keys, map[];
        while rest != {}
          invariant rest <= t.Keys && out.Keys == t.Keys - rest
          invariant forall k :: k in out ==> out[k] == ScrubTree(t[k])
          decreases rest
        {
          var k :| k in rest;
          EditedFieldDepth(f, k);
          var e := ScrubPass(t[k]);
          out, rest := out[k := e], rest - {k};
        }
        assert out.Keys == t.Keys;
        r := Obj(out);
      case _ => r := v;
    }
  }

  /** The edits of one object, in the order they are made. */
  method EditOwn(f: map<string, JSON>) returns (t: map<string, JSON>)
    ensures t == EditFields(f)
  {
    hide MaskEntry;
    KeysDiffer();
    t := f - {MANAGED};
    if ANNOTATIONS in t && t[ANNOTATIONS].Obj? {
      t := t[ANNOTATIONS := Obj(t[ANNOTATIONS].fields - {LAST_APPLIED})];
    }
    if VALUES in t && t[VALUES].Str? && t[VALUES].s != "" {
      t := t[VALUES := Str(NOT_COLLECTED)];
    }
    if ENV in t && t[ENV].Arr? {
      var masked := MaskEnv(t[ENV].items);
      t := t[ENV := Arr(masked)];
    }
    assert t.Keys == EditFields(f).Keys;
    forall k | k in t
      ensures t[k] == EditFields(f)[k]
    {}
  }

  method MaskEnv(env: seq<JSON>) returns (masked: seq<JSON>)
    ensures |masked| == |env| && forall i :: 0 <= i < |env| ==> masked[i] == MaskEntry(env[i])
  {
    masked := [];
    for i := 0 to |env|
      invariant |masked| == i && forall k :: 0 <= k < i ==> masked[k] == MaskEntry(env[k])
    {
      var e := env[i];
      if e.Obj? {
        var name := if NAME in e.fields && e.fields[NAME].Str? then e.fields[NAME].s else "";
        if IsCredName(name) && VALUE in e.fields {
          e := Obj(e.fields[VALUE := Str(MASKED)]);
        }
      }
      masked := masked + [e];
    }
  }

  // ----- nothing secret is left, at any depth

  predicate EntryClean(v: JSON)
  {
    v.Obj? && HoldsCredential(v.fields) ==> v.fields[VALUE] == Str(MASKED)
  }

  /** v is harmless where it stands. */
  predicate CleanAt(place: Place, v: JSON)
  {
    match place
    case Plain => true
    case Annotations => v.Obj? ==> LAST_APPLIED !in v.fields
    case Values => v.Str? ==> v.s == "" || v.s == NOT_COLLECTED
    case EnvList => v.Arr? ==> forall i :: 0 <= i < |v.items| ==> EntryClean(v.items[i])
    case EnvEntry => EntryClean(v)
  }

  /** No object at any depth holds what must not be bundled. */
  predicate Clean(v: JSON)
  {
    match v
    case Arr(items) => forall i :: 0 <= i < |items| ==> Clean(items[i])
    case Obj(f) => MANAGED !in f && forall k :: k in f ==> CleanAt(PlaceOf(k), f[k]) && Clean(f[k])
    case _ => true
  }

  lemma EditIsClean(place: Place, v: JSON)
    ensures CleanAt(place, Edit(place, v))
  {
    KeysDiffer();
  }

  lemma EntryStaysClean(v: JSON)
    requires EntryClean(v)
    ensures EntryClean(ScrubTree(v))
  {
    KeysDiffer();
    if v.Obj? {
      var e, r := v.fields, ScrubTree(v).fields;
      assert NAME in e ==> NAME in r && r[NAME] == ScrubTree(e[NAME]);
      assert VALUE in r ==> VALUE in e && r[VALUE] == ScrubTree(e[VALUE]);
    }
  }

  lemma PlaceStaysClean(place: Place, v: JSON)
    requires CleanAt(place, v)
    ensures CleanAt(place, ScrubTree(v))
  {
    if place == EnvEntry { EntryStaysClean(v); }
    if place == EnvList && v.Arr? {
      forall i | 0 <= i < |v.items|
        ensures EntryClean(ScrubTree(v.items[i]))
      {
        EntryStaysClean(v.items[i]);
      }
    }
  }

  /** After the scrub no object at any depth holds managed fields, a
      last-applied annotation, Helm values or a credential in clear. */
  lemma {:induction false} ScrubIsClean(v: JSON)
    ensures Clean(ScrubTree(v))
    decreases Depth(v)
  {
    match v
    case Arr(items) =>
      forall i | 0 <= i < |items|
        ensures Clean(ScrubTree(items[i]))
      {
        ItemDepth(items, i);
        ScrubIsClean(items[i]);
      }
    case Obj(f) =>
      var g := EditFields(f);
      forall k | k in g
        ensures CleanAt(PlaceOf(k), ScrubTree(g[k])) && Clean(ScrubTree(g[k]))
      {
        EditedFieldDepth(f, k);
        ScrubIsClean(g[k]);
        EditIsClean(PlaceOf(k), f[k]);
        PlaceStaysClean(PlaceOf(k), g[k]);
      }
    case _ =>
  }

  lemma CleanEntryKept(v: JSON)
    requires EntryClean(v)
    ensures MaskEntry(v) == v
  {
    if v.Obj? && HoldsCredential(v.fields) {
      assert v.fields[VALUE := Str(MASKED)] == v.fields;
    }
  }

  lemma CleanIsNotEdited(place: Place, v: JSON)
    requires CleanAt(place, v)
    ensures Edit(place, v) == v
  {
    if place == Annotations && v.Obj? { assert v.fields - {LAST_APPLIED} == v.fields; }
    if place == EnvEntry { CleanEntryKept(v); }
    if place == EnvList && v.Arr? {
      forall i | 0 <= i < |v.items|
        ensures MaskEntry(v.items[i]) == v.items[i]
      {
        CleanEntryKept(v.items[i]);
      }
      assert Edit(place, v).items == v.items;
    }
  }

  lemma {:induction false} CleanIsKept(v: JSON)
    requires Clean(v)
    ensures ScrubTree(v) == v
    decreases Depth(v)
  {
    match v
    case Arr(items) =>
      forall i | 0 <= i < |items|
        ensures ScrubTree(items[i]) == items[i]
      {
        ItemDepth(items, i);
        CleanIsKept(items[i]);
      }
      assert ScrubTree(v).items == items;
    case Obj(f) =>
      var g := EditFields(f);
      forall k | k in f
        ensures k in g && g[k] == f[k] && ScrubTree(f[k]) == f[k]
      {
        CleanIsNotEdited(PlaceOf(k), f[k]);
        FieldDepth(f, k);
        CleanIsKept(f[k]);
      }
      assert g == f;
      assert ScrubTree(v).fields == f;
    case _ =>
  }

  /** The scrub changes nothing exactly when there is nothing to scrub. */
  lemma ScrubbedIffClean(v: JSON)
    ensures ScrubTree(v) == v <==> Clean(v)
  {
    ScrubIsClean(v);
    if Clean(v) { CleanIsKept(v); }
  }

  /** A second pass changes nothing. */
  lemma ScrubTwice(v: JSON)
    ensures ScrubTree(ScrubTree(v)) == ScrubTree(v)
  {
    ScrubIsClean(v);
    CleanIsKept(ScrubTree(v));
  }

  // ----- nothing else changes: what stands at every path of the tree

  datatype Step = Key(k: string) | Index(i: nat)

  /** What is seen at a path: a scalar itself, a list with its length, or an
      object; Missing when the path leads nowhere. */
  datatype View = Scalar(v: JSON) | List(n: nat) | Object | Missing

  function ViewOf(v: JSON): View
  {
    match v
    case Arr(items) => List(|items|)
    case Obj(_) => Object
    case _ => Scalar(v)
  }

  function At(v: JSON, path: seq<Step>): View
    decreases |path|
  {
    if path == [] then ViewOf(v)
    else
      match (v, path[0])
      case (Obj(f), Key(k)) => if k in f then At(f[k], path[1..]) else Missing
      case (Arr(items), Index(i)) => if i < |items| then At(items[i], path[1..]) else Missing
      case _ => Missing
  }

  /** What should be seen at a path of v, standing at place, after the scrub:
      what was there before, except below the entries that are dropped and at
      the strings that are masked. */
  function Expected(place: Place, v: JSON, path: seq<Step>): View
    decreases |path|
  {
    if path == [] then
      if place == Values && v.Str? && v.s != "" then Scalar(Str(NOT_COLLECTED)) else ViewOf(v)
    else
      match (v, path[0])
      case (Obj(f), Key(k)) =>
        if k !in f || k == MANAGED || (place == Annotations && k == LAST_APPLIED) then Missing
        else if place == EnvEntry && k == VALUE && HoldsCredential(f) then
          if |path| == 1 then Scalar(Str(MASKED)) else Missing
        else Expected(PlaceOf(k), f[k], path[1..])
      case (Arr(items), Index(i)) =>
        if i < |items| then Expected(if place == EnvList then EnvEntry else Plain, items[i], path[1..]) else Missing
      case _ => Missing
  }

  lemma ScrubKeepsView(v: JSON)
    ensures ViewOf(ScrubTree(v)) == ViewOf(v)
  {}

  /** An object's entry after the object was edited and scrubbed. */
  function ChildAfter(place: Place, v: JSON, k: string): JSON
    requires v.Obj? && k in v.fields
  {
    if place == EnvEntry && k == VALUE && HoldsCredential(v.fields) then Str(MASKED)
    else ScrubTree(Edit(PlaceOf(k), v.fields[k]))
  }

  lemma FieldOfEdited(place: Place, v: JSON, k: string)
    requires v.Obj?
    ensures var r := ScrubTree(Edit(place, v)).fields;
      && (k in r <==> k in v.fields && k != MANAGED && !(place == Annotations && k == LAST_APPLIED))
      && (k in r ==> r[k] == ChildAfter(place, v, k))
  {
    KeysDiffer();
  }

  /** What every path of the scrubbed tree shows, for every tree. */
  lemma {:induction false} ScrubShows(place: Place, v: JSON, path: seq<Step>)
    ensures At(ScrubTree(Edit(place, v)), path) == Expected(place, v, path)
    decreases |path|
  {
    if path == [] {
      ScrubKeepsView(Edit(place, v));
    } else {
      match (v, path[0])
      case (Obj(f), Key(k)) =>
        FieldOfEdited(place, v, k);
        if k in f { ScrubShows(PlaceOf(k), f[k], path[1..]); }
      case (Arr(items), Index(i)) =>
        if i < |items| { ScrubShows(if place == EnvList then EnvEntry else Plain, items[i], path[1..]); }
      case _ =>
    }
  }

  /** The whole tree, which stands at no special place. */
  lemma TreeShows(v: JSON, path: seq<Step>)
    ensures At(ScrubTree(v), path) == Expected(Plain, v, path)
  {
    ScrubShows(Plain, v, path);
  }

  // ----- in so many words, at every path

  /** What v holds at a path, if the path leads anywhere: one value or none. */
  function Below(v: JSON, path: seq<Step>): seq<JSON>
    decreases |path|
  {
    if path == [] then [v]
    else
      match (v, path[0])
      case (Obj(f), Key(k)) => if k in f then Below(f[k], path[1..]) else []
      case (Arr(items), Index(i)) => if i < |items| then Below(items[i], path[1..]) else []
      case _ => []
  }

  lemma {:induction false} AtBelow(v: JSON, path: seq<Step>, tail: seq<Step>)
    ensures At(v, path + tail) == if Below(v, path) == [] then Missing else At(Below(v, path)[0], tail)
    ensures |Below(v, path)| <= 1
    ensures Clean(v) && Below(v, path) != [] ==> Clean(Below(v, path)[0])
    decreases |path|
  {
    hide CleanAt, PlaceOf;
    if path == [] {
      assert path + tail == tail;
    } else {
      assert (path + tail)[1..] == path[1..] + tail;
      match (v, path[0])
      case (Obj(f), Key(k)) =>
        if k in f { AtBelow(f[k], path[1..], tail); }
      case (Arr(items), Index(i)) =>
        if i < |items| { AtBelow(items[i], path[1..], tail); }
      case _ =>
    }
  }

  function FieldOf(v: JSON, k: string): seq<JSON>
  {
    if v.Obj? && k in v.fields then [v.fields[k]] else []
  }

  lemma AtField(v: JSON, k: string, tail: seq<Step>)
    ensures At(v, [Key(k)] + tail) == if FieldOf(v, k) == [] then Missing else At(FieldOf(v, k)[0], tail)
  {
    assert ([Key(k)] + tail)[1..] == tail;
  }

  lemma AtItem(v: JSON, i: nat, tail: seq<Step>)
    ensures At(v, [Index(i)] + tail) == if v.Arr? && i < |v.items| then At(v.items[i], tail) else Missing
  {
    assert ([Index(i)] + tail)[1..] == tail;
  }

  lemma NoManagedFields(v: JSON)
    requires Clean(v)
    ensures At(v, [Key("managedFields")]) == Missing
    ensures At(v, [Key("annotations"), Key("kubectl.kubernetes.io/last-applied-configuration")]) == Missing
  {
    var last := "kubectl.kubernetes.io/last-applied-configuration";
    AtField(v, "managedFields", []);
    assert [Key("managedFields")] + [] == [Key("managedFields")];
    AtField(v, "annotations", [Key(last)]);
    assert [Key("annotations")] + [Key(last)] == [Key("annotations"), Key(last)];
    if FieldOf(v, "annotations") != [] {
      var a := v.fields["annotations"];
      assert CleanAt(PlaceOf("annotations"), a);
      AtField(a, last, []);
      assert [Key(last)] + [] == [Key(last)];
    }
  }

  lemma NoHelmValues(v: JSON, s: string)
    requires Clean(v) && At(v, [Key("ValuesYAML")]) == Scalar(Str(s))
    ensures s == "" || s == "<not collected>"
  {
    KeysDiffer();
    AtField(v, "ValuesYAML", []);
    assert [Key("ValuesYAML")] + [] == [Key("ValuesYAML")];
    assert CleanAt(PlaceOf("ValuesYAML"), v.fields["ValuesYAML"]);
  }

  lemma AtEntry(v: JSON, i: nat, k: string)
    ensures At(v, [Key("env"), Index(i), Key(k)]) ==
      if FieldOf(v, "env") != [] && v.fields["env"].Arr? && i < |v.fields["env"].items|
        && FieldOf(v.fields["env"].items[i], k) != []
      then ViewOf(FieldOf(v.fields["env"].items[i], k)[0]) else Missing
  {
    assert [Key("env"), Index(i), Key(k)] == [Key("env")] + ([Index(i)] + ([Key(k)] + []));
    AtField(v, "env", [Index(i)] + ([Key(k)] + []));
    if FieldOf(v, "env") != [] {
      var env := v.fields["env"];
      AtItem(env, i, [Key(k)] + []);
      if env.Arr? && i < |env.items| { AtField(env.items[i], k, []); }
    }
  }

  lemma NoCredential(v: JSON, i: nat, name: string)
    requires Clean(v) && At(v, [Key("env"), Index(i), Key("name")]) == Scalar(Str(name)) && Search(CRED_RE, name)
    ensures At(v, [Key("env"), Index(i), Key("value")]) in {Missing, Scalar(Str("<masked>"))}
  {
    hide At, Clean, IsCredName, Search;
    KeysDiffer();
    CredNameIff(name);
    AtEntry(v, i, "name");
    AtEntry(v, i, "value");
    EnvIsClean(v, i);
  }

  lemma EnvIsClean(v: JSON, i: nat)
    requires Clean(v) && FieldOf(v, "env") != [] && v.fields["env"].Arr? && i < |v.fields["env"].items|
    ensures EntryClean(v.fields["env"].items[i])
  {
    KeysDiffer();
    assert CleanAt(PlaceOf("env"), v.fields["env"]);
  }

  /** After the scrub no path leads to managed fields or to a last-applied
      annotation, Helm values show as not collected, and the value of an env
      entry named like a credential is masked. */
  lemma NothingSecretAt(v: JSON, path: seq<Step>)
    ensures var r := ScrubTree(v);
      && At(r, path + [Key("managedFields")]) == Missing
      && At(r, path + [Key("annotations"), Key("kubectl.kubernetes.io/last-applied-configuration")]) == Missing
      && (forall s :: At(r, path + [Key("ValuesYAML")]) == Scalar(Str(s)) ==> s == "" || s == "<not collected>")
      && forall i: nat, name :: Search(CRED_RE, name) ==>
        At(r, path + [Key("env"), Index(i), Key("name")]) == Scalar(Str(name)) ==>
          At(r, path + [Key("env"), Index(i), Key("value")]) in {Missing, Scalar(Str("<masked>"))}
  {
    hide ScrubTree, Clean, At, Below;
    var r := ScrubTree(v);
    ScrubIsClean(v);
    var last := "kubectl.kubernetes.io/last-applied-configuration";
    AtBelow(r, path, [Key("managedFields")]);
    AtBelow(r, path, [Key("annotations"), Key(last)]);
    AtBelow(r, path, [Key("ValuesYAML")]);
    if Below(r, path) != [] {
      var b := Below(r, path)[0];
      NoManagedFields(b);
      forall s | At(b, [Key("ValuesYAML")]) == Scalar(Str(s))
        ensures s == "" || s == "<not collected>"
      {
        NoHelmValues(b, s);
      }
    }
    forall i: nat, name |
      Search(CRED_RE, name) && At(r, path + [Key("env"), Index(i), Key("name")]) == Scalar(Str(name))
      ensures At(r, path + [Key("env"), Index(i), Key("value")]) in {Missing, Scalar(Str("<masked>"))}
    {
      AtBelow(r, path, [Key("env"), Index(i), Key("name")]);
      AtBelow(r, path, [Key("env"), Index(i), Key("value")]);
      if Below(r, path) != [] { NoCredential(Below(r, path)[0], i, name); }
    }
  }

  // ----- and nothing else changes

  /** The object at a path is named like a credential. */
  ghost predicate CredentialAt(v: JSON, path: seq<Step>)
  {
    exists name :: At(v, path + [Key("name")]) == Scalar(Str(name)) && Search(CRED_RE, name)
  }

  /** The n-th step of a path leads to something that is not to be shown:
      managed fields, a last-applied annotation, the value of an env entry named
      like a credential, or at the end Helm values that are not empty. */
  ghost predicate Hides(v: JSON, path: seq<Step>, n: nat)
  {
    n < |path| &&
    (|| path[n] == Key("managedFields")
     || (n >= 1 && path[n - 1] == Key("annotations")
         && path[n] == Key("kubectl.kubernetes.io/last-applied-configuration"))
     || (n >= 2 && path[n - 2] == Key("env") && path[n - 1].Index? && path[n] == Key("value")
         && CredentialAt(v, path[..n]))
     || (n == |path| - 1 && path[n] == Key("ValuesYAML")
         && exists s :: s != "" && At(v, path) == Scalar(Str(s))))
  }

  /** The place of what the first n steps of a path lead to. */
  function PlaceAt(path: seq<Step>, n: nat): Place
    requires n <= |path|
  {
    if n == 0 then Plain
    else
      match path[n - 1]
      case Key(k) => PlaceOf(k)
      case Index(_) => if n >= 2 && path[n - 2] == Key(ENV) then EnvEntry else Plain
  }

  lemma {:induction false} BelowSnoc(v: JSON, path: seq<Step>, s: Step)
    ensures Below(v, path + [s]) == if Below(v, path) == [] then [] else Below(Below(v, path)[0], [s])
    decreases |path|
  {
    if path == [] {
      assert path + [s] == [s];
    } else {
      assert (path + [s])[1..] == path[1..] + [s];
      match (v, path[0])
      case (Obj(f), Key(k)) => if k in f { BelowSnoc(f[k], path[1..], s); }
      case (Arr(items), Index(i)) => if i < |items| { BelowSnoc(items[i], path[1..], s); }
      case _ =>
    }
  }

  lemma NoNameNoCredential()
    ensures !IsCredName("")
  {}

  lemma CredentialHere(v: JSON, path: seq<Step>, f: map<string, JSON>)
    requires Below(v, path) == [Obj(f)] && HoldsCredential(f)
    ensures CredentialAt(v, path)
  {
    NoNameNoCredential();
    AtBelow(v, path, [Key("name")]);
    AtField(Obj(f), "name", []);
    assert [Key("name")] + [] == [Key("name")];
    CredNameIff(f["name"].s);
    hide IsCredName, Search;
  }

  lemma PlaceTells(path: seq<Step>, n: nat)
    requires n <= |path|
    ensures PlaceAt(path, n) == Annotations ==> n >= 1 && path[n - 1] == Key("annotations")
    ensures PlaceAt(path, n) == EnvEntry ==> n >= 2 && path[n - 2] == Key("env") && path[n - 1].Index?
    ensures PlaceAt(path, n) == Values ==> n >= 1 && path[n - 1] == Key("ValuesYAML")
    ensures n < |path| && path[n].Key? ==> PlaceAt(path, n + 1) == PlaceOf(path[n].k)
  {
    KeysDiffer();
  }

  lemma SameAtEnd(v: JSON, path: seq<Step>, sub: JSON)
    requires Below(v, path) == [sub] && forall m :: !Hides(v, path, m)
    ensures Expected(PlaceAt(path, |path|), sub, []) == ViewOf(sub)
  {
    PlaceTells(path, |path|);
    hide CredentialAt, Below, PlaceAt;
    AtBelow(v, path, []);
    assert path + [] == path;
    if path != [] { assert !Hides(v, path, |path| - 1); }
  }

  /** A step to an entry of an object goes on as if nothing were special. */
  lemma SameAtKey(v: JSON, path: seq<Step>, n: nat, f: map<string, JSON>, k: string)
    requires n < |path| && Below(v, path[..n]) == [Obj(f)] && path[n] == Key(k) && k in f
    requires !Hides(v, path, n)
    ensures Expected(PlaceAt(path, n), Obj(f), path[n..]) == Expected(PlaceAt(path, n + 1), f[k], path[n + 1..])
  {
    assert path[n..][1..] == path[n + 1..];
    PlaceTells(path, n);
    hide HoldsCredential, CredentialAt, Below, ViewOf, PlaceAt, PlaceOf, At;
    if HoldsCredential(f) { CredentialHere(v, path[..n], f); }
  }

  /** What n steps of the path lead to is seen along the rest of it as before. */
  lemma {:induction false} SameFrom(v: JSON, path: seq<Step>, n: nat, sub: JSON)
    requires n <= |path| && Below(v, path[..n]) == [sub]
    requires forall m :: !Hides(v, path, m)
    ensures Expected(PlaceAt(path, n), sub, path[n..]) == At(sub, path[n..])
    decreases |path| - n
  {
    hide HoldsCredential, CredentialAt, Hides;
    if n == |path| {
      assert path[..n] == path && path[n..] == [];
      SameAtEnd(v, path, sub);
    } else {
      assert path[..n + 1] == path[..n] + [path[n]] && path[n..][1..] == path[n + 1..];
      BelowSnoc(v, path[..n], path[n]);
      match (sub, path[n])
      case (Obj(f), Key(k)) =>
        if k in f {
          SameFrom(v, path, n + 1, f[k]);
          SameAtKey(v, path, n, f, k);
        }
      case (Arr(items), Index(i)) =>
        if i < |items| { SameFrom(v, path, n + 1, items[i]); }
      case _ =>
    }
  }

  /** A path that leads to nothing hidden shows what it showed before, and none
      is added. */
  lemma OrdinaryPathsUnchanged(v: JSON, path: seq<Step>)
    requires forall n :: !Hides(v, path, n)
    ensures At(ScrubTree(v), path) == At(v, path)
  {
    TreeShows(v, path);
    assert path[..0] == [] && path[0..] == path;
    SameFrom(v, path, 0, v);
  }

  lemma {:induction false} OnlyMarks(place: Place, v: JSON, path: seq<Step>)
    ensures Expected(place, v, path) in
      {At(v, path), Missing, Scalar(Str("<not collected>")), Scalar(Str("<masked>"))}
    decreases |path|
  {
    hide HoldsCredential, PlaceOf;
    if path != [] {
      match (v, path[0])
      case (Obj(f), Key(k)) =>
        if k in f { OnlyMarks(PlaceOf(k), f[k], path[1..]); }
      case (Arr(items), Index(i)) =>
        if i < |items| { OnlyMarks(if place == EnvList then EnvEntry else Plain, items[i], path[1..]); }
      case _ =>
    }
  }

  /** The scrub makes nothing up: whatever a path shows afterwards it showed
      before, or it is one of the two marks. */
  lemma NothingMadeUp(v: JSON, path: seq<Step>)
    ensures At(ScrubTree(v), path) in
      {At(v, path), Missing, Scalar(Str("<not collected>")), Scalar(Str("<masked>"))}
  {
    TreeShows(v, path);
    OnlyMarks(Plain, v, path);
  }
}
