/** Matching etcd members to nodes. rke2 and k3s name a member after its node
    with a dash and eight hex digits appended. */
module MemberNames {
  import opened Common
  import opened Grpc
  import opened Numerals

  predicate IsHexID(s: string)
  {
    |s| == 8 && forall c | c in s :: c in "0123456789abcdef"
  }

  /** Eight hexadecimal digits, as a member id is printed. */
  lemma HexIDIff(s: string)
    ensures IsHexID(s) <==> |s| == 8 && AllDigits(s, 16)
  {
    forall c: char
      ensures c in "0123456789abcdef" <==> DigitValue(c) < 16
    {
      var i := DigitValue(c);
      if i < 16 { assert "0123456789abcdef"[i] == c; }
    }
    hide DigitValue;
  }

  /** The node a member name most likely belongs to. */
  function NodeName(member: string): string
  {
    var n := |member| - 9;
    if n >= 0 && member[n] == '-' && IsHexID(member[n + 1..]) then member[..n] else member
  }

  /** member is the node's name with a dash and a hex id appended. */
  predicate Suffixed(member: string, node: string)
  {
    node + "-" <= member && IsHexID(member[|node| + 1..])
  }

  /** The two readings of a member name agree: a member carries a node's name
      and a suffix exactly when stripping its suffix leaves that name. A bare
      prefix is not enough: "cp" does not get the member of "cp-2". */
  lemma SuffixedIff(member: string, node: string)
    ensures Suffixed(member, node) <==> NodeName(member) == node && node != member
  {
    if Suffixed(member, node) {
      assert member[|node|] == (node + "-")[|node|];
      assert |member| - 9 == |node|;
      assert member[..|node|] == node;
    }
  }

  /** How well a member fits a node: by its own name, by its name without the
      suffix, or by an address of the node in one of its URLs. */
  datatype Fit = ByName | BySuffix | ByAddress

  predicate Fits(fit: Fit, m: Member, node: string, addresses: set<string>, host: string -> string)
  {
    match fit
    case ByName => m.name == node
    case BySuffix => Suffixed(m.name, node)
    case ByAddress => exists u | u in m.peerURLs + m.clientURLs :: host(u) in addresses + {node}
  }

  ghost predicate FirstFit(fit: Fit, members: seq<Member>, node: string, addresses: set<string>,
      host: string -> string, i: nat)
  {
    && i < |members| && Fits(fit, members[i], node, addresses, host)
    && forall j :: 0 <= j < i ==> !Fits(fit, members[j], node, addresses, host)
  }

  ghost predicate NoFit(fit: Fit, members: seq<Member>, node: string, addresses: set<string>, host: string -> string)
  {
    forall j :: 0 <= j < |members| ==> !Fits(fit, members[j], node, addresses, host)
  }

  method FindFit(fit: Fit, members: seq<Member>, node: string, addresses: set<string>, host: string -> string)
    returns (at: Option<nat>)
    ensures at.Some? ==> FirstFit(fit, members, node, addresses, host, at.value)
    ensures at.None? ==> NoFit(fit, members, node, addresses, host)
  {
    for i := 0 to |members|
      invariant forall j :: 0 <= j < i ==> !Fits(fit, members[j], node, addresses, host)
    {
      if Fits(fit, members[i], node, addresses, host) { return Some(i); }
    }
    return None;
  }

  /** Nothing about the member points to the node. */
  ghost predicate Unrelated(m: Member, node: string, addresses: set<string>, host: string -> string)
  {
    && m.name != node && NodeName(m.name) != node
    && forall u :: u in m.peerURLs || u in m.clientURLs ==> host(u) != node && host(u) !in addresses
  }

  lemma UnrelatedIff(m: Member, node: string, addresses: set<string>, host: string -> string)
    ensures Unrelated(m, node, addresses, host) <==> forall fit: Fit :: !Fits(fit, m, node, addresses, host)
  {
    SuffixedIff(m.name, node);
    hide Suffixed;
    assert forall u :: u in m.peerURLs + m.clientURLs <==> u in m.peerURLs || u in m.clientURLs;
    if forall fit: Fit :: !Fits(fit, m, node, addresses, host) {
      assert !Fits(ByName, m, node, addresses, host);
      assert !Fits(BySuffix, m, node, addresses, host);
      assert !Fits(ByAddress, m, node, addresses, host);
    }
  }

  /** The member of a node: the first by name, else the first by suffix, else
      the first by address. */
  method MemberForNode(members: seq<Member>, node: string, addresses: set<string>, host: string -> string)
    returns (at: Option<nat>)
    ensures at.None? ==> forall fit :: NoFit(fit, members, node, addresses, host)
    ensures at.None? <==> forall m :: m in members ==> Unrelated(m, node, addresses, host)
    ensures at.Some? ==>
      || FirstFit(ByName, members, node, addresses, host, at.value)
      || (NoFit(ByName, members, node, addresses, host) && FirstFit(BySuffix, members, node, addresses, host, at.value))
      || (NoFit(ByName, members, node, addresses, host) && NoFit(BySuffix, members, node, addresses, host)
          && FirstFit(ByAddress, members, node, addresses, host, at.value))
  {
    forall m | m in members
      ensures Unrelated(m, node, addresses, host) <==> forall fit: Fit :: !Fits(fit, m, node, addresses, host)
    {
      UnrelatedIff(m, node, addresses, host);
    }
    hide Unrelated, Fits;
    at := FindFit(ByName, members, node, addresses, host);
    if at.Some? {
      assert members[at.value] in members;
      return;
    }
    at := FindFit(BySuffix, members, node, addresses, host);
    if at.Some? {
      assert members[at.value] in members;
      return;
    }
    at := FindFit(ByAddress, members, node, addresses, host);
    if at.Some? { assert members[at.value] in members; }
  }

  /** By name or suffix a member fits two different nodes only if one bears the
      member's full name and the other the name without the suffix. */
  lemma NameFitsOneNode(m: Member, node: string, node': string, addresses: set<string>, host: string -> string)
    requires Fits(ByName, m, node, addresses, host) || Fits(BySuffix, m, node, addresses, host)
    requires Fits(ByName, m, node', addresses, host) || Fits(BySuffix, m, node', addresses, host)
    ensures node == node' || {node, node'} == {m.name, NodeName(m.name)}
  {
    SuffixedIff(m.name, node);
    SuffixedIff(m.name, node');
  }
}
