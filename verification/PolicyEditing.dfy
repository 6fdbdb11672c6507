/** The in-place policy editor.

    `Meaning()` is the policy as an unordered map; every edit is specified by the
    corresponding function of module `PolicyMap`. */
module PolicyEditing {
  import opened Wrappers
  import opened Json
  import opened PolicyMap

  /** A policy as stored or typed: empty, only white space, only comments, not parseable,
      or a value.  Texts are taken without surrounding white space. */
  datatype PolicyText =
    | Empty
    | Spaces
    | CommentsOnly(raw: string)
    | Garbled(raw: string)
    | Document(json: Json)

  predicate ValidText(t: PolicyText) {
    t.Document? ==> WellFormed(t.json)
  }

  /** `policies_are_semantically_equal`. */
  predicate SameText(a: PolicyText, b: PolicyText) {
    if a.Document? && b.Document? then ValuesEqual(a.json, b.json)
    else a == b || (a in {Empty, Spaces} && b in {Empty, Spaces})
  }

  /** Texts are equal when they denote the same value; when one of them is no value, only if they
      are the same up to white space around them. */
  lemma {:induction false} SameTextExactly(a: PolicyText, b: PolicyText)
    requires ValidText(a) && ValidText(b)
    ensures SameText(a, b) <==>
            || a == b
            || (a.Document? && b.Document? && Denote(a.json) == Denote(b.json))
            || (a.Empty? && b.Spaces?) || (a.Spaces? && b.Empty?)
  {
    if a.Document? && b.Document? {
      ComparisonDecidesMeaning(a.json, b.json);
    }
  }

  function Members(root: Option<Json>): seq<Member> {
    if root.Some? && root.value.Obj? then root.value.members else []
  }

  predicate ValidRoot(root: Option<Json>) {
    root.Some? ==> WellFormed(root.value)
  }

  function MeaningOf(root: Option<Json>): Fields {
    DenoteMembers(Members(root))
  }

  /** What parsing a text gives the editor; `None` when it does not parse. */
  function ParsedRoot(t: PolicyText): Option<Option<Json>> {
    match t
    case Empty | Spaces => Some(Some(Obj([])))
    case CommentsOnly(_) => Some(None)
    case Garbled(_) => None
    case Document(j) => Some(Some(j))
  }

  // ── arrays of strings inside a grant ────────────────────────────────────────

  function ArrayMember(ms: seq<Member>, key: string): Option<seq<Json>> {
    match Lookup(ms, key)
    case Some(Arr(elems)) => Some(elems)
    case _ => None
  }

  function Elems(ms: seq<Member>, key: string): seq<Json> {
    match ArrayMember(ms, key)
    case Some(elems) => elems
    case None => []
  }

  /** `field_values`: the string elements, in order. */
  function StringElems(elems: seq<Json>): seq<string> {
    if elems == [] then []
    else (if elems[0].Str? then [elems[0].s] else []) + StringElems(elems[1..])
  }

  function Without(elems: seq<Json>, gone: set<string>): seq<Json> {
    if elems == [] then []
    else if elems[0].Str? && elems[0].s in gone then Without(elems[1..], gone)
    else [elems[0]] + Without(elems[1..], gone)
  }

  lemma {:induction false} WithoutNothing(elems: seq<Json>)
    ensures Without(elems, {}) == elems
  {
    if elems != [] {
      WithoutNothing(elems[1..]);
    }
  }

  lemma {:induction false} WithoutTwice(elems: seq<Json>, a: set<string>, b: set<string>)
    ensures Without(Without(elems, a), b) == Without(elems, a + b)
  {
    if elems != [] {
      WithoutTwice(elems[1..], a, b);
      assert ([elems[0]] + Without(elems[1..], a))[1..] == Without(elems[1..], a);
    }
  }

  lemma {:induction false} StringElemsMembers(elems: seq<Json>)
    ensures forall s :: s in StringElems(elems) <==> Str(s) in elems
  {
    if elems != [] {
      StringElemsMembers(elems[1..]);
      assert elems == [elems[0]] + elems[1..];
    }
  }

  lemma {:induction false} WithoutWellFormed(elems: seq<Json>, gone: set<string>)
    requires forall e | e in elems :: WellFormed(e)
    ensures forall e | e in Without(elems, gone) :: WellFormed(e)
  {
    if elems != [] {
      assert elems == [elems[0]] + elems[1..];
      WithoutWellFormed(elems[1..], gone);
    }
  }

  function ObjectMember(ms: seq<Member>, key: string): seq<Member> {
    match Lookup(ms, key)
    case Some(Obj(members)) => members
    case _ => []
  }

  lemma {:induction false} ObjectMemberMeaning(ms: seq<Member>, key: string)
    requires GoodMembers(ms)
    ensures GoodMembers(ObjectMember(ms, key))
    ensures DenoteMembers(ObjectMember(ms, key)) == ObjectField(DenoteMembers(ms), key)
  {
    LookupMeaning(ms, key);
  }

  lemma {:induction false} ElemsMeaning(ms: seq<Member>, key: string)
    requires GoodMembers(ms)
    ensures forall e | e in Elems(ms, key) :: WellFormed(e)
    ensures DenoteAll(Elems(ms, key)) == ArrayField(DenoteMembers(ms), key)
  {
    LookupMeaning(ms, key);
  }

  // ── building member lists ───────────────────────────────────────────────────

  function RenderStrings(ss: seq<string>): (arr: seq<Json>)
    ensures |arr| == |ss|
    ensures forall i | 0 <= i < |ss| :: arr[i] == Str(ss[i])
  {
    if ss == [] then [] else [Str(ss[0])] + RenderStrings(ss[1..])
  }

  lemma {:induction false} RenderStringsMeaning(ss: seq<string>)
    ensures forall e | e in RenderStrings(ss) :: WellFormed(e)
    ensures DenoteAll(RenderStrings(ss)) == Strings(ss)
  {
  }

  method RenderTokens(tokens: seq<string>) returns (arr: seq<Json>)
    ensures arr == RenderStrings(tokens)
  {
    arr := [];
    for j := 0 to |tokens|
      invariant |arr| == j
      invariant forall i | 0 <= i < j :: arr[i] == Str(tokens[i])
    {
      arr := arr + [Str(tokens[j])];
    }
  }

  /** The members of the `groups` object, in the order given, repeated names included. */
  function GroupMembers(groups: seq<Group>): seq<Member> {
    if groups == [] then []
    else
      var last := groups[|groups| - 1];
      GroupMembers(groups[..|groups| - 1]) + [Member(GroupKey(last.name), Arr(RenderStrings(last.tokens)))]
  }

  lemma {:induction false} GroupMembersMeaning(groups: seq<Group>)
    requires DistinctNames(groups)
    ensures GoodMembers(GroupMembers(groups))
    ensures DenoteMembers(GroupMembers(groups)) == GroupsObject(groups)
  {
    if groups != [] {
      var k := |groups| - 1;
      var before := GroupMembers(groups[..k]);
      var key, arr := GroupKey(groups[k].name), Arr(RenderStrings(groups[k].tokens));
      GroupMembersMeaning(groups[..k]);
      FreshGroupKey(groups, k, before);
      RenderStringsMeaning(groups[k].tokens);
      PutAbsent(before, key, arr);
      PutGood(before, key, arr);
    }
  }

  method RenderGroups(groups: seq<Group>) returns (built: seq<Member>)
    ensures built == GroupMembers(groups)
  {
    built := [];
    for k := 0 to |groups|
      invariant built == GroupMembers(groups[..k])
    {
      var arr := RenderTokens(groups[k].tokens);
      built := built + [Member(GroupKey(groups[k].name), Arr(arr))];
      assert groups[..k + 1][..k] == groups[..k];
    }
    assert groups[..|groups|] == groups;
  }

  /** The root's members with the `groups` entry replaced. */
  function MembersWithGroups(ms: seq<Member>, groups: seq<Group>): seq<Member> {
    var kept := Drop(ms, "groups");
    if groups == [] then kept else Put(kept, "groups", Obj(GroupMembers(groups)))
  }

  lemma {:induction false} MembersWithGroupsMeaning(ms: seq<Member>, groups: seq<Group>)
    requires GoodMembers(ms) && DistinctNames(groups)
    ensures GoodMembers(MembersWithGroups(ms, groups))
    ensures DenoteMembers(MembersWithGroups(ms, groups)) == WithGroups(DenoteMembers(ms), groups)
  {
    DropGood(ms, "groups");
    if groups != [] {
      GroupMembersMeaning(groups);
      PutGood(Drop(ms, "groups"), "groups", Obj(GroupMembers(groups)));
    }
  }

  lemma {:induction false} OneElement(j: Json)
    ensures DenoteAll([j]) == [Denote(j)]
  {
  }

  lemma {:induction false} DenoteAllConcat(a: seq<Json>, b: seq<Json>)
    ensures DenoteAll(a + b) == DenoteAll(a) + DenoteAll(b)
  {
  }

  function NewOwnerElems(existing: seq<Json>, owners: seq<string>): seq<Json> {
    if owners == [] then []
    else if Str(owners[0]) in existing then NewOwnerElems(existing, owners[1..])
    else [Str(owners[0])] + NewOwnerElems(existing, owners[1..])
  }

  lemma {:induction false} NewOwnerElemsMeaning(existing: seq<Json>, owners: seq<string>)
    ensures forall e | e in NewOwnerElems(existing, owners) :: WellFormed(e)
    ensures DenoteAll(NewOwnerElems(existing, owners)) == NewOwners(DenoteAll(existing), owners)
  {
    if owners != [] {
      OwnerPresence(existing, owners[0]);
      NewOwnerElemsMeaning(existing, owners[1..]);
      var rest := NewOwnerElems(existing, owners[1..]);
      assert ([Str(owners[0])] + rest)[1..] == rest;
    }
  }

  /** The owners not present at the start are appended, in order. */
  method AddOwners(existing: seq<Json>, owners: seq<string>) returns (arr: seq<Json>)
    requires forall e | e in existing :: WellFormed(e)
    ensures forall e | e in arr :: WellFormed(e)
    ensures DenoteAll(arr) == DenoteAll(existing) + NewOwners(DenoteAll(existing), owners)
  {
    arr := existing;
    for k := 0 to |owners|
      invariant arr + NewOwnerElems(existing, owners[k..]) == existing + NewOwnerElems(existing, owners)
    {
      assert owners[k..][1..] == owners[k + 1..];
      if Str(owners[k]) !in existing {
        arr := arr + [Str(owners[k])];
      }
    }
    assert owners[|owners|..] == [];
    assert arr + [] == arr;
    NewOwnerElemsMeaning(existing, owners);
    DenoteAllConcat(existing, NewOwnerElems(existing, owners));
  }

  method AppendAll(existing: seq<Json>, more: seq<Json>) returns (arr: seq<Json>)
    ensures arr == existing + more
    ensures DenoteAll(arr) == DenoteAll(existing) + DenoteAll(more)
  {
    arr := existing;
    for k := 0 to |more|
      invariant arr == existing + more[..k]
    {
      arr := arr + [more[k]];
    }
    assert arr == existing + more;
  }

  /** Removes, one node at a time, every string equal to `value`. */
  method RemoveEqual(before: seq<Json>, value: string) returns (elems: seq<Json>)
    ensures elems == Without(before, {value})
  {
    elems := before;
    var i := 0;
    while i < |elems|
      invariant i <= |elems|
      invariant elems[..i] + Without(elems[i..], {value}) == Without(before, {value})
      decreases |elems| - i
    {
      assert elems[i..][1..] == elems[i + 1..];
      if elems[i] == Str(value) {
        ghost var previous := elems;
        elems := elems[..i] + elems[i + 1..];
        assert elems[..i] == previous[..i] && elems[i..] == previous[i + 1..];
      } else {
        assert elems[..i + 1] == elems[..i] + [elems[i]];
        i := i + 1;
      }
    }
    assert elems[i..] == [] && elems[..i] == elems;
  }

  // ── editing ─────────────────────────────────────────────────────────────────

  class PolicyEditor {
    var root: Option<Json>

    ghost predicate Valid()
      reads this
    {
      ValidRoot(root)
    }

    ghost function Meaning(): Fields
      reads this
    {
      MeaningOf(root)
    }

    constructor (root: Option<Json>)
      requires ValidRoot(root)
      ensures Valid() && this.root == root
    {
      this.root := root;
    }

    /** Replaces the whole `groups` entry; the other entries stay.  A repeated name is written
        as often as it is given; with distinct names the result is a policy again. */
    method SetGroups(groups: seq<Group>)
      requires Valid()
      modifies this
      ensures root == Some(Obj(MembersWithGroups(old(Members(root)), groups)))
      ensures DistinctNames(groups) ==> Valid() && Meaning() == WithGroups(old(Meaning()), groups)
    {
      var ms := Members(root);
      var kept := Drop(ms, "groups");
      root := Some(Obj(kept));
      if groups != [] {
        var built := RenderGroups(groups);
        root := Some(Obj(Put(kept, "groups", Obj(built))));
      }
      if DistinctNames(groups) {
        MembersWithGroupsMeaning(ms, groups);
      }
    }

    /** Takes over `other`'s `groups` entry, or none if it has none. */
    method CopyGroupsFrom(other: PolicyEditor)
      requires Valid() && other.Valid() && other != this
      modifies this
      ensures Valid() && root.Some? && root.value.Obj?
      ensures Meaning() == WithGroupsOf(old(Meaning()), other.Meaning())
    {
      var ms := Members(root);
      var copied := Lookup(Members(other.root), "groups");
      CopiedMeaning(ms, Members(other.root));
      var kept := Drop(ms, "groups");
      root := Some(Obj(kept));
      if copied.Some? {
        root := Some(Obj(kept + [Member("groups", copied.value)]));
      }
    }

    method KnownGroupNames() returns (known: set<string>)
      requires Valid()
      ensures known == KnownGroups(Meaning())
    {
      var ms := Members(root);
      LookupMeaning(ms, "groups");
      match Lookup(ms, "groups")
      case Some(Obj(groups)) => known := KeySet(groups);
      case _ => known := {};
    }

    /** Adds the owners that are not there yet; existing owners stay in place. */
    method SetTagOwner(tag: string, owners: seq<string>)
      requires Valid()
      modifies this
      ensures Valid() && root.Some? && root.value.Obj?
      ensures Meaning() == WithTagOwner(old(Meaning()), tag, owners)
    {
      var ms := Members(root);
      var declared := ObjectMember(ms, "tagOwners");
      ObjectMemberMeaning(ms, "tagOwners");
      var existing := Elems(declared, tag);
      ElemsMeaning(declared, tag);
      var arr := AddOwners(existing, owners);
      var updated := Put(declared, tag, Arr(arr));
      PutGood(declared, tag, Arr(arr));
      PutGood(ms, "tagOwners", Obj(updated));
      root := Some(Obj(Put(ms, "tagOwners", Obj(updated))));
    }

    /** Appends after whatever grants are declared already. */
    method AppendGrants(grants: seq<Json>)
      requires Valid() && forall g | g in grants :: WellFormed(g)
      modifies this
      ensures Valid()
      ensures Meaning() == WithGrants(old(Meaning()), DenoteAll(grants))
      ensures old(root.Some? && root.value.Obj?) ==> root.Some? && root.value.Obj?
    {
      if grants == [] {
        return;
      }
      var ms := Members(root);
      ElemsMeaning(ms, "grants");
      var arr := AppendAll(Elems(ms, "grants"), grants);
      PutGood(ms, "grants", Arr(arr));
      root := Some(Obj(Put(ms, "grants", Arr(arr))));
    }

    /** The elements of the `grants` array; those that are objects are the grants. */
    function GrantNodes(): seq<Json>
      reads this
    {
      Elems(Members(root), "grants")
    }

    /** The root with the elements of its `grants` array replaced. */
    ghost function WithNodes(nodes: seq<Json>): Option<Json>
      reads this
    {
      Some(Obj(Put(Members(root), "grants", Arr(nodes))))
    }

    /** Removes from the node at `at` every string of `side` equal to `value`. */
    method RemoveFromSide(at: nat, side: string, value: string)
      requires Valid() && at < |GrantNodes()| && GrantNodes()[at].Obj?
      modifies this
      ensures Valid()
      ensures root == old(WithNodes(GrantNodes()[at := Obj(SideWithout(GrantNodes()[at].members, side, {value}))]))
      ensures GrantNodes() == old(GrantNodes()[at := Obj(SideWithout(GrantNodes()[at].members, side, {value}))])
    {
      var nodes := GrantNodes();
      var grant := nodes[at].members;
      var elems := RemoveEqual(Elems(grant, side), value);
      var edited := if ArrayMember(grant, side).Some? then Put(grant, side, Arr(elems)) else grant;
      assert edited == SideWithout(grant, side, {value});
      SideWithoutWellFormed(Members(root), at, side, {value});
      LookupPut(Members(root), "grants", Arr(nodes[at := Obj(edited)]), "grants");
      root := Some(Obj(Put(Members(root), "grants", Arr(nodes[at := Obj(edited)]))));
    }

    /** Detaches the node at `at`. */
    method RemoveNode(at: nat)
      requires Valid() && at < |GrantNodes()|
      modifies this
      ensures Valid()
      ensures root == old(WithNodes(GrantNodes()[..at] + GrantNodes()[at + 1..]))
      ensures GrantNodes() == old(GrantNodes()[..at] + GrantNodes()[at + 1..])
    {
      var nodes := GrantNodes();
      var left := nodes[..at] + nodes[at + 1..];
      LookupMeaning(Members(root), "grants");
      assert forall e | e in left :: e in nodes;
      PutKeys(Members(root), "grants", Arr(left));
      EditedMembersWellFormed(Members(root), "grants", Arr(left));
      LookupPut(Members(root), "grants", Arr(left), "grants");
      root := Some(Obj(Put(Members(root), "grants", Arr(left))));
    }
  }

  function SideWithout(grant: seq<Member>, side: string, gone: set<string>): seq<Member> {
    match ArrayMember(grant, side)
    case Some(elems) => Put(grant, side, Arr(Without(elems, gone)))
    case None => grant
  }

  lemma {:induction false} SideWithoutWellFormed(ms: seq<Member>, at: nat, side: string, gone: set<string>)
    requires DistinctKeys(ms) && WellFormedMembers(ms)
    requires at < |Elems(ms, "grants")| && Elems(ms, "grants")[at].Obj?
    ensures var nodes := Elems(ms, "grants");
            var out := Arr(nodes[at := Obj(SideWithout(nodes[at].members, side, gone))]);
            WellFormed(out) && DistinctKeys(Put(ms, "grants", out)) && WellFormedMembers(Put(ms, "grants", out))
  {
    var nodes := Elems(ms, "grants");
    LookupMeaning(ms, "grants");
    assert nodes[at] in nodes;
    var grant := nodes[at].members;
    LookupMeaning(grant, side);
    if ArrayMember(grant, side).Some? {
      var elems := ArrayMember(grant, side).value;
      WithoutWellFormed(elems, gone);
      PutKeys(grant, side, Arr(Without(elems, gone)));
      EditedMembersWellFormed(grant, side, Arr(Without(elems, gone)));
    }
    var out := Arr(nodes[at := Obj(SideWithout(grant, side, gone))]);
    PutKeys(ms, "grants", out);
    EditedMembersWellFormed(ms, "grants", out);
  }

  lemma {:induction false} CopiedMeaning(ms: seq<Member>, others: seq<Member>)
    requires GoodMembers(ms) && GoodMembers(others)
    ensures var kept := Drop(ms, "groups");
            var copied := Lookup(others, "groups");
            var out := if copied.Some? then kept + [Member("groups", copied.value)] else kept;
            GoodMembers(out) && DenoteMembers(out) == WithGroupsOf(DenoteMembers(ms), DenoteMembers(others))
  {
    var kept := Drop(ms, "groups");
    DropGood(ms, "groups");
    LookupMeaning(others, "groups");
    match Lookup(others, "groups")
    case None =>
    case Some(v) =>
      DropKeys(ms, "groups");
      PutGood(kept, "groups", v);
      PutAbsent(kept, "groups", v);
  }

  lemma {:induction false} FreshGroupKey(groups: seq<Group>, k: nat, built: seq<Member>)
    requires k < |groups| && DistinctNames(groups)
    requires DenoteMembers(built) == GroupsObject(groups[..k])
    ensures GroupKey(groups[k].name) !in KeySet(built)
  {
    GroupsObjectKeys(groups[..k]);
    if GroupKey(groups[k].name) in KeySet(built) {
      var g :| g in groups[..k] && GroupKey(g.name) == GroupKey(groups[k].name);
      GroupKeyInjective(g.name, groups[k].name);
    }
  }

  lemma {:induction false} OwnerPresence(existing: seq<Json>, owner: string)
    ensures Str(owner) in existing <==> VStr(owner) in DenoteAll(existing)
  {
    if existing != [] {
      OwnerPresence(existing[1..], owner);
      assert existing == [existing[0]] + existing[1..];
    }
  }
}
