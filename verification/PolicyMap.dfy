/** What each policy edit means, on policies as unordered maps.

    These are the reference definitions: the editor of module `PolicyEditing`
    refines them in place on ordered member lists, and the convergence proofs
    reason about nothing else. */
module PolicyMap {
  import opened Json
  import opened Ordering

  type Fields = map<string, Value>

  /** One rendered SCIM group: its name and the tokens of its members. */
  datatype Group = Group(name: string, tokens: seq<string>)

  function ObjectField(m: Fields, key: string): Fields {
    if key in m && m[key].VObj? then m[key].members else map[]
  }

  function ArrayField(m: Fields, key: string): seq<Value> {
    if key in m && m[key].VArr? then m[key].elems else []
  }

  function Strings(ss: seq<string>): (vs: seq<Value>)
    ensures |vs| == |ss|
    ensures forall i | 0 <= i < |ss| :: vs[i] == VStr(ss[i])
  {
    if ss == [] then [] else [VStr(ss[0])] + Strings(ss[1..])
  }

  // ── groups ──────────────────────────────────────────────────────────────────

  const GROUP_PREFIX: string := "group:"

  function GroupKey(name: string): string {
    GROUP_PREFIX + name
  }

  lemma {:induction false} GroupKeyInjective(a: string, b: string)
    ensures GroupKey(a) == GroupKey(b) ==> a == b
  {
    assert GroupKey(a)[|GROUP_PREFIX|..] == a;
    assert GroupKey(b)[|GROUP_PREFIX|..] == b;
  }

  function GroupKeys(gs: seq<Group>): set<string> {
    set g | g in gs :: GroupKey(g.name)
  }

  predicate DistinctNames(gs: seq<Group>) {
    forall i, j :: 0 <= i < j < |gs| ==> gs[i].name != gs[j].name
  }

  function GroupsObject(gs: seq<Group>): Fields {
    if gs == [] then map[]
    else
      var last := gs[|gs| - 1];
      GroupsObject(gs[..|gs| - 1])[GroupKey(last.name) := VArr(Strings(last.tokens))]
  }

  lemma {:induction false} GroupsObjectKeys(gs: seq<Group>)
    ensures GroupsObject(gs).Keys == GroupKeys(gs)
  {
    if gs != [] {
      var init := gs[..|gs| - 1];
      GroupsObjectKeys(init);
      assert gs == init + [gs[|gs| - 1]];
    }
  }

  /** Under distinct names each group's entry holds its tokens. */
  lemma {:induction false} GroupsObjectAt(gs: seq<Group>, i: nat)
    requires DistinctNames(gs) && i < |gs|
    ensures GroupKey(gs[i].name) in GroupsObject(gs)
    ensures GroupsObject(gs)[GroupKey(gs[i].name)] == VArr(Strings(gs[i].tokens))
  {
    var last := |gs| - 1;
    if i < last {
      GroupsObjectAt(gs[..last], i);
      GroupKeyInjective(gs[i].name, gs[last].name);
    }
  }

  /** The `groups` entry SCIM wants: none at all when there are no groups. */
  function WithGroups(m: Fields, gs: seq<Group>): Fields {
    if gs == [] then m - {"groups"} else m["groups" := VObj(GroupsObject(gs))]
  }

  function WithGroupsOf(m: Fields, other: Fields): Fields {
    if "groups" in other then m["groups" := other["groups"]] else m - {"groups"}
  }

  function KnownGroups(m: Fields): set<string> {
    ObjectField(m, "groups").Keys
  }

  // ── tag owners and grants ───────────────────────────────────────────────────

  function NewOwners(existing: seq<Value>, owners: seq<string>): seq<Value> {
    if owners == [] then []
    else (if VStr(owners[0]) in existing then [] else [VStr(owners[0])]) + NewOwners(existing, owners[1..])
  }

  function WithTagOwner(m: Fields, tag: string, owners: seq<string>): Fields {
    var declared := ObjectField(m, "tagOwners");
    var existing := ArrayField(declared, tag);
    m["tagOwners" := VObj(declared[tag := VArr(existing + NewOwners(existing, owners))])]
  }

  function WithGrants(m: Fields, grants: seq<Value>): Fields {
    if grants == [] then m else m["grants" := VArr(ArrayField(m, "grants") + grants)]
  }

  // ── pruning ─────────────────────────────────────────────────────────────────

  predicate StaleName(s: string, known: set<string>) {
    GROUP_PREFIX <= s && s !in known
  }

  predicate Stale(v: Value, known: set<string>) {
    v.VStr? && StaleName(v.s, known)
  }

  /** The one-line filter: every element that is not a stale group name. */
  function Fresh(vs: seq<Value>, known: set<string>): seq<Value> {
    if vs == [] then []
    else (if Stale(vs[0], known) then [] else [vs[0]]) + Fresh(vs[1..], known)
  }

  predicate HasString(vs: seq<Value>) {
    exists v :: v in vs && v.VStr?
  }

  /** A side that had string members and loses all of them. */
  predicate Emptied(grant: Fields, side: string, known: set<string>) {
    var before := ArrayField(grant, side);
    HasString(before) && !HasString(Fresh(before, known))
  }

  function PruneSide(grant: Fields, side: string, known: set<string>): Fields {
    if side in grant && grant[side].VArr?
    then grant[side := VArr(Fresh(grant[side].elems, known))]
    else grant
  }

  predicate Dropped(grant: Fields, known: set<string>) {
    Emptied(grant, "src", known) || Emptied(grant, "dst", known)
  }

  function PruneGrant(grant: Fields, known: set<string>): Fields {
    PruneSide(PruneSide(grant, "src", known), "dst", known)
  }

  /** What becomes of one element. Elements that are not objects are not grants: kept and
      ignored. */
  function PruneOne(v: Value, known: set<string>): seq<Value> {
    if !v.VObj? then [v]
    else if Dropped(v.members, known) then []
    else [VObj(PruneGrant(v.members, known))]
  }

  function PruneGrants(grants: seq<Value>, known: set<string>): seq<Value> {
    if grants == [] then [] else PruneOne(grants[0], known) + PruneGrants(grants[1..], known)
  }

  function Pruned(m: Fields, known: set<string>): Fields {
    if "grants" in m && m["grants"].VArr?
    then m["grants" := VArr(PruneGrants(m["grants"].elems, known))]
    else m
  }

  /** What one SCIM reconcile wants the live policy to become. */
  function ScimDesired(live: Fields, gs: seq<Group>): Fields {
    var replaced := WithGroups(live, gs);
    Pruned(replaced, KnownGroups(replaced))
  }

  // ── what a SCIM reconcile is to do, on its own terms ────────────────────────

  /** Anything but the name of a group that is not known. */
  ghost function NoStaleName(known: set<string>): Value -> bool {
    (v: Value) => !(v.VStr? && "group:" <= v.s && v.s !in known)
  }

  /** The side is an array with at least one string, and each of its strings names a group
      that is not known. */
  ghost predicate LosesSide(grant: Fields, side: string, known: set<string>) {
    && side in grant && grant[side].VArr?
    && (exists v :: v in grant[side].elems && v.VStr?)
    && (forall v | v in grant[side].elems && v.VStr? :: "group:" <= v.s && v.s !in known)
  }

  /** An object stays unless it loses one of its sides; anything else stays anyway. */
  ghost function KeepsSides(known: set<string>): Value -> bool {
    (v: Value) => !(v.VObj? && (LosesSide(v.members, "src", known) || LosesSide(v.members, "dst", known)))
  }

  /** An array side keeps, in order, whatever is not the name of an unknown group; all other
      entries are as before, and so is whatever is no object. */
  ghost predicate TrimmedTo(before: Value, after: Value, known: set<string>) {
    if !before.VObj? then after == before
    else
      && after.VObj? && after.members.Keys == before.members.Keys
      && (forall k | k in before.members ::
            if k in {"src", "dst"} && before.members[k].VArr?
            then after.members[k].VArr?
              && Filtered(before.members[k].elems, NoStaleName(known), Same(), after.members[k].elems)
            else after.members[k] == before.members[k])
  }

  ghost function Trimming(known: set<string>): (Value, Value) -> bool {
    (before, after) => TrimmedTo(before, after, known)
  }

  /** The grants that stay, in order, each trimmed. */
  ghost predicate PrunedTo(before: seq<Value>, after: seq<Value>, known: set<string>) {
    Filtered(before, KeepsSides(known), Trimming(known), after)
  }

  /** `groups` has an entry for each group under its name, with its tokens, and there is none
      when there are no groups. */
  ghost predicate HoldsGroups(m: Fields, gs: seq<Group>) {
    if gs == [] then "groups" !in m
    else
      && "groups" in m && m["groups"].VObj?
      && m["groups"].members.Keys == NamesOf(gs)
      && (forall i | 0 <= i < |gs| ::
            HoldsTokens(m["groups"].members["group:" + gs[i].name], gs[i].tokens))
  }

  predicate HoldsTokens(v: Value, tokens: seq<string>) {
    v.VArr? && |v.elems| == |tokens| && forall k | 0 <= k < |tokens| :: v.elems[k] == VStr(tokens[k])
  }

  /** The names of the groups, as the policy has them. */
  ghost function NamesOf(gs: seq<Group>): set<string> {
    set g | g in gs :: "group:" + g.name
  }

  /** An array of grants is pruned; anything else is as it was. */
  ghost predicate EntryPruned(key: string, before: Value, after: Value, known: set<string>) {
    if key == "grants" && before.VArr? then after.VArr? && PrunedTo(before.elems, after.elems, known)
    else after == before
  }

  /** What SCIM is to make of the live policy: its groups, the grants pruned to them, and
      everything else untouched. */
  ghost predicate WantedByScim(live: Fields, gs: seq<Group>, out: Fields) {
    && HoldsGroups(out, gs)
    && (forall k | k in out && k != "groups" :: k in live)
    && (forall k | k in live && k != "groups" :: k in out && EntryPruned(k, live[k], out[k], NamesOf(gs)))
  }

  lemma {:induction false} FreshFilters(vs: seq<Value>, known: set<string>)
    ensures Filtered(vs, NoStaleName(known), Same(), Fresh(vs, known))
  {
    hide Filtered;
    if vs == [] {
      FilteredNone<Value, Value>(NoStaleName(known), Same());
    } else {
      FreshFilters(vs[1..], known);
      assert vs == [vs[0]] + vs[1..];
      var head := if Stale(vs[0], known) then [] else [vs[0]];
      FilteredCons(vs[0], vs[1..], NoStaleName(known), Same(), head, Fresh(vs[1..], known));
      assert Fresh(vs, known) == head + Fresh(vs[1..], known);
    }
  }

  lemma {:induction false} EmptiedIsLost(grant: Fields, side: string, known: set<string>)
    ensures Emptied(grant, side, known) <==> LosesSide(grant, side, known)
  {
    FreshMembers(ArrayField(grant, side), known);
  }

  /** A grant goes exactly when it loses a side. */
  lemma {:induction false} GrantGoesExactly(grant: Fields, known: set<string>)
    ensures PruneGrants([VObj(grant)], known) == [] <==>
            LosesSide(grant, "src", known) || LosesSide(grant, "dst", known)
    ensures Dropped(grant, known) <==> LosesSide(grant, "src", known) || LosesSide(grant, "dst", known)
  {
    EmptiedIsLost(grant, "src", known);
    EmptiedIsLost(grant, "dst", known);
    assert [VObj(grant)][1..] == [];
  }

  lemma {:induction false} PruneGrantTrims(grant: Fields, known: set<string>)
    ensures TrimmedTo(VObj(grant), VObj(PruneGrant(grant, known)), known)
  {
    PruneGrantEffect(grant, known);
    forall k | k in grant && k in {"src", "dst"} && grant[k].VArr?
      ensures Filtered(grant[k].elems, NoStaleName(known), Same(), PruneGrant(grant, known)[k].elems)
    {
      FreshFilters(grant[k].elems, known);
    }
  }

  lemma {:induction false} PruneOneExactly(v: Value, known: set<string>)
    ensures if KeepsSides(known)(v) then |PruneOne(v, known)| == 1 && TrimmedTo(v, PruneOne(v, known)[0], known)
            else PruneOne(v, known) == []
  {
    if v.VObj? {
      GrantGoesExactly(v.members, known);
      PruneGrantTrims(v.members, known);
    }
  }

  /** Pruning keeps exactly the grants that lose no side, in order, and trims them. */
  lemma {:induction false} PruningExactly(grants: seq<Value>, known: set<string>)
    ensures PrunedTo(grants, PruneGrants(grants, known), known)
  {
    hide Filtered, TrimmedTo, PruneOne;
    if grants == [] {
      FilteredNone(KeepsSides(known), Trimming(known));
    } else {
      PruningExactly(grants[1..], known);
      PruneOneExactly(grants[0], known);
      assert grants == [grants[0]] + grants[1..];
      FilteredCons(grants[0], grants[1..], KeepsSides(known), Trimming(known), PruneOne(grants[0], known),
                   PruneGrants(grants[1..], known));
    }
  }

  lemma {:induction false} WithGroupsHolds(m: Fields, gs: seq<Group>)
    requires DistinctNames(gs)
    ensures HoldsGroups(WithGroups(m, gs), gs)
  {
    GroupsObjectKeys(gs);
    forall i | 0 <= i < |gs|
      ensures "group:" + gs[i].name in GroupsObject(gs)
      ensures HoldsTokens(GroupsObject(gs)["group:" + gs[i].name], gs[i].tokens)
    {
      GroupsObjectAt(gs, i);
    }
  }

  lemma {:induction false} PrunedEntries(m: Fields, known: set<string>)
    ensures Pruned(m, known).Keys == m.Keys
    ensures forall k | k in m :: EntryPruned(k, m[k], Pruned(m, known)[k], known)
  {
    hide PrunedTo;
    if "grants" in m && m["grants"].VArr? {
      PruningExactly(m["grants"].elems, known);
    }
  }

  lemma {:induction false} GroupsAreKnown(m: Fields, gs: seq<Group>)
    ensures KnownGroups(WithGroups(m, gs)) == NamesOf(gs)
  {
    GroupsObjectKeys(gs);
  }

  lemma {:induction false} PruningKeepsGroups(m: Fields, known: set<string>, gs: seq<Group>)
    requires HoldsGroups(m, gs)
    ensures HoldsGroups(Pruned(m, known), gs)
  {
    hide PruneGrants;
    assert "grants"[2] != "groups"[2];
    assert "groups" in m ==> Pruned(m, known)["groups"] == m["groups"];
  }

  /** What SCIM wants of the live policy is just that. */
  lemma {:induction false} ScimWantsExactly(live: Fields, gs: seq<Group>)
    requires DistinctNames(gs)
    ensures WantedByScim(live, gs, ScimDesired(live, gs))
  {
    var replaced := WithGroups(live, gs);
    GroupsAreKnown(live, gs);
    WithGroupsHolds(live, gs);
    PruningKeepsGroups(replaced, NamesOf(gs), gs);
    PrunedEntries(replaced, NamesOf(gs));
    assert forall k | k != "groups" :: (k in replaced <==> k in live) && (k in live ==> replaced[k] == live[k]);
    hide HoldsGroups, EntryPruned, Pruned, WithGroups, NamesOf;
    assert ScimDesired(live, gs) == Pruned(replaced, NamesOf(gs));
  }

  // ── pruning is idempotent, and exactly when it changes nothing ──────────────

  predicate SideClean(grant: Fields, side: string, known: set<string>) {
    side in grant && grant[side].VArr? ==>
      forall v | v in grant[side].elems && v.VStr? && "group:" <= v.s :: v.s in known
  }

  predicate GrantClean(v: Value, known: set<string>) {
    v.VObj? ==> SideClean(v.members, "src", known) && SideClean(v.members, "dst", known)
  }

  predicate GrantsClean(grants: seq<Value>, known: set<string>) {
    forall g | g in grants :: GrantClean(g, known)
  }

  lemma {:induction false} FreshMembers(vs: seq<Value>, known: set<string>)
    ensures forall v :: v in Fresh(vs, known) <==> v in vs && !(v.VStr? && "group:" <= v.s && v.s !in known)
  {
    if vs != [] {
      FreshMembers(vs[1..], known);
      assert vs == [vs[0]] + vs[1..];
    }
  }

  /** The filter is the identity exactly on sequences without stale names; otherwise
      it is strictly shorter. */
  lemma {:induction false} FreshFixed(vs: seq<Value>, known: set<string>)
    ensures |Fresh(vs, known)| <= |vs|
    ensures |Fresh(vs, known)| == |vs| <==> (forall v | v in vs :: !Stale(v, known))
    ensures |Fresh(vs, known)| == |vs| ==> Fresh(vs, known) == vs
  {
    if vs != [] {
      FreshFixed(vs[1..], known);
      assert vs == [vs[0]] + vs[1..];
    }
  }

  lemma {:induction false} PruneSideFixed(grant: Fields, side: string, known: set<string>)
    ensures SideClean(grant, side, known) <==> PruneSide(grant, side, known) == grant
    ensures SideClean(grant, side, known) ==> !Emptied(grant, side, known)
    ensures SideClean(PruneSide(grant, side, known), side, known)
  {
    var vs := ArrayField(grant, side);
    FreshFixed(vs, known);
    FreshMembers(vs, known);
    if PruneSide(grant, side, known) == grant && side in grant && grant[side].VArr? {
      assert grant[side].elems == Fresh(vs, known);
    }
  }

  /** A grant survives unchanged exactly when it mentions no stale group. */
  lemma {:induction false} PruneGrantFixed(grant: Fields, known: set<string>)
    ensures GrantClean(VObj(grant), known) <==> !Dropped(grant, known) && PruneGrant(grant, known) == grant
    ensures GrantClean(VObj(PruneGrant(grant, known)), known)
  {
    var half := PruneSide(grant, "src", known);
    PruneSideFixed(grant, "src", known);
    PruneSideFixed(grant, "dst", known);
    PruneSideFixed(half, "dst", known);
    assert ArrayField(half, "dst") == ArrayField(grant, "dst");
    assert ArrayField(PruneGrant(grant, known), "src") == ArrayField(half, "src");
    if PruneGrant(grant, known) == grant {
      assert ArrayField(half, "src") == ArrayField(grant, "src");
      FreshMembers(ArrayField(grant, "src"), known);
      FreshMembers(ArrayField(grant, "dst"), known);
    }
  }

  /** What pruning does to a grant it keeps: array sides lose their stale names and nothing
      else; every other entry, and a side that is not an array, stays as it was. */
  lemma {:induction false} PruneGrantEffect(grant: Fields, known: set<string>)
    ensures PruneGrant(grant, known).Keys == grant.Keys
    ensures forall k | k in grant ::
              PruneGrant(grant, known)[k] ==
              if k in {"src", "dst"} && grant[k].VArr? then VArr(Fresh(grant[k].elems, known)) else grant[k]
  {
    assert "src"[0] != "dst"[0];
  }

  lemma {:induction false} PruneOneFixed(v: Value, known: set<string>)
    ensures PruneOne(v, known) == [v] <==> GrantClean(v, known)
    ensures GrantsClean(PruneOne(v, known), known)
  {
    if v.VObj? {
      PruneGrantFixed(v.members, known);
    }
  }

  lemma {:induction false} PruneGrantsCons(v: Value, grants: seq<Value>, known: set<string>)
    ensures PruneGrants([v] + grants, known) == PruneOne(v, known) + PruneGrants(grants, known)
  {
    assert ([v] + grants)[1..] == grants;
  }

  lemma {:induction false} PruneGrantsShorter(grants: seq<Value>, known: set<string>)
    ensures |PruneGrants(grants, known)| <= |grants|
  {
    if grants != [] {
      PruneGrantsShorter(grants[1..], known);
    }
  }

  /** Pruning is the identity exactly on clean grants. */
  lemma {:induction false} PruneGrantsFixed(grants: seq<Value>, known: set<string>)
    ensures PruneGrants(grants, known) == grants <==> GrantsClean(grants, known)
    ensures GrantsClean(PruneGrants(grants, known), known)
  {
    if grants != [] {
      var v, rest := grants[0], grants[1..];
      assert grants == [v] + rest;
      PruneGrantsCons(v, rest, known);
      PruneGrantsFixed(rest, known);
      PruneOneFixed(v, known);
      PruneGrantsShorter(rest, known);
      SplitFixed(v, rest, PruneOne(v, known), PruneGrants(rest, known));
    }
  }

  /** A head of at most one element and a tail no longer than it was make up the whole only
      if both are what they were. */
  lemma {:induction false} SplitFixed(v: Value, rest: seq<Value>, head: seq<Value>, tail: seq<Value>)
    requires |head| <= 1 && |tail| <= |rest|
    ensures head + tail == [v] + rest <==> head == [v] && tail == rest
  {
    if head + tail == [v] + rest {
      assert |head + tail| == |head| + |tail|;
      assert head[0] == (head + tail)[0];
      assert tail == (head + tail)[1..] == ([v] + rest)[1..];
    }
  }

  /** A second pruning run with the same groups is a no-op. */
  lemma {:induction false} PruningIsIdempotent(grants: seq<Value>, known: set<string>)
    ensures PruneGrants(PruneGrants(grants, known), known) == PruneGrants(grants, known)
  {
    PruneGrantsFixed(grants, known);
    PruneGrantsFixed(PruneGrants(grants, known), known);
  }

  lemma {:induction false} PruneGrantsConcat(a: seq<Value>, b: seq<Value>, known: set<string>)
    ensures PruneGrants(a + b, known) == PruneGrants(a, known) + PruneGrants(b, known)
  {
    if a == [] {
      assert a + b == b;
    } else {
      assert (a + b)[1..] == a[1..] + b;
      PruneGrantsConcat(a[1..], b, known);
    }
  }
}
