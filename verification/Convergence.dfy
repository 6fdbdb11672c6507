/** What merging and repeated syncing achieve: order independence, idempotence, and when
    the two writers of the one policy settle. */
module Convergence {
  import opened Json
  import opened PolicyMap
  import opened PolicyEditing
  import opened ScimPolicy
  import opened OperatorPolicy
  import opened Ordering

  lemma {:induction false} EntryNamesDiffer()
    ensures "groups" != "tagOwners" && "grants" != "tagOwners" && "grants" != "groups"
  {
    assert |"groups"| != |"tagOwners"| && |"grants"| != |"tagOwners"| && "grants"[2] != "groups"[2];
  }

  // ── merging Ingress grants ──────────────────────────────────────────────────

  lemma {:induction false} IngressOrder()
    ensures TotalPreorder(IngressLe)
  {
    forall a: Ingress, b: Ingress
      ensures IngressLe(a, b) || IngressLe(b, a)
    {
      KeyLeTotal((a.ns, a.name), (b.ns, b.name));
    }
    forall a: Ingress, b: Ingress, c: Ingress | IngressLe(a, b) && IngressLe(b, c)
      ensures IngressLe(a, c)
    {
      KeyLeTransitive((a.ns, a.name), (b.ns, b.name), (c.ns, c.name));
    }
  }

  /** The merged policy does not depend on the order the Ingresses are listed in. */
  lemma {:induction false} MergeIgnoresOrder(m: Fields, a: seq<Ingress>, b: seq<Ingress>)
    requires multiset(a) == multiset(b) && DistinctIngresses(a)
    ensures Merged(m, a) == Merged(m, b)
  {
    IngressOrder();
    forall x, y | x in a && y in a && IngressLe(x, y) && IngressLe(y, x)
      ensures x == y
    {
      KeyLeTotal((x.ns, x.name), (y.ns, y.name));
    }
    SortIgnoresOrder(a, b, IngressLe);
  }

  function AddedGrants(adds: seq<Addition>): seq<Value> {
    if adds == [] then [] else [Denote(adds[0].grant)] + AddedGrants(adds[1..])
  }

  lemma {:induction false} AddedGrantsLast(adds: seq<Addition>)
    requires adds != []
    ensures AddedGrants(adds) == AddedGrants(adds[..|adds| - 1]) + [Denote(adds[|adds| - 1].grant)]
  {
    if |adds| > 1 {
      AddedGrantsLast(adds[1..]);
      assert adds[1..][..|adds| - 2] == adds[..|adds| - 1][1..];
    }
  }

  /** The entries merging may touch. */
  const MERGED: set<string> := {"grants", "tagOwners"}

  lemma {:induction false} OneAddition(m: Fields, tag: string, grant: Value)
    ensures var out := WithGrants(WithTagOwner(m, tag, [HEADMASTER_TAG]), [grant]);
            ArrayField(out, "grants") == ArrayField(m, "grants") + [grant] && out - MERGED == m - MERGED
  {
    EntryNamesDiffer();
    var tagged := WithTagOwner(m, tag, [HEADMASTER_TAG]);
    assert ArrayField(tagged, "grants") == ArrayField(m, "grants");
    assert tagged - MERGED == m - MERGED;
  }

  /** The user's grants stay as an untouched prefix, and no entry but `grants` and
      `tagOwners` changes. */
  lemma {:induction false} AdditionsExtend(m: Fields, adds: seq<Addition>)
    ensures ArrayField(WithAdditions(m, adds), "grants") == ArrayField(m, "grants") + AddedGrants(adds)
    ensures WithAdditions(m, adds) - MERGED == m - MERGED
    ensures adds == [] ==> WithAdditions(m, adds) == m
  {
    if adds != [] {
      var init, last := adds[..|adds| - 1], adds[|adds| - 1];
      AdditionsExtend(m, init);
      AddedGrantsLast(adds);
      OneAddition(WithAdditions(m, init), last.tag, Denote(last.grant));
    }
  }

  predicate OwnedByHeadmaster(m: Fields, tag: string) {
    VStr("tag:headmaster") in ArrayField(ObjectField(m, "tagOwners"), tag)
  }

  predicate Declared(m: Fields, tag: string) {
    tag in ObjectField(m, "tagOwners")
  }

  /** A tag declaration keeps the owners every tag had, in order, as a prefix. */
  ghost predicate OwnersKept(before: Fields, after: Fields) {
    forall tag :: ArrayField(ObjectField(before, "tagOwners"), tag) <= ArrayField(ObjectField(after, "tagOwners"), tag)
  }

  lemma {:induction false} TagOwnerEffect(m: Fields, tag: string, owners: seq<string>)
    ensures Declared(WithTagOwner(m, tag, owners), tag)
    ensures OwnersKept(m, WithTagOwner(m, tag, owners))
    ensures forall o | o in owners :: VStr(o) in ArrayField(ObjectField(WithTagOwner(m, tag, owners), "tagOwners"), tag)
  {
    var existing := ArrayField(ObjectField(m, "tagOwners"), tag);
    NewOwnersComplete(existing, owners);
    var after := WithTagOwner(m, tag, owners);
    assert ArrayField(ObjectField(after, "tagOwners"), tag) == existing + NewOwners(existing, owners);
  }

  lemma {:induction false} NewOwnersComplete(existing: seq<Value>, owners: seq<string>)
    ensures forall o | o in owners :: VStr(o) in existing + NewOwners(existing, owners)
  {
    if owners != [] {
      NewOwnersComplete(existing, owners[1..]);
      assert owners == [owners[0]] + owners[1..];
      forall o | o in owners
        ensures VStr(o) in existing + NewOwners(existing, owners)
      {
        if o != owners[0] {
          assert VStr(o) in existing + NewOwners(existing, owners[1..]);
        }
      }
    }
  }

  lemma {:induction false} GrantsKeepTags(m: Fields, grants: seq<Value>)
    ensures ObjectField(WithGrants(m, grants), "tagOwners") == ObjectField(m, "tagOwners")
  {
    EntryNamesDiffer();
  }

  lemma {:induction false} OneAdditionTags(m: Fields, tag: string, grant: Value)
    ensures var out := WithGrants(WithTagOwner(m, tag, [HEADMASTER_TAG]), [grant]);
            Declared(out, tag) && OwnedByHeadmaster(out, tag) && OwnersKept(m, out)
  {
    TagOwnerEffect(m, tag, [HEADMASTER_TAG]);
    GrantsKeepTags(WithTagOwner(m, tag, [HEADMASTER_TAG]), [grant]);
    assert HEADMASTER_TAG in [HEADMASTER_TAG];
  }

  lemma {:induction false} OwnersKeptTransitive(a: Fields, b: Fields, c: Fields)
    requires OwnersKept(a, b) && OwnersKept(b, c)
    ensures OwnersKept(a, c)
  {
  }

  lemma {:induction false} OwnedStays(a: Fields, b: Fields, tag: string)
    requires OwnersKept(a, b) && OwnedByHeadmaster(a, tag)
    ensures OwnedByHeadmaster(b, tag)
  {
    assert ArrayField(ObjectField(a, "tagOwners"), tag) <= ArrayField(ObjectField(b, "tagOwners"), tag);
  }

  /** No owner the user declared is lost. */
  lemma {:induction false} AdditionsKeepOwners(m: Fields, adds: seq<Addition>)
    ensures OwnersKept(m, WithAdditions(m, adds))
  {
    if adds != [] {
      var init, last := adds[..|adds| - 1], adds[|adds| - 1];
      AdditionsKeepOwners(m, init);
      OneAdditionTags(WithAdditions(m, init), last.tag, Denote(last.grant));
      OwnersKeptTransitive(m, WithAdditions(m, init), WithAdditions(m, adds));
    }
  }

  lemma {:induction false} AdditionDeclared(m: Fields, adds: seq<Addition>, k: nat)
    requires k < |adds|
    ensures OwnedByHeadmaster(WithAdditions(m, adds), adds[k].tag)
  {
    var init, last := adds[..|adds| - 1], adds[|adds| - 1];
    assert WithAdditions(m, adds)
        == WithGrants(WithTagOwner(WithAdditions(m, init), last.tag, [HEADMASTER_TAG]), [Denote(last.grant)]);
    hide *;
    OneAdditionTags(WithAdditions(m, init), last.tag, Denote(last.grant));
    if k < |init| {
      AdditionDeclared(m, init, k);
      OwnedStays(WithAdditions(m, init), WithAdditions(m, adds), adds[k].tag);
    }
  }

  /** Every added grant's destination tag is declared, with tag:headmaster among its
      owners, and no owner the user declared is lost. */
  lemma {:induction false} AdditionsDeclareTags(m: Fields, adds: seq<Addition>)
    ensures forall k | 0 <= k < |adds| :: OwnedByHeadmaster(WithAdditions(m, adds), adds[k].tag)
    ensures OwnersKept(m, WithAdditions(m, adds))
  {
    AdditionsKeepOwners(m, adds);
    forall k | 0 <= k < |adds|
      ensures OwnedByHeadmaster(WithAdditions(m, adds), adds[k].tag)
    {
      AdditionDeclared(m, adds, k);
    }
  }

  // ── added grants name only known groups ─────────────────────────────────────

  /** An addition comes from an access entry of a listed Ingress that is not waiting. */
  predicate Sound(add: Addition, ings: seq<Ingress>, known: set<string>) {
    exists ing, a :: ing in ings && ing.access.Some? && a in ing.access.value
                  && !Waiting(a, known) && add == Addition(GrantJson(a, AutoTag(ing)), AutoTag(ing))
  }

  lemma {:induction false} AccessAdditionsComplete(access: seq<Access>, tag: string, known: set<string>)
    ensures forall add :: add in AccessAdditions(access, tag, known) <==>
              exists a :: a in access && !Waiting(a, known) && add == Addition(GrantJson(a, tag), tag)
  {
    if access != [] {
      AccessAdditionsComplete(access[1..], tag, known);
      assert access == [access[0]] + access[1..];
    }
  }

  /** The additions are exactly the non-waiting access entries. */
  lemma {:induction false} AdditionsComplete(ings: seq<Ingress>, known: set<string>)
    ensures forall add :: add in Additions(ings, known) <==> Sound(add, ings, known)
  {
    if ings != [] {
      var ing := ings[0];
      AdditionsComplete(ings[1..], known);
      assert ings == [ing] + ings[1..];
      if ing.access.Some? {
        AccessAdditionsComplete(ing.access.value, AutoTag(ing), known);
      }
      forall add
        ensures add in Additions(ings, known) <==> Sound(add, ings, known)
      {
        AdditionAtHead(add, ings, known);
      }
    }
  }

  lemma {:induction false} AdditionAtHead(add: Addition, ings: seq<Ingress>, known: set<string>)
    requires ings != []
    requires ings[0].access.Some? ==>
               (add in AccessAdditions(ings[0].access.value, AutoTag(ings[0]), known) <==>
                exists a :: a in ings[0].access.value && !Waiting(a, known)
                         && add == Addition(GrantJson(a, AutoTag(ings[0])), AutoTag(ings[0])))
    ensures Sound(add, ings, known) <==> add in IngressAdditions(ings[0], known) || Sound(add, ings[1..], known)
  {
    assert ings == [ings[0]] + ings[1..];
    if add in IngressAdditions(ings[0], known) {
      var a :| a in ings[0].access.value && !Waiting(a, known)
            && add == Addition(GrantJson(a, AutoTag(ings[0])), AutoTag(ings[0]));
      assert ings[0] in ings;
    } else if Sound(add, ings[1..], known) {
      var ing, a :| ing in ings[1..] && ing.access.Some? && a in ing.access.value
                 && !Waiting(a, known) && add == Addition(GrantJson(a, AutoTag(ing)), AutoTag(ing));
      assert ing in ings;
    }
  }

  lemma {:induction false} SourcesClean(a: Access, known: set<string>)
    requires !Waiting(a, known)
    ensures forall v | v in Strings(a.sources) :: !Stale(v, known)
  {
  }

  /** So an added grant mentions no stale group, and pruning leaves it alone. */
  lemma {:induction false} AddedGrantClean(a: Access, tag: string, known: set<string>)
    requires a.capabilities.Some? ==> WellFormed(a.capabilities.value)
    requires !Waiting(a, known) && "tag:" <= tag
    ensures GrantClean(Denote(GrantJson(a, tag)), known)
  {
    GrantMeaning(a, tag);
    SourcesClean(a, known);
    var grant := Denote(GrantJson(a, tag)).members;
    assert "src"[0] != "dst"[0] && "src"[0] != "app"[0] && "src"[0] != "ip"[0];
    assert "dst"[0] != "app"[0] && "dst"[0] != "ip"[0];
    assert ArrayField(grant, "src") == Strings(a.sources);
    assert ArrayField(grant, "dst") == [VStr(tag)];
    assert tag[0] == "tag:"[0] && GROUP_PREFIX[0] != "tag:"[0];
  }

  lemma {:induction false} AddedGrantsClean(adds: seq<Addition>, ings: seq<Ingress>, known: set<string>)
    requires forall ing | ing in ings :: ValidIngress(ing)
    requires forall add | add in adds :: Sound(add, ings, known)
    ensures GrantsClean(AddedGrants(adds), known)
  {
    if adds != [] {
      assert adds == [adds[0]] + adds[1..];
      AddedGrantsClean(adds[1..], ings, known);
      assert Sound(adds[0], ings, known);
      var ing, a :| ing in ings && ing.access.Some? && a in ing.access.value
                 && !Waiting(a, known) && adds[0] == Addition(GrantJson(a, AutoTag(ing)), AutoTag(ing));
      assert ValidIngress(ing);
      assert "tag:" <= AutoTag(ing) by {
        assert AutoTag(ing) == "tag:" + ("hm-" + ing.proxyBase);
      }
      AddedGrantClean(a, AutoTag(ing), known);
    }
  }

  // ── one sync after another ──────────────────────────────────────────────────

  /** Both policies have the same `groups` entry, or neither has one. */
  predicate SameGroups(a: Fields, b: Fields) {
    ("groups" in a <==> "groups" in b) && ("groups" in a ==> a["groups"] == b["groups"])
  }

  /** Declaring a tag changes no other entry. */
  lemma {:induction false} TagOwnerFrame(m: Fields, tag: string, owners: seq<string>)
    ensures SameGroups(WithTagOwner(m, tag, owners), m)
    ensures ArrayField(WithTagOwner(m, tag, owners), "grants") == ArrayField(m, "grants")
  {
    EntryNamesDiffer();
  }

  lemma {:induction false} CopiedGroupsFrame(m: Fields, other: Fields)
    ensures SameGroups(WithGroupsOf(m, other), other)
    ensures ArrayField(WithGroupsOf(m, other), "grants") == ArrayField(m, "grants")
    ensures ObjectField(WithGroupsOf(m, other), "tagOwners") == ObjectField(m, "tagOwners")
  {
    EntryNamesDiffer();
  }

  /** The additions a list of Ingresses contributes are clean for the groups known. */
  lemma {:induction false} ContributedGrantsClean(ings: seq<Ingress>, known: set<string>)
    requires forall ing | ing in ings :: ValidIngress(ing)
    ensures GrantsClean(AddedGrants(Additions(SortedIngresses(ings), known)), known)
  {
    var ordered := SortedIngresses(ings);
    AdditionsComplete(ordered, known);
    MultisetMembers(ings, ordered);
    AddedGrantsClean(Additions(ordered, known), ordered, known);
  }

  lemma {:induction false} AdditionsKeepGroups(m: Fields, adds: seq<Addition>)
    ensures SameGroups(WithAdditions(m, adds), m)
  {
    AdditionsExtend(m, adds);
    EntryNamesDiffer();
    var out := WithAdditions(m, adds);
    assert "groups" in out <==> "groups" in out - MERGED;
    assert "groups" in m <==> "groups" in m - MERGED;
    assert "groups" in m ==> out["groups"] == (out - MERGED)["groups"] == (m - MERGED)["groups"] == m["groups"];
  }

  /** Merging keeps `groups` and the grants there were, and adds only clean grants. */
  lemma {:induction false} MergeResult(base: Fields, ings: seq<Ingress>) returns (added: seq<Value>)
    requires forall ing | ing in ings :: ValidIngress(ing)
    ensures SameGroups(Merged(base, ings), base)
    ensures ArrayField(Merged(base, ings), "grants") == ArrayField(base, "grants") + added
    ensures GrantsClean(added, KnownGroups(base))
  {
    var adds := Additions(SortedIngresses(ings), KnownGroups(base));
    added := AddedGrants(adds);
    AdditionsKeepGroups(base, adds);
    ContributedGrantsClean(ings, KnownGroups(base));
    assert ArrayField(WithAdditions(base, adds), "grants") == ArrayField(base, "grants") + added by {
      AdditionsExtend(base, adds);
    }
  }

  lemma {:induction false} SameGroupsKnown(a: Fields, b: Fields)
    requires SameGroups(a, b)
    ensures KnownGroups(a) == KnownGroups(b)
  {
  }

  /** The shape of the operator's result: inline grants first, then the clean Ingress
      grants; groups from the live policy when SCIM owns them. */
  lemma {:induction false} OperatorResult(inlinePolicy: Fields, live: Fields, scimEnabled: bool, ings: seq<Ingress>)
    returns (added: seq<Value>)
    requires forall ing | ing in ings :: ValidIngress(ing)
    ensures SameGroups(OperatorDesired(inlinePolicy, live, scimEnabled, ings),
                       if scimEnabled then live else inlinePolicy)
    ensures var out := OperatorDesired(inlinePolicy, live, scimEnabled, ings);
            ArrayField(out, "grants") == ArrayField(inlinePolicy, "grants") + added
            && GrantsClean(added, KnownGroups(out))
  {
    var copied := if scimEnabled then WithGroupsOf(inlinePolicy, live) else inlinePolicy;
    var base := WithTagOwner(copied, HEADMASTER_TAG, []);
    CopiedGroupsFrame(inlinePolicy, live);
    TagOwnerFrame(copied, HEADMASTER_TAG, []);
    added := MergeResult(base, ings);
    SameGroupsKnown(Merged(base, ings), base);
  }

  /** The operator's result depends on the live policy through its groups alone. */
  lemma {:induction false} OnlyGroupsMatter(inlinePolicy: Fields, a: Fields, b: Fields, scimEnabled: bool,
                                            ings: seq<Ingress>)
    requires scimEnabled ==> SameGroups(a, b)
    ensures OperatorDesired(inlinePolicy, a, scimEnabled, ings) == OperatorDesired(inlinePolicy, b, scimEnabled, ings)
  {
    if scimEnabled {
      assert WithGroupsOf(inlinePolicy, a) == WithGroupsOf(inlinePolicy, b);
    }
  }

  ghost predicate OperatorQuiet(t: PolicyText, inlineText: PolicyText, scimEnabled: bool, ings: seq<Ingress>)
    requires ParsedRoot(inlineText).Some?
  {
    t.Document? &&
    Reads(t, OperatorDesired(LiveFields(inlineText), CopiedFrom(inlineText, t), scimEnabled, ings))
  }

  ghost predicate ScimQuiet(t: PolicyText, groups: seq<Group>) {
    ParsedRoot(t).Some? && Reads(t, ScimDesired(LiveFields(t), groups))
  }

  /** After one operator sync the next one has nothing to write, whatever was there. */
  lemma {:induction false} OperatorSyncIsIdempotent(before: PolicyText, inlineText: PolicyText, scimEnabled: bool,
                                                    ings: seq<Ingress>, after: PolicyText, wrote: bool)
    requires forall ing | ing in ings :: ValidIngress(ing)
    requires OperatorSynced(before, inlineText, scimEnabled, ings, after, wrote)
    ensures OperatorQuiet(after, inlineText, scimEnabled, ings)
    ensures forall again, wroteAgain :: OperatorSynced(after, inlineText, scimEnabled, ings, again, wroteAgain)
              ==> !wroteAgain && again == after
  {
    var inlinePolicy := LiveFields(inlineText);
    var copied := CopiedFrom(inlineText, before);
    var added := OperatorResult(inlinePolicy, copied, scimEnabled, ings);
    OnlyGroupsMatter(inlinePolicy, LiveFields(after), copied, scimEnabled, ings);
  }

  // ── the two writers together ────────────────────────────────────────────────

  lemma {:induction false} ScimResult(live: Fields, groups: seq<Group>)
    ensures SameGroups(ScimDesired(live, groups), WithGroups(map[], groups))
    ensures KnownGroups(ScimDesired(live, groups)) == GroupKeys(groups)
  {
    GroupsObjectKeys(groups);
    EntryNamesDiffer();
  }

  lemma {:induction false} SyncedShows(before: PolicyText, groups: seq<Group>, after: PolicyText, wrote: bool)
    requires ScimSynced(before, groups, after, wrote)
    ensures ParsedRoot(after).Some? && SameGroups(LiveFields(after), WithGroups(map[], groups))
  {
    ScimResult(LiveFields(before), groups);
  }

  /** With the groups already as rendered, SCIM changes nothing exactly when no grant
      names a group that is not one of them. */
  lemma {:induction false} ScimFixedPoint(m: Fields, groups: seq<Group>)
    requires SameGroups(m, WithGroups(map[], groups))
    ensures ScimDesired(m, groups) == m <==> GrantsClean(ArrayField(m, "grants"), GroupKeys(groups))
    ensures KnownGroups(m) == GroupKeys(groups)
  {
    GroupsObjectKeys(groups);
    assert WithGroups(m, groups) == m;
    PruneGrantsFixed(ArrayField(m, "grants"), GroupKeys(groups));
    if Pruned(m, GroupKeys(groups)) == m && "grants" in m && m["grants"].VArr? {
      assert m["grants"].elems == PruneGrants(m["grants"].elems, GroupKeys(groups));
    }
  }

  /** The condition an administrator can check beforehand: the inline grants name only
      groups SCIM knows. */
  ghost predicate InlineGrantsKnown(inlineText: PolicyText, groups: seq<Group>)
    requires ParsedRoot(inlineText).Some?
  {
    var m := LiveFields(inlineText);
    "grants" in m && m["grants"].VArr? ==> forall g | g in m["grants"].elems :: NamesOnly(g, groups)
  }

  /** Every string on an array side of the grant that begins like a group's name is the name of
      one of these. */
  ghost predicate NamesOnly(grant: Value, groups: seq<Group>) {
    forall side, v | grant.VObj? && side in {"src", "dst"} && side in grant.members && grant.members[side].VArr?
                  && v in grant.members[side].elems && v.VStr? && "group:" <= v.s ::
      exists i :: 0 <= i < |groups| && v.s == "group:" + groups[i].name
  }

  lemma {:induction false} NamesOnlyIsClean(grant: Value, groups: seq<Group>)
    ensures NamesOnly(grant, groups) <==> GrantClean(grant, GroupKeys(groups))
  {
    forall s: string
      ensures s in GroupKeys(groups) <==> exists i :: 0 <= i < |groups| && s == "group:" + groups[i].name
    {
      if i :| 0 <= i < |groups| && s == "group:" + groups[i].name {
        assert groups[i] in groups;
      }
    }
  }

  lemma {:induction false} KnownIsClean(inlineText: PolicyText, groups: seq<Group>)
    requires ParsedRoot(inlineText).Some?
    ensures InlineGrantsKnown(inlineText, groups) <==>
            GrantsClean(ArrayField(LiveFields(inlineText), "grants"), GroupKeys(groups))
  {
    hide NamesOnly, GrantClean, LiveFields;
    forall g
      ensures NamesOnly(g, groups) <==> GrantClean(g, GroupKeys(groups))
    {
      NamesOnlyIsClean(g, groups);
    }
  }

  lemma {:induction false} DocumentReads(t: PolicyText, m: Fields)
    requires t.Document? && Reads(t, m)
    ensures LiveFields(t) == m && ParsedRoot(t).Some?
    ensures forall n :: Reads(t, n) <==> n == m
  {
  }

  lemma {:induction false} CleanConcat(a: seq<Value>, b: seq<Value>, known: set<string>)
    ensures GrantsClean(a + b, known) <==> GrantsClean(a, known) && GrantsClean(b, known)
  {
    if GrantsClean(a + b, known) {
      assert forall v | v in a :: v in a + b;
      assert forall v | v in b :: v in a + b;
    }
  }

  /** One SCIM reconcile and then one operator sync, from any live policy: the operator
      is at rest and `groups` is SCIM's rendering; SCIM is at rest as well exactly when
      the inline grants name only SCIM groups. */
  lemma {:induction false} JointConvergence(t0: PolicyText, groups: seq<Group>, t1: PolicyText, wrote1: bool,
                                            inlineText: PolicyText, ings: seq<Ingress>, t2: PolicyText, wrote2: bool)
    requires forall ing | ing in ings :: ValidIngress(ing)
    requires ScimSynced(t0, groups, t1, wrote1)
    requires OperatorSynced(t1, inlineText, true, ings, t2, wrote2)
    ensures OperatorQuiet(t2, inlineText, true, ings)
    ensures SameGroups(LiveFields(t2), WithGroups(map[], groups))
    ensures ScimQuiet(t2, groups) <==> InlineGrantsKnown(inlineText, groups)
  {
    var inlinePolicy := LiveFields(inlineText);
    var m1 := ScimDesired(LiveFields(t0), groups);
    ScimResult(LiveFields(t0), groups);
    assert ParsedRoot(t1).Some? && LiveFields(t1) == m1;
    OperatorSyncIsIdempotent(t1, inlineText, true, ings, t2, wrote2);
    var m2 := OperatorDesired(inlinePolicy, m1, true, ings);
    var added := OperatorResult(inlinePolicy, m1, true, ings);
    DocumentReads(t2, m2);
    KnownIsClean(inlineText, groups);
    ScimFixedPoint(m2, groups);
    CleanConcat(ArrayField(inlinePolicy, "grants"), added, GroupKeys(groups));
  }

  datatype Turn = ScimTurn | OperatorTurn

  /** One turn of either writer: it runs to the end, or fails before writing. */
  ghost predicate TurnTaken(turn: Turn, t: PolicyText, groups: seq<Group>, inlineText: PolicyText, ings: seq<Ingress>,
                            t': PolicyText, wrote: bool)
  {
    || (t' == t && !wrote)
    || (turn.ScimTurn? && ScimSynced(t, groups, t', wrote))
    || (turn.OperatorTurn? && OperatorSynced(t, inlineText, true, ings, t', wrote))
  }

  datatype Entry = Entry(turn: Turn, text: PolicyText, wrote: bool)

  ghost predicate Schedule(t: PolicyText, run: seq<Entry>, groups: seq<Group>, inlineText: PolicyText, ings: seq<Ingress>)
    decreases |run|
  {
    run != [] ==>
      && TurnTaken(run[0].turn, t, groups, inlineText, ings, run[0].text, run[0].wrote)
      && Schedule(run[0].text, run[1..], groups, inlineText, ings)
  }

  lemma {:induction false} QuietTurn(e: Entry, t: PolicyText, groups: seq<Group>, inlineText: PolicyText,
                                     ings: seq<Ingress>)
    requires ParsedRoot(inlineText).Some?
    requires ScimQuiet(t, groups) && OperatorQuiet(t, inlineText, true, ings)
    requires TurnTaken(e.turn, t, groups, inlineText, ings, e.text, e.wrote)
    ensures !e.wrote && e.text == t
  {
  }

  /** From a joint fixpoint no schedule of turns ever calls SetPolicy again. */
  lemma {:induction false} NeverWritesAgain(t: PolicyText, run: seq<Entry>, groups: seq<Group>,
                                            inlineText: PolicyText, ings: seq<Ingress>)
    requires ParsedRoot(inlineText).Some?
    requires ScimQuiet(t, groups) && OperatorQuiet(t, inlineText, true, ings)
    requires Schedule(t, run, groups, inlineText, ings)
    ensures forall e | e in run :: !e.wrote && e.text == t
    decreases |run|
  {
    hide ScimQuiet, OperatorQuiet, TurnTaken;
    if run != [] {
      assert run == [run[0]] + run[1..];
      QuietTurn(run[0], t, groups, inlineText, ings);
      NeverWritesAgain(run[0].text, run[1..], groups, inlineText, ings);
    }
  }

  /** SCIM's half of a round: with the operator at rest and a foreign group in an inline
      grant, it has something to prune. */
  lemma {:induction false} ScimMustPrune(inlinePolicy: Fields, m: Fields, groups: seq<Group>, ings: seq<Ingress>)
    requires forall ing | ing in ings :: ValidIngress(ing)
    requires !GrantsClean(ArrayField(inlinePolicy, "grants"), GroupKeys(groups))
    requires SameGroups(m, WithGroups(map[], groups)) && m == OperatorDesired(inlinePolicy, m, true, ings)
    ensures ScimDesired(m, groups) != m && SameGroups(ScimDesired(m, groups), m)
  {
    var added := OperatorResult(inlinePolicy, m, true, ings);
    ScimFixedPoint(m, groups);
    CleanConcat(ArrayField(inlinePolicy, "grants"), added, GroupKeys(groups));
    ScimResult(m, groups);
  }

  /** The operator's half: it puts back what it wanted before. */
  lemma {:induction false} OperatorPutsBack(inlineText: PolicyText, t3: PolicyText, m: Fields, ings: seq<Ingress>,
                                            t4: PolicyText, wrote: bool)
    requires forall ing | ing in ings :: ValidIngress(ing)
    requires OperatorSynced(t3, inlineText, true, ings, t4, wrote)
    requires ParsedRoot(t3).Some? && SameGroups(LiveFields(t3), m) && LiveFields(t3) != m
    requires m == OperatorDesired(LiveFields(inlineText), m, true, ings)
    ensures wrote && LiveFields(t4) == m && OperatorQuiet(t4, inlineText, true, ings)
  {
    OnlyGroupsMatter(LiveFields(inlineText), LiveFields(t3), m, true, ings);
    DocumentReads(t4, m);
    if t3.Document? && Reads(t3, m) {
      DocumentReads(t3, m);
    }
  }

  /** When the condition fails, the two writers undo each other forever: every round of
      SCIM then operator writes twice and ends at the policy it started from. */
  lemma {:induction false} WritersFight(t2: PolicyText, groups: seq<Group>, inlineText: PolicyText,
                                        ings: seq<Ingress>, t3: PolicyText, wrote3: bool, t4: PolicyText,
                                        wrote4: bool)
    requires forall ing | ing in ings :: ValidIngress(ing)
    requires ParsedRoot(inlineText).Some? && !InlineGrantsKnown(inlineText, groups)
    requires OperatorQuiet(t2, inlineText, true, ings)
    requires SameGroups(LiveFields(t2), WithGroups(map[], groups))
    requires ScimSynced(t2, groups, t3, wrote3)
    requires OperatorSynced(t3, inlineText, true, ings, t4, wrote4)
    ensures wrote3 && wrote4
    ensures LiveFields(t4) == LiveFields(t2)
    ensures OperatorQuiet(t4, inlineText, true, ings)
    ensures SameGroups(LiveFields(t4), WithGroups(map[], groups))
  {
    var m := LiveFields(t2);
    KnownIsClean(inlineText, groups);
    DocumentReads(t2, OperatorDesired(LiveFields(inlineText), m, true, ings));
    ScimMustPrune(LiveFields(inlineText), m, groups, ings);
    assert ParsedRoot(t3).Some? && LiveFields(t3) == ScimDesired(m, groups);
    OperatorPutsBack(inlineText, t3, m, ings, t4, wrote4);
  }

  /** Without an inline policy the operator empties the policy, and SCIM leaves an empty
      policy alone exactly when it has no groups. */
  lemma {:induction false} NoPolicyFixpoint(groups: seq<Group>)
    ensures ScimQuiet(Empty, groups) <==> groups == []
  {
    assert LiveFields(Empty) == map[];
    ScimResult(map[], groups);
    if groups == [] {
      assert ScimDesired(map[], groups) == map[];
    } else {
      assert "groups" in WithGroups(map[], groups);
    }
  }
}
