/** What the operator makes of an inline policy, told entry by entry on its own terms: the
    policy it writes is the inline one with the groups, the tag owners and the grants described
    here, and nothing else. */
module Effective {
  import opened Json
  import opened PolicyMap
  import opened PolicyEditing
  import opened ScimPolicy
  import opened OperatorPolicy
  import opened Remote
  import opened Ordering
  import opened Convergence

  // ── grants ──────────────────────────────────────────────────────────────────

  /** One access entry of an Ingress. */
  datatype Wish = Wish(proxyBase: string, access: Access)

  function AccessWishes(ing: Ingress, access: seq<Access>): seq<Wish> {
    if access == [] then [] else [Wish(ing.proxyBase, access[0])] + AccessWishes(ing, access[1..])
  }

  /** All access entries, Ingress by Ingress; there are none where the annotations do not parse. */
  function Wishes(ings: seq<Ingress>): seq<Wish> {
    if ings == [] then []
    else (if ings[0].access.Some? then AccessWishes(ings[0], ings[0].access.value) else []) + Wishes(ings[1..])
  }

  /** None of the sources names a group that is not known. */
  ghost function Grantable(known: set<string>): Wish -> bool {
    (w: Wish) => forall s | s in w.access.sources && "group:" <= s :: s in known
  }

  /** The grant: the sources, the tag of the Ingress, and its capabilities or all ports. */
  ghost predicate IsGrantFor(w: Wish, v: Value) {
    && v.VObj?
    && v.members.Keys == {"src", "dst", if w.access.capabilities.Some? then "app" else "ip"}
    && v.members["src"].VArr? && |v.members["src"].elems| == |w.access.sources|
    && (forall i | 0 <= i < |w.access.sources| :: v.members["src"].elems[i] == VStr(w.access.sources[i]))
    && v.members["dst"] == VArr([VStr("tag:hm-" + w.proxyBase)])
    && (match w.access.capabilities
        case Some(c) => v.members["app"] == Denote(c)
        case None => v.members["ip"] == VArr([VStr("*:*")]))
  }

  ghost function GrantFor(): (Wish, Value) -> bool {
    (w, v) => IsGrantFor(w, v)
  }

  /** The same Ingresses, by namespace and name. */
  ghost predicate InKeyOrder(ings: seq<Ingress>, ordered: seq<Ingress>) {
    && multiset(ordered) == multiset(ings)
    && (forall i, j :: 0 <= i < j < |ordered| ==>
          (ordered[i].ns, ordered[i].name) == (ordered[j].ns, ordered[j].name)
          || KeyBefore((ordered[i].ns, ordered[i].name), (ordered[j].ns, ordered[j].name)))
  }

  lemma {:induction false} SortedInKeyOrder(ings: seq<Ingress>)
    ensures InKeyOrder(ings, SortedIngresses(ings))
  {
    var ordered := SortedIngresses(ings);
    IngressOrder();
    SortSorted(ings, IngressLe);
    forall i, j | 0 <= i < j < |ordered|
      ensures (ordered[i].ns, ordered[i].name) == (ordered[j].ns, ordered[j].name)
           || KeyBefore((ordered[i].ns, ordered[i].name), (ordered[j].ns, ordered[j].name))
    {
      assert IngressLe(ordered[i], ordered[j]);
      KeyLeIsDictionary((ordered[i].ns, ordered[i].name), (ordered[j].ns, ordered[j].name));
    }
  }

  lemma {:induction false} GrantIsFor(ing: Ingress, a: Access)
    requires a.capabilities.Some? ==> WellFormed(a.capabilities.value)
    ensures IsGrantFor(Wish(ing.proxyBase, a), Denote(GrantJson(a, AutoTag(ing))))
  {
    GrantMeaning(a, AutoTag(ing));
    GrantKeysDiffer();
  }

  lemma {:induction false} AddedGrantsConcat(a: seq<Addition>, b: seq<Addition>)
    ensures AddedGrants(a + b) == AddedGrants(a) + AddedGrants(b)
  {
    if a == [] {
      assert a + b == b;
    } else {
      assert (a + b)[1..] == a[1..] + b;
      AddedGrantsConcat(a[1..], b);
    }
  }

  lemma {:induction false} WishAtHead(ing: Ingress, access: seq<Access>, known: set<string>)
    requires access != []
    ensures Grantable(known)(Wish(ing.proxyBase, access[0])) <==> !Waiting(access[0], known)
    ensures AddedGrants(AccessAdditions(access, AutoTag(ing), known)) ==
            (if Waiting(access[0], known) then [] else [Denote(GrantJson(access[0], AutoTag(ing)))])
            + AddedGrants(AccessAdditions(access[1..], AutoTag(ing), known))
  {
    var one := [Addition(GrantJson(access[0], AutoTag(ing)), AutoTag(ing))];
    var rest := AccessAdditions(access[1..], AutoTag(ing), known);
    assert one[1..] == [];
    AddedGrantsConcat(one, rest);
    assert AccessAdditions(access, AutoTag(ing), known) == if Waiting(access[0], known) then rest else one + rest;
    assert [] + AddedGrants(rest) == AddedGrants(rest);
  }

  /** What the first access entry contributes. */
  lemma {:induction false} FirstAccess(ing: Ingress, access: seq<Access>, known: set<string>) returns (head: seq<Value>)
    requires access != [] && (access[0].capabilities.Some? ==> WellFormed(access[0].capabilities.value))
    ensures var w := Wish(ing.proxyBase, access[0]);
            && (if Grantable(known)(w) then |head| == 1 && GrantFor()(w, head[0]) else head == [])
            && AccessWishes(ing, access) == [w] + AccessWishes(ing, access[1..])
    ensures AddedGrants(AccessAdditions(access, AutoTag(ing), known))
         == head + AddedGrants(AccessAdditions(access[1..], AutoTag(ing), known))
  {
    var grant := Denote(GrantJson(access[0], AutoTag(ing)));
    GrantIsFor(ing, access[0]);
    WishAtHead(ing, access, known);
    head := if Waiting(access[0], known) then [] else [grant];
    hide Waiting, Grantable, IsGrantFor, AccessAdditions, GrantJson, Denote;
  }

  lemma {:induction false} NoAccess(ing: Ingress, known: set<string>)
    ensures AccessWishes(ing, []) == [] && AddedGrants(AccessAdditions([], AutoTag(ing), known)) == []
  {
  }

  lemma {:induction false} AccessGranted(ing: Ingress, access: seq<Access>, known: set<string>, rest: seq<Wish>,
                                         out: seq<Value>)
    requires forall a | a in access :: a.capabilities.Some? ==> WellFormed(a.capabilities.value)
    requires Filtered(rest, Grantable(known), GrantFor(), out)
    ensures Filtered(AccessWishes(ing, access) + rest, Grantable(known), GrantFor(),
                     AddedGrants(AccessAdditions(access, AutoTag(ing), known)) + out)
  {
    hide *;
    if access == [] {
      NoAccess(ing, known);
      assert AccessWishes(ing, access) + rest == rest;
      assert AddedGrants(AccessAdditions(access, AutoTag(ing), known)) + out == out;
    } else {
      var w, tail := Wish(ing.proxyBase, access[0]), access[1..];
      assert access[0] in access;
      AccessGranted(ing, tail, known, rest, out);
      var head := FirstAccess(ing, access, known);
      var wishes, more := AccessWishes(ing, tail), AddedGrants(AccessAdditions(tail, AutoTag(ing), known));
      FilteredCons(w, wishes + rest, Grantable(known), GrantFor(), head, more + out);
      assert ([w] + wishes) + rest == [w] + (wishes + rest);
      assert (head + more) + out == head + (more + out);
    }
  }

  /** The grants added are those of the entries that can be granted, in order. */
  lemma {:induction false} AddedExactly(ings: seq<Ingress>, known: set<string>)
    requires forall ing | ing in ings :: ValidIngress(ing)
    ensures Filtered(Wishes(ings), Grantable(known), GrantFor(), AddedGrants(Additions(ings, known)))
  {
    hide Filtered;
    if ings == [] {
      FilteredNone(Grantable(known), GrantFor());
    } else {
      var ing, rest := ings[0], ings[1..];
      assert ings == [ing] + rest;
      assert ValidIngress(ing);
      AddedExactly(rest, known);
      AddedGrantsConcat(IngressAdditions(ing, known), Additions(rest, known));
      if ing.access.Some? {
        AccessGranted(ing, ing.access.value, known, Wishes(rest), AddedGrants(Additions(rest, known)));
      } else {
        assert [] + Wishes(rest) == Wishes(rest);
        assert [] + AddedGrants(Additions(rest, known)) == AddedGrants(Additions(rest, known));
      }
    }
  }

  // ── tag owners ──────────────────────────────────────────────────────────────

  function OwnersOf(m: Fields, tag: string): seq<Value> {
    if "tagOwners" in m && m["tagOwners"].VObj? && tag in m["tagOwners"].members && m["tagOwners"].members[tag].VArr?
    then m["tagOwners"].members[tag].elems
    else []
  }

  predicate HasTag(m: Fields, tag: string) {
    "tagOwners" in m && m["tagOwners"].VObj? && tag in m["tagOwners"].members
  }

  /** The operator owns the tag, and stands behind those who own it already. */
  ghost predicate TagKept(before: Fields, after: Fields, tag: string, added: bool) {
    && OwnersOf(after, tag) == OwnersOf(before, tag) +
       (if added && VStr("tag:headmaster") !in OwnersOf(before, tag) then [VStr("tag:headmaster")] else [])
    && (HasTag(before, tag) || added ==> HasTag(after, tag))
    && (HasTag(after, tag) ==> HasTag(before, tag) || added || tag == "tag:headmaster")
    && (HasTag(before, tag) && !added && tag != "tag:headmaster" ==>
          after["tagOwners"].members[tag] == before["tagOwners"].members[tag])
  }

  predicate TagAmong(adds: seq<Addition>, tag: string) {
    exists add :: add in adds && add.tag == tag
  }

  lemma {:induction false} OneTagKept(m: Fields, declared: string, grant: Value, tag: string)
    ensures TagKept(m, WithGrants(WithTagOwner(m, declared, [HEADMASTER_TAG]), [grant]), tag, tag == declared)
  {
    var tagged := WithTagOwner(m, declared, [HEADMASTER_TAG]);
    GrantsKeepTags(tagged, [grant]);
    EntryNamesDiffer();
    var existing := ArrayField(ObjectField(m, "tagOwners"), declared);
    assert NewOwners(existing, [HEADMASTER_TAG])
        == if VStr("tag:headmaster") in existing then [] else [VStr("tag:headmaster")];
    assert OwnersOf(m, declared) == existing;
  }

  lemma {:induction false} TagKeptTwice(a: Fields, b: Fields, c: Fields, tag: string, first: bool, second: bool)
    requires TagKept(a, b, tag, first) && TagKept(b, c, tag, second)
    ensures TagKept(a, c, tag, first || second)
  {
  }

  /** Additions make the operator own their tags, and touch no other. */
  lemma {:induction false} AddedTagsExactly(m: Fields, adds: seq<Addition>, tag: string)
    ensures TagKept(m, WithAdditions(m, adds), tag, TagAmong(adds, tag))
  {
    if adds != [] {
      var init, last := adds[..|adds| - 1], adds[|adds| - 1];
      assert adds == init + [last];
      AddedTagsExactly(m, init, tag);
      OneTagKept(WithAdditions(m, init), last.tag, Denote(last.grant), tag);
      hide TagKept;
      TagKeptTwice(m, WithAdditions(m, init), WithAdditions(m, adds), tag, TagAmong(init, tag), tag == last.tag);
      assert TagAmong(adds, tag) <==> TagAmong(init, tag) || tag == last.tag;
    }
  }

  /** Some entry that can be granted belongs to the Ingress with that tag. */
  ghost predicate TagGranted(ings: seq<Ingress>, known: set<string>, tag: string) {
    exists ing, a :: ing in ings && ing.access.Some? && a in ing.access.value
                  && Grantable(known)(Wish(ing.proxyBase, a)) && tag == "tag:hm-" + ing.proxyBase
  }

  lemma {:induction false} TagsOfAdditions(ings: seq<Ingress>, known: set<string>, tag: string)
    ensures TagAmong(Additions(SortedIngresses(ings), known), tag) <==> TagGranted(ings, known, tag)
  {
    var ordered := SortedIngresses(ings);
    MultisetMembers(ings, ordered);
    AdditionsComplete(ordered, known);
    if TagGranted(ings, known, tag) {
      var ing, a :| ing in ings && ing.access.Some? && a in ing.access.value
                 && Grantable(known)(Wish(ing.proxyBase, a)) && tag == "tag:hm-" + ing.proxyBase;
      var add := Addition(GrantJson(a, AutoTag(ing)), AutoTag(ing));
      assert ing in ordered && !Waiting(a, known);
      assert Sound(add, ordered, known);
    }
    if TagAmong(Additions(ordered, known), tag) {
      var add :| add in Additions(ordered, known) && add.tag == tag;
      assert Sound(add, ordered, known);
      var ing, a :| ing in ordered && ing.access.Some? && a in ing.access.value
                 && !Waiting(a, known) && add == Addition(GrantJson(a, AutoTag(ing)), AutoTag(ing));
      assert ing in ings && Grantable(known)(Wish(ing.proxyBase, a));
    }
  }

  /** Declaring the operator's own tag gives nobody a new owner. */
  lemma {:induction false} OwnTagKept(m: Fields, tag: string)
    ensures TagKept(m, WithTagOwner(m, HEADMASTER_TAG, []), tag, false)
    ensures HasTag(WithTagOwner(m, HEADMASTER_TAG, []), "tag:headmaster")
  {
    var existing := ArrayField(ObjectField(m, "tagOwners"), HEADMASTER_TAG);
    assert existing + NewOwners(existing, []) == existing;
  }

  // ── the whole policy ────────────────────────────────────────────────────────

  ghost function GroupNames(m: Fields): set<string> {
    if "groups" in m && m["groups"].VObj? then m["groups"].members.Keys else {}
  }

  ghost function GrantsOf(m: Fields): seq<Value> {
    if "grants" in m && m["grants"].VArr? then m["grants"].elems else []
  }

  /** The same entry, or none in either. */
  ghost predicate SameEntry(a: Fields, b: Fields, key: string) {
    (key in a <==> key in b) && (key in a ==> a[key] == b[key])
  }

  /** The inline grants, then those of the Ingresses' entries that can be granted, by namespace
      and name. */
  ghost predicate GrantsWanted(inlinePolicy: Fields, ings: seq<Ingress>, out: Fields) {
    exists ordered, added ::
      && InKeyOrder(ings, ordered)
      && Filtered(Wishes(ordered), Grantable(GroupNames(out)), GrantFor(), added)
      && GrantsOf(out) == GrantsOf(inlinePolicy) + added
      && (added == [] ==> SameEntry(out, inlinePolicy, "grants"))
  }

  ghost predicate WantedByOperator(inlinePolicy: Fields, live: Fields, scimEnabled: bool, ings: seq<Ingress>,
                                   out: Fields)
  {
    && SameEntry(out, if scimEnabled then live else inlinePolicy, "groups")
    && GrantsWanted(inlinePolicy, ings, out)
    && HasTag(out, "tag:headmaster")
    && (forall tag :: TagKept(inlinePolicy, out, tag, TagGranted(ings, GroupNames(out), tag)))
    && (forall k | k !in {"groups", "grants", "tagOwners"} :: SameEntry(out, inlinePolicy, k))
  }

  lemma {:induction false} TagOwnersMatter(a: Fields, b: Fields, c: Fields, tag: string, added: bool)
    requires ("tagOwners" in a <==> "tagOwners" in b) && ("tagOwners" in a ==> a["tagOwners"] == b["tagOwners"])
    requires TagKept(b, c, tag, added)
    ensures TagKept(a, c, tag, added)
  {
  }

  lemma {:induction false} MergedTags(base: Fields, ings: seq<Ingress>, tag: string)
    ensures TagKept(base, Merged(base, ings), tag, TagGranted(ings, KnownGroups(base), tag))
  {
    hide TagKept, TagGranted;
    AddedTagsExactly(base, Additions(SortedIngresses(ings), KnownGroups(base)), tag);
    TagsOfAdditions(ings, KnownGroups(base), tag);
  }

  function Copied(inlinePolicy: Fields, live: Fields, scimEnabled: bool): Fields {
    if scimEnabled then WithGroupsOf(inlinePolicy, live) else inlinePolicy
  }

  lemma {:induction false} CopiedEntries(inlinePolicy: Fields, live: Fields, scimEnabled: bool, k: string)
    ensures SameEntry(Copied(inlinePolicy, live, scimEnabled), if scimEnabled then live else inlinePolicy, "groups")
    ensures k != "groups" ==> SameEntry(Copied(inlinePolicy, live, scimEnabled), inlinePolicy, k)
  {
  }

  lemma {:induction false} OperatorTagsExactly(inlinePolicy: Fields, live: Fields, scimEnabled: bool,
                                               ings: seq<Ingress>, tag: string)
    ensures var out := OperatorDesired(inlinePolicy, live, scimEnabled, ings);
            && HasTag(out, "tag:headmaster")
            && TagKept(inlinePolicy, out, tag, TagGranted(ings, KnownGroups(out), tag))
  {
    var copied := Copied(inlinePolicy, live, scimEnabled);
    var base := WithTagOwner(copied, HEADMASTER_TAG, []);
    var out := Merged(base, ings);
    EntryNamesDiffer();
    CopiedEntries(inlinePolicy, live, scimEnabled, "tagOwners");
    OwnTagKept(copied, tag);
    TagOwnersMatter(inlinePolicy, copied, base, tag, false);
    MergedTags(base, ings, tag);
    MergedTags(base, ings, "tag:headmaster");
    assert HasTag(out, "tag:headmaster");
    AdditionsKeepGroups(base, Additions(SortedIngresses(ings), KnownGroups(base)));
    SameGroupsKnown(out, base);
    hide TagKept, TagGranted, KnownGroups;
    TagKeptTwice(inlinePolicy, base, out, tag, false, TagGranted(ings, KnownGroups(base), tag));
  }

  lemma {:induction false} MergedGrants(base: Fields, adds: seq<Addition>)
    ensures GrantsOf(WithAdditions(base, adds)) == GrantsOf(base) + AddedGrants(adds)
    ensures GroupNames(WithAdditions(base, adds)) == KnownGroups(base)
    ensures AddedGrants(adds) == [] ==> WithAdditions(base, adds) == base
  {
    AdditionsExtend(base, adds);
    AdditionsKeepGroups(base, adds);
    SameGroupsKnown(WithAdditions(base, adds), base);
  }

  lemma {:induction false} BaseGrants(inlinePolicy: Fields, live: Fields, scimEnabled: bool)
    ensures SameEntry(WithTagOwner(Copied(inlinePolicy, live, scimEnabled), HEADMASTER_TAG, []), inlinePolicy, "grants")
  {
    EntryNamesDiffer();
    CopiedEntries(inlinePolicy, live, scimEnabled, "grants");
  }

  lemma {:induction false} OperatorGrantsExactly(inlinePolicy: Fields, live: Fields, scimEnabled: bool,
                                                 ings: seq<Ingress>)
    requires forall ing | ing in ings :: ValidIngress(ing)
    ensures GrantsWanted(inlinePolicy, ings, OperatorDesired(inlinePolicy, live, scimEnabled, ings))
  {
    var base := WithTagOwner(Copied(inlinePolicy, live, scimEnabled), HEADMASTER_TAG, []);
    var ordered, known := SortedIngresses(ings), KnownGroups(base);
    var adds := Additions(ordered, known);
    assert OperatorDesired(inlinePolicy, live, scimEnabled, ings) == WithAdditions(base, adds);
    SortedInKeyOrder(ings);
    MultisetMembers(ings, ordered);
    AddedExactly(ordered, known);
    MergedGrants(base, adds);
    BaseGrants(inlinePolicy, live, scimEnabled);
    hide Filtered, InKeyOrder, Additions, WithAdditions, WithTagOwner, KnownGroups, AddedGrants, OperatorDesired;
    assert GrantsOf(base) == GrantsOf(inlinePolicy);
  }

  lemma {:induction false} OtherEntriesStay(inlinePolicy: Fields, live: Fields, scimEnabled: bool, ings: seq<Ingress>,
                                            k: string)
    ensures var out := OperatorDesired(inlinePolicy, live, scimEnabled, ings);
            && (k !in {"groups", "grants", "tagOwners"} ==> SameEntry(out, inlinePolicy, k))
            && SameEntry(out, if scimEnabled then live else inlinePolicy, "groups")
  {
    var copied := Copied(inlinePolicy, live, scimEnabled);
    var base := WithTagOwner(copied, HEADMASTER_TAG, []);
    var adds := Additions(SortedIngresses(ings), KnownGroups(base));
    CopiedEntries(inlinePolicy, live, scimEnabled, k);
    EntryNamesDiffer();
    AdditionsKeepGroups(base, adds);
    AdditionsExtend(base, adds);
    if k !in MERGED {
      assert k in WithAdditions(base, adds) <==> k in WithAdditions(base, adds) - MERGED;
      assert k in base <==> k in base - MERGED;
      assert k in base ==> WithAdditions(base, adds)[k] == (WithAdditions(base, adds) - MERGED)[k] == (base - MERGED)[k];
    }
  }

  /** What the operator wants of an inline policy and a live one is just that. */
  lemma {:induction false} OperatorWantsExactly(inlinePolicy: Fields, live: Fields, scimEnabled: bool,
                                                ings: seq<Ingress>)
    requires forall ing | ing in ings :: ValidIngress(ing)
    ensures WantedByOperator(inlinePolicy, live, scimEnabled, ings,
                             OperatorDesired(inlinePolicy, live, scimEnabled, ings))
  {
    var out := OperatorDesired(inlinePolicy, live, scimEnabled, ings);
    OperatorGrantsExactly(inlinePolicy, live, scimEnabled, ings);
    assert GroupNames(out) == KnownGroups(out);
    hide TagKept, TagGranted, GrantsWanted, HasTag, SameEntry, OperatorDesired, KnownGroups;
    forall tag
      ensures HasTag(out, "tag:headmaster") && TagKept(inlinePolicy, out, tag, TagGranted(ings, GroupNames(out), tag))
    {
      OperatorTagsExactly(inlinePolicy, live, scimEnabled, ings, tag);
    }
    forall k
      ensures SameEntry(out, if scimEnabled then live else inlinePolicy, "groups")
      ensures k !in {"groups", "grants", "tagOwners"} ==> SameEntry(out, inlinePolicy, k)
    {
      OtherEntriesStay(inlinePolicy, live, scimEnabled, ings, k);
    }
    assert HasTag(out, "tag:headmaster") by {
      OperatorTagsExactly(inlinePolicy, live, scimEnabled, ings, "");
    }
    assert SameEntry(out, if scimEnabled then live else inlinePolicy, "groups") by {
      OtherEntriesStay(inlinePolicy, live, scimEnabled, ings, "");
    }
  }

  /** So the policy an operator sync leaves when it succeeds is the one described here, with the
      live policy's groups; or the inline one's own, when the live policy does not parse. */
  lemma {:induction false} SyncedExactly(before: PolicyText, inlineText: PolicyText, scimEnabled: bool,
                                         ings: seq<Ingress>, after: PolicyText, wrote: bool)
    requires OperatorSynced(before, inlineText, scimEnabled, ings, after, wrote)
    requires forall ing | ing in ings :: ValidIngress(ing)
    ensures ParsedRoot(inlineText).Some? && ParsedRoot(after).Some?
    ensures var inlinePolicy := LiveFields(inlineText);
            WantedByOperator(inlinePolicy, if before.Garbled? then inlinePolicy else LiveFields(before), scimEnabled,
                             ings, LiveFields(after))
  {
    var inlinePolicy, copied := LiveFields(inlineText), CopiedFrom(inlineText, before);
    OperatorWantsExactly(inlinePolicy, copied, scimEnabled, ings);
    hide WantedByOperator;
    DocumentReads(after, OperatorDesired(inlinePolicy, copied, scimEnabled, ings));
  }

  /** Without an inline policy a sync that succeeds, or whose reply alone was lost, leaves the
      policy empty; it calls SetPolicy exactly when it was not empty before. */
  lemma {:induction false} EmptiedExactly(before: PolicyText, scimEnabled: bool, ings: seq<Ingress>, connectFails: bool,
                                          rpc: Rpc, after: PolicyText, ok: bool, wrote: bool)
    requires OperatorOutcome(before, NoPolicy, scimEnabled, ings, connectFails, rpc, after, ok, wrote)
    ensures wrote <==> !connectFails && before != Empty
    ensures ok <==> !connectFails && (before == Empty || rpc.Delivered?)
    ensures after == if !connectFails && !rpc.Refused? then Empty else before
  {
  }

  /** With one, it fails exactly when connecting failed, the inline policy does not parse, or
      SetPolicy did not report success; and when nothing fails, what is there is as described. */
  lemma {:induction false} SyncExactly(before: PolicyText, inlineText: PolicyText, scimEnabled: bool,
                                       ings: seq<Ingress>, connectFails: bool, rpc: Rpc, after: PolicyText, ok: bool,
                                       wrote: bool)
    requires OperatorOutcome(before, Inline(inlineText), scimEnabled, ings, connectFails, rpc, after, ok, wrote)
    requires ValidText(before) && ValidText(after) && forall ing | ing in ings :: ValidIngress(ing)
    ensures ok <==> !connectFails && !inlineText.Garbled? && (wrote ==> rpc.Delivered?)
    ensures !wrote || rpc.Refused? ==> after == before
    ensures ok || after != before ==>
              && ParsedRoot(inlineText).Some? && ParsedRoot(after).Some?
              && WantedByOperator(LiveFields(inlineText),
                                  if before.Garbled? then LiveFields(inlineText) else LiveFields(before), scimEnabled,
                                  ings, LiveFields(after))
  {
    if ok || after != before {
      OutcomeIsSync(before, Inline(inlineText), scimEnabled, ings, connectFails, rpc, after, ok, wrote);
      SyncedExactly(before, inlineText, scimEnabled, ings, after, wrote);
    }
    hide WantedByOperator, AsWanted;
  }
}
