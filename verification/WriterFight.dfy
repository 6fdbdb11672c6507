/** The two policy writers undoing each other: it never ends, and it happens. */
module WriterFight {
  import opened Json
  import opened PolicyMap
  import opened PolicyEditing
  import opened ScimPolicy
  import opened OperatorPolicy
  import opened Convergence

  /** A SCIM reconcile and then an operator sync, both running to the end. */
  datatype Round = Round(scim: PolicyText, scimWrote: bool, operator: PolicyText, operatorWrote: bool)

  ghost predicate Rounds(t: PolicyText, rs: seq<Round>, groups: seq<Group>, inlineText: PolicyText, ings: seq<Ingress>)
    decreases |rs|
  {
    rs != [] ==>
      && ScimSynced(t, groups, rs[0].scim, rs[0].scimWrote)
      && OperatorSynced(rs[0].scim, inlineText, true, ings, rs[0].operator, rs[0].operatorWrote)
      && Rounds(rs[0].operator, rs[1..], groups, inlineText, ings)
  }

  /** So it goes on through any number of rounds: every one of them writes twice and ends at
      the policy the first started from. */
  lemma {:induction false} FightNeverEnds(t: PolicyText, rs: seq<Round>, groups: seq<Group>, inlineText: PolicyText,
                                          ings: seq<Ingress>)
    requires forall ing | ing in ings :: ValidIngress(ing)
    requires ParsedRoot(inlineText).Some? && !InlineGrantsKnown(inlineText, groups)
    requires OperatorQuiet(t, inlineText, true, ings)
    requires SameGroups(LiveFields(t), WithGroups(map[], groups))
    requires Rounds(t, rs, groups, inlineText, ings)
    ensures forall i | 0 <= i < |rs| ::
              rs[i].scimWrote && rs[i].operatorWrote && Reads(rs[i].operator, LiveFields(t))
    decreases |rs|
  {
    if rs != [] {
      var r := rs[0];
      WritersFight(t, groups, inlineText, ings, r.scim, r.scimWrote, r.operator, r.operatorWrote);
      FightNeverEnds(r.operator, rs[1..], groups, inlineText, ings);
      forall i | 0 <= i < |rs|
        ensures rs[i].scimWrote && rs[i].operatorWrote && Reads(rs[i].operator, LiveFields(t))
      {
        if i > 0 {
          assert rs[1..][i - 1] == rs[i];
        }
      }
    }
  }

  // ── a fight that happens ────────────────────────────────────────────────────

  /** A policy with these grants and nothing else but the operator's tag. */
  function TaggedPolicy(grants: seq<Json>): PolicyText {
    Document(Obj([Member("grants", Arr(grants)),
                  Member("tagOwners", Obj([Member(HEADMASTER_TAG, Arr([]))]))]))
  }

  const ORPHAN: Json := Obj([Member("src", Arr([Str("group:x")]))])

  const INLINE: PolicyText := Document(Obj([Member("grants", Arr([ORPHAN]))]))

  lemma {:induction false} OneMember(key: string, j: Json)
    requires WellFormed(j)
    ensures GoodMembers([Member(key, j)]) && DenoteMembers([Member(key, j)]) == map[key := Denote(j)]
  {
    assert [Member(key, j)][1..] == [];
  }

  function Tagged(grants: seq<Value>): Fields {
    map["grants" := VArr(grants), "tagOwners" := VObj(map[HEADMASTER_TAG := VArr([])])]
  }

  lemma {:induction false} TaggedEntries(grants: seq<Value>, others: seq<Value>)
    ensures Tagged(grants).Keys == {"grants", "tagOwners"} && Tagged(grants)["grants"] == VArr(grants)
    ensures "groups" !in Tagged(grants)
    ensures Tagged(grants)["grants" := VArr(others)] == Tagged(others)
    ensures Tagged(grants) == Tagged(others) ==> grants == others
  {
    EntryNamesDiffer();
  }

  lemma {:induction false} TaggedFields(grants: seq<Json>)
    requires forall g | g in grants :: WellFormed(g)
    ensures ValidText(TaggedPolicy(grants))
    ensures LiveFields(TaggedPolicy(grants)) == Tagged(DenoteAll(grants))
  {
    EntryNamesDiffer();
    OneMember(HEADMASTER_TAG, Arr([]));
    TwoMembers([Member("grants", Arr(grants)), Member("tagOwners", Obj([Member(HEADMASTER_TAG, Arr([]))]))]);
  }

  lemma {:induction false} TwoMembers(ms: seq<Member>)
    requires |ms| == 2 && ms[0].key != ms[1].key && WellFormed(ms[0].value) && WellFormed(ms[1].value)
    ensures GoodMembers(ms)
    ensures DenoteMembers(ms) == map[ms[0].key := Denote(ms[0].value), ms[1].key := Denote(ms[1].value)]
  {
    assert ms[1..] == [ms[1]];
    OneMember(ms[1].key, ms[1].value);
  }

  lemma {:induction false} OrphanMeaning()
    ensures WellFormed(ORPHAN) && Denote(ORPHAN) == VObj(map["src" := VArr([VStr("group:x")])])
    ensures ValidText(INLINE) && LiveFields(INLINE) == map["grants" := VArr([Denote(ORPHAN)])]
    ensures StaleName("group:x", {})
  {
    OneElement(Str("group:x"));
    OneMember("src", Arr([Str("group:x")]));
    OneElement(ORPHAN);
    OneMember("grants", Arr([ORPHAN]));
    assert GROUP_PREFIX <= "group:x";
  }

  // SCIM's side: the grant has only a stale source, so that it goes.

  lemma {:induction false} OrphanIsStale()
    ensures Dropped(Denote(ORPHAN).members, {}) && !GrantClean(Denote(ORPHAN), {})
  {
    OrphanMeaning();
    var grant := Denote(ORPHAN).members;
    assert ArrayField(grant, "src") == [VStr("group:x")];
    assert VStr("group:x") in ArrayField(grant, "src");
    assert [VStr("group:x")][1..] == [];
    assert Fresh([VStr("group:x")], {}) == [];
  }

  lemma {:induction false} OrphanIsPruned()
    ensures !InlineGrantsKnown(INLINE, [])
    ensures PruneGrants([Denote(ORPHAN)], {}) == []
  {
    OrphanMeaning();
    OrphanIsStale();
    KnownIsClean(INLINE, []);
    assert [Denote(ORPHAN)][1..] == [];
    assert Denote(ORPHAN) in ArrayField(LiveFields(INLINE), "grants");
  }

  lemma {:induction false} ScimWithoutGroups(m: Fields, grants: seq<Value>)
    requires "groups" !in m && "grants" in m && m["grants"] == VArr(grants)
    ensures ScimDesired(m, []) == m["grants" := VArr(PruneGrants(grants, {}))]
  {
    assert WithGroups(m, []) == m;
    assert KnownGroups(m) == {};
  }

  lemma {:induction false} OrphanIsTakenAway()
    ensures ScimDesired(Tagged([Denote(ORPHAN)]), []) == Tagged([])
  {
    OrphanIsPruned();
    TaggedEntries([Denote(ORPHAN)], []);
    ScimWithoutGroups(Tagged([Denote(ORPHAN)]), [Denote(ORPHAN)]);
  }

  // The operator's side: the inline policy with the operator's tag.

  lemma {:induction false} FirstTag(m: Fields, tag: string)
    requires "tagOwners" !in m
    ensures WithTagOwner(m, tag, []) == m["tagOwners" := VObj(map[tag := VArr([])])]
  {
    var declared := ObjectField(m, "tagOwners");
    var existing := ArrayField(declared, tag);
    assert declared == map[] && existing == [];
    assert existing + NewOwners(existing, []) == [];
    assert declared[tag := VArr([])] == map[tag := VArr([])];
  }

  lemma {:induction false} NothingToMerge(m: Fields)
    ensures Merged(m, []) == m
  {
    assert SortedIngresses([]) == [];
    assert Additions([], KnownGroups(m)) == [];
  }

  lemma {:induction false} OrphanIsWritten(live: Fields)
    requires "groups" !in live
    ensures OperatorDesired(LiveFields(INLINE), live, true, []) == Tagged([Denote(ORPHAN)])
  {
    EntryNamesDiffer();
    OrphanMeaning();
    var m := LiveFields(INLINE);
    assert WithGroupsOf(m, live) == m;
    FirstTag(m, HEADMASTER_TAG);
    NothingToMerge(WithTagOwner(m, HEADMASTER_TAG, []));
    assert WithTagOwner(m, HEADMASTER_TAG, []) == Tagged([Denote(ORPHAN)]);
  }

  /** The two texts the live policy goes back and forth between. */
  lemma {:induction false} TwoTexts()
    ensures ValidText(TaggedPolicy([ORPHAN])) && LiveFields(TaggedPolicy([ORPHAN])) == Tagged([Denote(ORPHAN)])
    ensures ValidText(TaggedPolicy([])) && LiveFields(TaggedPolicy([])) == Tagged([])
    ensures Tagged([]) != Tagged([Denote(ORPHAN)]) && "groups" !in Tagged([]) && "groups" !in Tagged([Denote(ORPHAN)])
  {
    OrphanMeaning();
    OneElement(ORPHAN);
    TaggedFields([ORPHAN]);
    TaggedFields([]);
    TaggedEntries([], [Denote(ORPHAN)]);
    TaggedEntries([Denote(ORPHAN)], []);
  }

  lemma {:induction false} OrphanTurns()
    ensures ScimSynced(TaggedPolicy([ORPHAN]), [], TaggedPolicy([]), true)
    ensures OperatorSynced(TaggedPolicy([]), INLINE, true, [], TaggedPolicy([ORPHAN]), true)
  {
    TwoTexts();
    OrphanIsTakenAway();
    OrphanIsWritten(Tagged([]));
  }

  /** An inline grant for `group:x` alone, and no SCIM groups: the operator writes the grant,
      SCIM takes it away, and the operator writes it again. */
  lemma {:induction false} FightHappens()
    ensures ParsedRoot(INLINE).Some? && !InlineGrantsKnown(INLINE, [])
    ensures OperatorQuiet(TaggedPolicy([ORPHAN]), INLINE, true, [])
    ensures SameGroups(LiveFields(TaggedPolicy([ORPHAN])), WithGroups(map[], []))
    ensures Rounds(TaggedPolicy([ORPHAN]), [Round(TaggedPolicy([]), true, TaggedPolicy([ORPHAN]), true)], [], INLINE, [])
  {
    TwoTexts();
    OrphanIsPruned();
    OrphanIsWritten(Tagged([Denote(ORPHAN)]));
    OrphanTurns();
    var rs := [Round(TaggedPolicy([]), true, TaggedPolicy([ORPHAN]), true)];
    assert rs[1..] == [];
  }
}
