/** The SCIM side's policy writer: replace `groups`, prune the grants, write back. */
module ScimPolicy {
  import opened Wrappers
  import opened Json
  import opened PolicyMap
  import opened PolicyEditing
  import opened Remote

  /** The live policy in headscale. */
  class PolicyCell {
    var policy: PolicyText

    constructor (policy: PolicyText)
      ensures this.policy == policy
    {
      this.policy := policy;
    }

    method SetPolicy(text: PolicyText, rpc: Rpc) returns (ok: bool)
      modifies this
      ensures policy == if rpc.Refused? then old(policy) else text
      ensures ok == rpc.Delivered?
    {
      if !rpc.Refused? {
        policy := text;
      }
      ok := rpc.Delivered?;
    }
  }

  /** The text stands for the policy object `m`. */
  ghost predicate Reads(t: PolicyText, m: Fields) {
    match t
    case Empty | Spaces => m == map[]
    case Document(Obj(ms)) => DenoteMembers(ms) == m
    case _ => false
  }

  /** The policy object an editor starts from. */
  ghost function LiveFields(t: PolicyText): Fields
    requires ParsedRoot(t).Some?
  {
    MeaningOf(ParsedRoot(t).value)
  }

  /** A SCIM sync that ran to the end: the policy is the desired one, and SetPolicy
      was called exactly when it was not so already. */
  ghost predicate ScimSynced(before: PolicyText, groups: seq<Group>, after: PolicyText, wrote: bool) {
    && ParsedRoot(before).Some?
    && ValidText(after)
    && (var desired := ScimDesired(LiveFields(before), groups);
        && Reads(after, desired)
        && (wrote <==> !Reads(before, desired))
        && (!wrote ==> after == before))
  }

  /** There is something to write: the policy parses and is not the wanted one. */
  ghost predicate MustWrite(before: PolicyText, groups: seq<Group>) {
    ParsedRoot(before).Some? && !Reads(before, ScimDesired(LiveFields(before), groups))
  }

  /** The text is the policy SCIM wants in place of `before`. */
  ghost predicate Written(before: PolicyText, groups: seq<Group>, after: PolicyText) {
    ParsedRoot(before).Some? && ValidText(after) && Reads(after, ScimDesired(LiveFields(before), groups))
  }

  /** How a SCIM sync ends: it fails exactly when the policy could not be read or parsed, or
      SetPolicy was called and did not report success; and the policy is the wanted one
      unless it stayed as it was for one of these reasons. */
  ghost predicate ScimOutcome(before: PolicyText, groups: seq<Group>, getFails: bool, rpc: Rpc, after: PolicyText,
                              ok: bool)
  {
    if getFails || ParsedRoot(before).None? then !ok && after == before
    else if !MustWrite(before, groups) then ok && after == before
    else
      && ok == rpc.Delivered?
      && (if rpc.Refused? then after == before else Written(before, groups, after))
  }

  lemma {:induction false} OutcomeSynced(before: PolicyText, groups: seq<Group>, getFails: bool, rpc: Rpc,
                                         after: PolicyText, ok: bool)
    requires ScimOutcome(before, groups, getFails, rpc, after, ok) && ValidText(before)
    ensures ok || after != before ==> ScimSynced(before, groups, after, MustWrite(before, groups))
  {
  }

  /** A sync that succeeded, or wrote, leaves the policy SCIM is to make of the one it found. */
  lemma {:induction false} OutcomeIsWanted(before: PolicyText, groups: seq<Group>, getFails: bool, rpc: Rpc,
                                           after: PolicyText, ok: bool)
    requires ScimOutcome(before, groups, getFails, rpc, after, ok) && ValidText(before) && DistinctNames(groups)
    requires ok || after != before
    ensures ParsedRoot(before).Some? && ParsedRoot(after).Some?
    ensures WantedByScim(LiveFields(before), groups, LiveFields(after))
  {
    ScimWantsExactly(LiveFields(before), groups);
    hide WantedByScim, ScimDesired;
    OutcomeSynced(before, groups, getFails, rpc, after, ok);
    assert LiveFields(after) == ScimDesired(LiveFields(before), groups);
  }

  // ── pruning one grant in place ──────────────────────────────────────────────

  predicate RemovesExactlyStale(elems: seq<Json>, gone: set<string>, known: set<string>) {
    forall e | e in elems && e.Str? :: e.s in gone <==> "group:" <= e.s && e.s !in known
  }

  lemma {:induction false} RemovesExactlyStaleTail(elems: seq<Json>, gone: set<string>, known: set<string>)
    requires elems != [] && RemovesExactlyStale(elems, gone, known)
    ensures RemovesExactlyStale(elems[1..], gone, known)
    ensures elems[0].Str? && elems[0].s in gone <==> Stale(Denote(elems[0]), known)
  {
    assert elems[0] in elems;
  }

  lemma {:induction false} DenoteCons(e: Json, rest: seq<Json>)
    ensures DenoteAll([e] + rest) == [Denote(e)] + DenoteAll(rest)
  {
    assert ([e] + rest)[1..] == rest;
  }

  lemma {:induction false} WithoutStale(elems: seq<Json>, gone: set<string>, known: set<string>)
    requires RemovesExactlyStale(elems, gone, known)
    ensures DenoteAll(Without(elems, gone)) == Fresh(DenoteAll(elems), known)
  {
    if elems != [] {
      RemovesExactlyStaleTail(elems, gone, known);
      WithoutStale(elems[1..], gone, known);
      DenoteCons(elems[0], Without(elems[1..], gone));
      assert DenoteAll(elems)[1..] == DenoteAll(elems[1..]);
    }
  }

  lemma {:induction false} StringElemsHasString(elems: seq<Json>)
    ensures StringElems(elems) == [] <==> !HasString(DenoteAll(elems))
  {
    StringElemsMembers(elems);
    if StringElems(elems) != [] {
      var s := StringElems(elems)[0];
      assert s in StringElems(elems);
      var i :| 0 <= i < |elems| && elems[i] == Str(s);
      assert DenoteAll(elems)[i] == VStr(s);
    } else {
      forall i | 0 <= i < |elems|
        ensures !DenoteAll(elems)[i].VStr?
      {
        assert elems[i] in elems;
      }
    }
  }

  lemma {:induction false} SideWithoutCompose(grant: seq<Member>, side: string, a: set<string>, b: set<string>)
    ensures SideWithout(SideWithout(grant, side, a), side, b) == SideWithout(grant, side, a + b)
    ensures SideWithout(grant, side, {}) == grant
  {
    match ArrayMember(grant, side)
    case None =>
    case Some(elems) =>
      var once := Arr(Without(elems, a));
      LookupPut(grant, side, once, side);
      WithoutTwice(elems, a, b);
      PutTwice(grant, side, once, Arr(Without(elems, a + b)));
      WithoutNothing(elems);
      PutSame(grant, side);
  }

  /** Removing exactly the stale strings of a side is the one-line filter on it. */
  lemma {:induction false} SideWithoutMeaning(grant: seq<Member>, side: string, gone: set<string>, known: set<string>)
    requires GoodMembers(grant)
    requires RemovesExactlyStale(Elems(grant, side), gone, known)
    ensures GoodMembers(SideWithout(grant, side, gone))
    ensures DenoteMembers(SideWithout(grant, side, gone)) == PruneSide(DenoteMembers(grant), side, known)
  {
    LookupMeaning(grant, side);
    if ArrayMember(grant, side).Some? {
      var elems := ArrayMember(grant, side).value;
      WithoutStale(elems, gone, known);
      WithoutWellFormed(elems, gone);
      PutGood(grant, side, Arr(Without(elems, gone)));
    }
  }

  /** The editor's root is `ms` with its grants array holding `nodes`. */
  ghost predicate Holds(editor: PolicyEditor, ms: seq<Member>, nodes: seq<Json>)
    reads editor
  {
    && editor.root == Some(Obj(Put(ms, "grants", Arr(nodes))))
    && editor.GrantNodes() == nodes
    && editor.Valid()
  }

  lemma {:induction false} HoldsAgain(ms: seq<Member>, nodes: seq<Json>, more: seq<Json>)
    ensures Put(Put(ms, "grants", Arr(nodes)), "grants", Arr(more)) == Put(ms, "grants", Arr(more))
  {
    PutTwice(ms, "grants", Arr(nodes), Arr(more));
  }

  /** Removes one more name from one side of the grant at `at`. */
  method RemoveOneMore(editor: PolicyEditor, at: nat, side: string, name: string,
                       ghost ms: seq<Member>, ghost nodes: seq<Json>, ghost gone: set<string>)
    requires at < |nodes| && nodes[at].Obj?
    requires Holds(editor, ms, nodes[at := Obj(SideWithout(nodes[at].members, side, gone))])
    modifies editor
    ensures Holds(editor, ms, nodes[at := Obj(SideWithout(nodes[at].members, side, gone + {name}))])
  {
    ghost var grant := nodes[at].members;
    ghost var now := nodes[at := Obj(SideWithout(grant, side, gone))];
    ghost var next := nodes[at := Obj(SideWithout(grant, side, gone + {name}))];
    SideWithoutCompose(grant, side, gone, {name});
    assert next == now[at := Obj(SideWithout(grant, side, gone + {name}))];
    HoldsAgain(ms, now, next);
    editor.RemoveFromSide(at, side, name);
  }

  function StaleAmong(names: seq<string>, known: set<string>): set<string> {
    set s | s in names && StaleName(s, known)
  }

  lemma {:induction false} StaleAmongAll(elems: seq<Json>, known: set<string>)
    ensures RemovesExactlyStale(elems, StaleAmong(StringElems(elems), known), known)
  {
    StringElemsMembers(elems);
  }

  lemma {:induction false} StaleAmongNext(names: seq<string>, k: nat, known: set<string>)
    requires k < |names|
    ensures StaleAmong(names[..k + 1], known) ==
            StaleAmong(names[..k], known) + if StaleName(names[k], known) then {names[k]} else {}
  {
    assert names[..k + 1] == names[..k] + [names[k]];
  }

  /** Removes the stale members of one side of the grant at `at`, one name at a time. */
  method PruneSideAt(editor: PolicyEditor, at: nat, side: string, known: set<string>,
                     ghost ms: seq<Member>, ghost nodes: seq<Json>)
    requires Holds(editor, ms, nodes) && at < |nodes| && nodes[at].Obj? && GoodMembers(nodes[at].members)
    modifies editor
    ensures exists gone :: RemovesExactlyStale(Elems(nodes[at].members, side), gone, known)
                        && Holds(editor, ms, nodes[at := Obj(SideWithout(nodes[at].members, side, gone))])
  {
    ghost var grant := nodes[at].members;
    var snapshot := StringElems(Elems(editor.GrantNodes()[at].members, side));
    SideWithoutCompose(grant, side, {}, {});
    assert nodes[at := Obj(grant)] == nodes;
    assert StaleAmong(snapshot[..0], known) == {};
    for k := 0 to |snapshot|
      invariant Holds(editor, ms, nodes[at := Obj(SideWithout(grant, side, StaleAmong(snapshot[..k], known)))])
    {
      StaleAmongNext(snapshot, k, known);
      if StaleName(snapshot[k], known) {
        RemoveOneMore(editor, at, side, snapshot[k], ms, nodes, StaleAmong(snapshot[..k], known));
      } else {
        assert StaleAmong(snapshot[..k + 1], known) == StaleAmong(snapshot[..k], known);
      }
    }
    assert snapshot[..|snapshot|] == snapshot;
    StaleAmongAll(Elems(grant, side), known);
  }

  // ── pruning all grants ──────────────────────────────────────────────────────

  /** Both sides of the grant at `at`, `src` first. */
  method PruneSides(editor: PolicyEditor, at: nat, known: set<string>, ghost ms: seq<Member>, ghost nodes: seq<Json>)
    requires Holds(editor, ms, nodes) && at < |nodes| && nodes[at].Obj? && GoodMembers(nodes[at].members)
    modifies editor
    ensures exists grant ::
              && GoodMembers(grant)
              && DenoteMembers(grant) == PruneGrant(DenoteMembers(nodes[at].members), known)
              && Holds(editor, ms, nodes[at := Obj(grant)])
  {
    ghost var grant := nodes[at].members;
    PruneSideAt(editor, at, "src", known, ms, nodes);
    ghost var goneSrc :| RemovesExactlyStale(Elems(grant, "src"), goneSrc, known)
                      && Holds(editor, ms, nodes[at := Obj(SideWithout(grant, "src", goneSrc))]);
    SideWithoutMeaning(grant, "src", goneSrc, known);
    ghost var half := SideWithout(grant, "src", goneSrc);
    ghost var halfNodes := nodes[at := Obj(half)];

    PruneSideAt(editor, at, "dst", known, ms, halfNodes);
    ghost var goneDst :| RemovesExactlyStale(Elems(half, "dst"), goneDst, known)
                      && Holds(editor, ms, halfNodes[at := Obj(SideWithout(half, "dst", goneDst))]);
    SideWithoutMeaning(half, "dst", goneDst, known);
    ghost var done := SideWithout(half, "dst", goneDst);
    assert halfNodes[at := Obj(done)] == nodes[at := Obj(done)];
  }

  /** One pass of the loop over the grants: prune both sides of the grant at `at`, and
      detach it if that emptied a side. `kept` says whether the node is still there. */
  method PruneGrantAt(editor: PolicyEditor, at: nat, known: set<string>,
                      ghost ms: seq<Member>, ghost nodes: seq<Json>)
    returns (kept: bool)
    requires Holds(editor, ms, nodes) && at < |nodes| && nodes[at].Obj? && GoodMembers(nodes[at].members)
    modifies editor
    ensures kept <==> KeepsSides(known)(Denote(nodes[at]))
    ensures kept ==> exists grant ::
              && GoodMembers(grant)
              && DenoteMembers(grant) == PruneGrant(DenoteMembers(nodes[at].members), known)
              && Holds(editor, ms, nodes[at := Obj(grant)])
    ensures !kept ==> Holds(editor, ms, nodes[..at] + nodes[at + 1..])
  {
    ghost var grant := nodes[at].members;
    var srcWasEmpty := StringElems(Elems(editor.GrantNodes()[at].members, "src")) == [];
    var dstWasEmpty := StringElems(Elems(editor.GrantNodes()[at].members, "dst")) == [];
    PruneSides(editor, at, known, ms, nodes);
    ghost var done :| GoodMembers(done) && DenoteMembers(done) == PruneGrant(DenoteMembers(grant), known)
                   && Holds(editor, ms, nodes[at := Obj(done)]);
    SidesAfterPruning(grant, done, known);
    GrantGoesExactly(DenoteMembers(grant), known);
    assert KeepsSides(known)(Denote(nodes[at])) <==> !Dropped(DenoteMembers(grant), known);
    hide KeepsSides, LosesSide, PruneGrant, GoodMembers, DenoteMembers;
    var srcIsEmpty := StringElems(Elems(editor.GrantNodes()[at].members, "src")) == [];
    var dstIsEmpty := StringElems(Elems(editor.GrantNodes()[at].members, "dst")) == [];
    kept := !((!srcWasEmpty && srcIsEmpty) || (!dstWasEmpty && dstIsEmpty));
    if !kept {
      ghost var now := nodes[at := Obj(done)];
      editor.RemoveNode(at);
      assert now[..at] + now[at + 1..] == nodes[..at] + nodes[at + 1..];
      HoldsAgain(ms, now, nodes[..at] + nodes[at + 1..]);
    }
  }

  lemma {:induction false} SidesAfterPruning(grant: seq<Member>, done: seq<Member>, known: set<string>)
    requires GoodMembers(grant) && GoodMembers(done)
    requires DenoteMembers(done) == PruneGrant(DenoteMembers(grant), known)
    ensures Emptied(DenoteMembers(grant), "src", known) <==>
            StringElems(Elems(grant, "src")) != [] && StringElems(Elems(done, "src")) == []
    ensures Emptied(DenoteMembers(grant), "dst", known) <==>
            StringElems(Elems(grant, "dst")) != [] && StringElems(Elems(done, "dst")) == []
  {
    var g := DenoteMembers(grant);
    SideMeaning(grant, "src");
    SideMeaning(grant, "dst");
    SideMeaning(done, "src");
    SideMeaning(done, "dst");
    assert ArrayField(DenoteMembers(done), "src") == Fresh(ArrayField(g, "src"), known);
    assert ArrayField(DenoteMembers(done), "dst") == Fresh(ArrayField(g, "dst"), known);
  }

  lemma {:induction false} SideMeaning(grant: seq<Member>, side: string)
    requires GoodMembers(grant)
    ensures StringElems(Elems(grant, side)) == [] <==> !HasString(ArrayField(DenoteMembers(grant), side))
  {
    ElemsMeaning(grant, side);
    StringElemsHasString(Elems(grant, side));
  }

  lemma {:induction false} PruneGrantsOne(v: Value, known: set<string>)
    ensures PruneGrants([v], known) == PruneOne(v, known)
  {
    assert [v][1..] == [];
  }

  /** The node list after the first `k` nodes of the snapshot have been handled. */
  ghost predicate Progress(nodes: seq<Json>, k: nat, i: nat, now: seq<Json>, known: set<string>) {
    && k <= |nodes| && i <= |now|
    && now[i..] == nodes[k..]
    && (forall e | e in now :: WellFormed(e))
    && DenoteAll(now[..i]) == PruneGrants(DenoteAll(nodes[..k]), known)
  }

  lemma {:induction false} ProgressMiddle(nodes: seq<Json>, k: nat, known: set<string>)
    requires k < |nodes|
    ensures PruneGrants(DenoteAll(nodes[..k + 1]), known)
         == PruneGrants(DenoteAll(nodes[..k]), known) + PruneGrants([Denote(nodes[k])], known)
  {
    assert DenoteAll(nodes[..k + 1]) == DenoteAll(nodes[..k]) + [Denote(nodes[k])];
    PruneGrantsConcat(DenoteAll(nodes[..k]), [Denote(nodes[k])], known);
  }

  lemma {:induction false} ProgressKeep(nodes: seq<Json>, k: nat, i: nat, now: seq<Json>, e: Json, known: set<string>)
    requires Progress(nodes, k, i, now, known) && k < |nodes|
    requires WellFormed(e) && PruneGrants([Denote(nodes[k])], known) == [Denote(e)]
    ensures i < |now| && Progress(nodes, k + 1, i + 1, now[i := e], known)
  {
    ProgressMiddle(nodes, k, known);
    assert now[i..][1..] == now[i + 1..];
    var next := now[i := e];
    assert next[i + 1..] == nodes[k + 1..];
    assert next[..i + 1] == now[..i] + [e];
    DenoteAllConcat(now[..i], [e]);
    OneElement(e);
  }

  /** A node that is no object stays as it is. */
  lemma {:induction false} ProgressSkip(nodes: seq<Json>, k: nat, i: nat, now: seq<Json>, known: set<string>)
    requires Progress(nodes, k, i, now, known) && k < |nodes| && !nodes[k].Obj?
    ensures Progress(nodes, k + 1, i + 1, now, known)
  {
    PruneGrantsOne(Denote(nodes[k]), known);
    assert now[i] == now[i..][0] == nodes[k];
    assert now[i] in now && now == now[i := nodes[k]];
    hide Progress;
    ProgressKeep(nodes, k, i, now, nodes[k], known);
  }

  lemma {:induction false} ProgressDrop(nodes: seq<Json>, k: nat, i: nat, now: seq<Json>, known: set<string>)
    requires Progress(nodes, k, i, now, known) && k < |nodes|
    requires PruneGrants([Denote(nodes[k])], known) == []
    ensures i < |now| && Progress(nodes, k + 1, i, now[..i] + now[i + 1..], known)
  {
    ProgressMiddle(nodes, k, known);
    assert now[i..][1..] == now[i + 1..];
    var next := now[..i] + now[i + 1..];
    assert next[..i] == now[..i] && next[i..] == nodes[k + 1..];
  }

  /** The node at position `i` is the snapshot's `k`-th. */
  lemma {:induction false} ProgressHead(nodes: seq<Json>, k: nat, i: nat, now: seq<Json>, known: set<string>)
    requires Progress(nodes, k, i, now, known) && k < |nodes|
    ensures i < |now| && now[i] == nodes[k]
    ensures now[i].Obj? ==> GoodMembers(now[i].members)
  {
    assert now[i] == now[i..][0] == nodes[k];
    assert now[i] in now;
  }

  lemma {:induction false} ProgressPruned(nodes: seq<Json>, k: nat, i: nat, now: seq<Json>, grant: seq<Member>,
                                          known: set<string>)
    requires Progress(nodes, k, i, now, known) && k < |nodes| && nodes[k].Obj? && GoodMembers(grant)
    requires KeepsSides(known)(Denote(nodes[k]))
    requires DenoteMembers(grant) == PruneGrant(DenoteMembers(nodes[k].members), known)
    ensures i < |now| && Progress(nodes, k + 1, i + 1, now[i := Obj(grant)], known)
  {
    PruneGrantsOne(Denote(nodes[k]), known);
    GrantGoesExactly(DenoteMembers(nodes[k].members), known);
    hide Progress, Dropped, PruneGrant;
    ProgressKeep(nodes, k, i, now, Obj(grant), known);
  }

  lemma {:induction false} ProgressDetached(nodes: seq<Json>, k: nat, i: nat, now: seq<Json>, known: set<string>)
    requires Progress(nodes, k, i, now, known) && k < |nodes| && nodes[k].Obj?
    requires !KeepsSides(known)(Denote(nodes[k]))
    ensures i < |now| && Progress(nodes, k + 1, i, now[..i] + now[i + 1..], known)
  {
    PruneGrantsOne(Denote(nodes[k]), known);
    GrantGoesExactly(DenoteMembers(nodes[k].members), known);
    hide Progress, Dropped, PruneGrant;
    ProgressDrop(nodes, k, i, now, known);
  }

  /** One iteration: the node at position `i` is the snapshot's `k`-th. */
  method PruneNode(editor: PolicyEditor, i: nat, known: set<string>,
                   ghost ms: seq<Member>, ghost snapshot: seq<Json>, ghost k: nat, ghost now: seq<Json>)
    returns (i': nat, ghost next: seq<Json>)
    requires Holds(editor, ms, now) && k < |snapshot| && Progress(snapshot, k, i, now, known)
    modifies editor
    ensures Holds(editor, ms, next) && Progress(snapshot, k + 1, i', next, known)
  {
    ProgressHead(snapshot, k, i, now, known);
    hide Progress, GoodMembers, KeepsSides, PruneGrant, DenoteMembers;
    if !editor.GrantNodes()[i].Obj? {
      next, i' := now, i + 1;
      ProgressSkip(snapshot, k, i, now, known);
      return;
    }
    var kept := PruneGrantAt(editor, i, known, ms, now);
    if kept {
      ghost var grant :| GoodMembers(grant)
                      && DenoteMembers(grant) == PruneGrant(DenoteMembers(now[i].members), known)
                      && Holds(editor, ms, now[i := Obj(grant)]);
      next, i' := now[i := Obj(grant)], i + 1;
      ProgressPruned(snapshot, k, i, now, grant, known);
    } else {
      next, i' := now[..i] + now[i + 1..], i;
      ProgressDetached(snapshot, k, i, now, known);
    }
  }

  lemma {:induction false} ProgressDone(ms: seq<Member>, snapshot: seq<Json>, i: nat, now: seq<Json>,
                                        known: set<string>)
    requires GoodMembers(ms) && Lookup(ms, "grants") == Some(Arr(snapshot))
    requires Progress(snapshot, |snapshot|, i, now, known)
    ensures GoodMembers(Put(ms, "grants", Arr(now)))
    ensures DenoteMembers(Put(ms, "grants", Arr(now))) == Pruned(DenoteMembers(ms), known)
  {
    LookupMeaning(ms, "grants");
    assert snapshot[..|snapshot|] == snapshot && now[..i] == now;
    PutGood(ms, "grants", Arr(now));
  }

  /** The loop over a snapshot of the grants, removing nodes while it runs. */
  method PruneAllGrants(editor: PolicyEditor, known: set<string>)
    requires editor.Valid()
    modifies editor
    ensures editor.Valid()
    ensures editor.Meaning() == Pruned(old(editor.Meaning()), known)
    ensures forall k | k in editor.Meaning() :: k in old(editor.Meaning())
    ensures forall k | k in old(editor.Meaning()) ::
              k in editor.Meaning() && EntryPruned(k, old(editor.Meaning())[k], editor.Meaning()[k], known)
    ensures old(editor.root.Some? && editor.root.value.Obj?) ==> editor.root.Some? && editor.root.value.Obj?
  {
    ghost var ms := Members(editor.root);
    PrunedEntries(DenoteMembers(ms), known);
    LookupMeaning(ms, "grants");
    if ArrayMember(Members(editor.root), "grants").None? {
      return;
    }
    var snapshot := editor.GrantNodes();
    PutSame(ms, "grants");
    var i := 0;
    ghost var now := snapshot;
    for k := 0 to |snapshot|
      invariant Holds(editor, ms, now)
      invariant Progress(snapshot, k, i, now, known)
    {
      i, now := PruneNode(editor, i, known, ms, snapshot, k, now);
    }
    ProgressDone(ms, snapshot, i, now, known);
  }

  // ── the reconcile ───────────────────────────────────────────────────────────

  /** The policy to write: the live one with the groups replaced and the grants pruned. */
  method BuildWanted(root: Option<Json>, groups: seq<Group>) returns (wanted: Json)
    requires DistinctNames(groups) && ValidRoot(root)
    ensures WellFormed(wanted) && wanted.Obj?
    ensures DenoteMembers(wanted.members) == ScimDesired(MeaningOf(root), groups)
  {
    var updated := new PolicyEditor(root);
    updated.SetGroups(groups);
    var known := updated.KnownGroupNames();
    PruneAllGrants(updated, known);
    wanted := updated.root.value;
  }

  lemma {:induction false} WantedAlready(text: PolicyText, wanted: Json)
    requires ParsedRoot(text).Some? && ValidText(text) && WellFormed(wanted) && wanted.Obj?
    ensures var root := ParsedRoot(text).value;
            Reads(text, DenoteMembers(wanted.members)) <==> root.Some? && ValuesEqual(root.value, wanted)
  {
    if ParsedRoot(text).value.Some? {
      ComparisonDecidesMeaning(ParsedRoot(text).value.value, wanted);
    }
  }

  /** `set_group_membership`, with the two remote calls' outcomes given. */
  method SetGroupMembership(cell: PolicyCell, groups: seq<Group>, getFails: bool, rpc: Rpc)
    returns (ok: bool, wrote: bool)
    requires DistinctNames(groups) && ValidText(cell.policy)
    modifies cell
    ensures ValidText(cell.policy)
    ensures ScimOutcome(old(cell.policy), groups, getFails, rpc, cell.policy, ok)
    ensures wrote <==> !getFails && MustWrite(old(cell.policy), groups)
    ensures ok || cell.policy != old(cell.policy) ==>
              && ParsedRoot(old(cell.policy)).Some? && ParsedRoot(cell.policy).Some?
              && WantedByScim(LiveFields(old(cell.policy)), groups, LiveFields(cell.policy))
  {
    hide WantedByScim, ScimDesired;
    wrote := false;
    if getFails {
      return false, false;
    }
    match ParsedRoot(cell.policy) {
      case None => return false, false;
      case Some(root) =>
        ghost var before := cell.policy;
        var wanted := BuildWanted(root, groups);
        WantedAlready(before, wanted);
        if root.Some? && ValuesEqual(root.value, wanted) {
          OutcomeIsWanted(before, groups, false, rpc, before, true);
          return true, false;
        }
        wrote := true;
        ok := cell.SetPolicy(Document(wanted), rpc);
        if ok || cell.policy != before {
          OutcomeIsWanted(before, groups, false, rpc, cell.policy, ok);
        }
    }
  }
}
