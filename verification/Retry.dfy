/** Retrying a SCIM request through failures, restarts and changes on the headscale side. */
module Retry {
  import opened Wrappers
  import opened Directory
  import opened CrashFs
  import opened Storage
  import opened ScimService
  import Convergence

  /** What happens between the first attempt and the one that is answered. */
  datatype Event =
    | Attempt(faults: Faults, reply: Reply)
    | Restarted     // the process or the machine stops; the mapping is loaded from the file
    | NodesMove     // users log in, nodes are deleted or expire on their own

  /** Nodes seen before keep their owner, do not come back from expiry, and do not
      reappear once gone; nodes never seen before may appear. */
  ghost predicate NodesEvolve(a: map<nat, Node>, b: map<nat, Node>, seen: set<nat>) {
    forall n | n in seen && n in b :: n in a && b[n].owner == a[n].owner && (a[n].expired ==> b[n].expired)
  }

  ghost predicate Step(w: World, e: Event, w': World, cfg: Config, id: ScimId, b: UserBody, seen: set<nat>) {
    Sound(w.fs) &&
    match e
    case Attempt(f, reply) => PutUserAttempt(w, cfg, id, b, f, w', reply)
    case Restarted =>
      Restart(w.fs, w'.fs, w'.data, EMPTY) && w'.policy == w.policy && w'.nodes == w.nodes
    case NodesMove => w' == w.(nodes := w'.nodes) && NodesEvolve(w.nodes, w'.nodes, seen)
  }

  ghost predicate StepAt(ws: seq<World>, es: seq<Event>, i: nat, cfg: Config, id: ScimId, b: UserBody, seen: set<nat>)
    requires i < |es| && |ws| == |es| + 1
  {
    Step(ws[i], es[i], ws[i + 1], cfg, id, b, seen)
  }

  ghost predicate Run(ws: seq<World>, es: seq<Event>, cfg: Config, id: ScimId, b: UserBody, seen: set<nat>) {
    && |ws| == |es| + 1
    && (forall i | 0 <= i < |es| :: StepAt(ws, es, i, cfg, id, b, seen))
  }

  /** The `i`-th state was reached by an attempt that was answered with success. */
  predicate SuccessAt(es: seq<Event>, i: nat) {
    0 < i <= |es| && es[i - 1].Attempt? && Succeeded(es[i - 1].reply)
  }

  predicate EndsInSuccess(es: seq<Event>) {
    SuccessAt(es, |es|)
  }

  // ── what every version of the mapping has in common ─────────────────────────

  /** Nothing but the record of `id` differs from `base`, in memory and in every version
      the disk may hold. */
  ghost predicate OnlyUserDiffers(w: World, base: Data, id: ScimId) {
    && Sound(w.fs)
    && w.data.groups == base.groups && AgreeExcept(w.data.users, base.users, id)
    && (forall v | v in Versions(w.fs, EMPTY) :: v.groups == base.groups && AgreeExcept(v.users, base.users, id))
  }

  lemma {:induction false} StoreUserDiffersOnlyThere(w: World, id: ScimId, r: UserRecord, fault: FlushFault, base: Data)
    requires OnlyUserDiffers(w, base, id)
    ensures OnlyUserDiffers(StoreUser(w, id, r, fault), base, id)
  {
    var data := Data(w.data.users[id := r], w.data.groups);
    assert data.users - {id} == w.data.users - {id};
    FlushVersions(w.fs, data, StepsOf(fault), EMPTY);
  }

  lemma {:induction false} RestartDiffersOnlyThere(w: World, w': World, base: Data, id: ScimId)
    requires OnlyUserDiffers(w, base, id) && Restart(w.fs, w'.fs, w'.data, EMPTY)
    ensures OnlyUserDiffers(w', base, id)
  {
    RestartFindsVersion(w.fs, w'.fs, w'.data, EMPTY);
  }

  // ── the groups stay in sync ─────────────────────────────────────────────────

  /** Either the request must end in a reconcile, or nothing has gone out of sync. */
  ghost predicate SyncKept(w: World, cfg: Config, base: Data, id: ScimId, b: UserBody) {
    && OnlyUserDiffers(w, base, id)
    && (InSomeGroup(base, id) || b.active != Some(true) || InSync(w, cfg))
  }

  lemma {:induction false} SameMembership(a: Data, base: Data, id: ScimId)
    requires a.groups == base.groups
    ensures InSomeGroup(a, id) <==> InSomeGroup(base, id)
  {
  }

  lemma {:induction false} SyncFrame(w: World, w': World, cfg: Config, base: Data, id: ScimId)
    requires OnlyUserDiffers(w, base, id) && OnlyUserDiffers(w', base, id) && !InSomeGroup(base, id)
    requires w'.policy == w.policy
    ensures InSync(w, cfg) <==> InSync(w', cfg)
  {
    SameMembership(w.data, base, id);
    RenderingFrame(w.data, w'.data, cfg, id);
  }

  lemma {:induction false} StoreKeepsSync(w: World, cfg: Config, base: Data, id: ScimId, b: UserBody, f: Faults,
                                          w': World, reply: Reply)
    requires SyncKept(w, cfg, base, id, b) && ValidPut(cfg, b)
    requires StoredThenReconciled(w, cfg, id, PutRecord(b), f, w', reply)
    ensures SyncKept(w', cfg, base, id, b)
    ensures Succeeded(reply) ==> InSync(w', cfg)
  {
    var stored := StoreUser(w, id, PutRecord(b), f.flush);
    StoreUserDiffersOnlyThere(w, id, PutRecord(b), f.flush, base);
    SameMembership(stored.data, base, id);
    if !InSomeGroup(base, id) {
      SyncFrame(w, stored, cfg, base, id);
    }
    if w' != stored || reply.Updated? {
      if f.flush.NoFault? && (b.active != Some(true) || InSomeGroup(stored.data, id)) {
        ReconcileSyncs(stored, cfg, f, w', reply.Updated?);
      }
    }
  }

  lemma {:induction false} AttemptKeepsSync(w: World, cfg: Config, base: Data, id: ScimId, b: UserBody, f: Faults,
                                            w': World, reply: Reply)
    requires SyncKept(w, cfg, base, id, b) && PutUserAttempt(w, cfg, id, b, f, w', reply)
    ensures SyncKept(w', cfg, base, id, b)
    ensures Succeeded(reply) ==> InSync(w', cfg)
  {
    if ValidPut(cfg, b) && id in w.data.users {
      var (mid, expired) := ExpiredFirst(w, cfg, w.data.users[id], PutRecord(b), f);
      if expired {
        StoreKeepsSync(mid, cfg, base, id, b, f, w', reply);
      }
    }
  }

  lemma {:induction false} StepKeepsSync(w: World, e: Event, w': World, cfg: Config, base: Data, id: ScimId,
                                         b: UserBody, seen: set<nat>)
    requires SyncKept(w, cfg, base, id, b) && Step(w, e, w', cfg, id, b, seen)
    ensures SyncKept(w', cfg, base, id, b)
    ensures e.Attempt? && Succeeded(e.reply) ==> InSync(w', cfg)
  {
    match e
    case Attempt(f, reply) => AttemptKeepsSync(w, cfg, base, id, b, f, w', reply);
    case Restarted =>
      RestartDiffersOnlyThere(w, w', base, id);
      if !InSomeGroup(base, id) {
        SyncFrame(w, w', cfg, base, id);
      }
    case NodesMove =>
  }

  lemma {:induction false} RunKeepsSync(ws: seq<World>, es: seq<Event>, i: nat, cfg: Config, base: Data, id: ScimId,
                                        b: UserBody, seen: set<nat>)
    requires Run(ws, es, cfg, id, b, seen) && i <= |es|
    requires SyncKept(ws[0], cfg, base, id, b)
    ensures SyncKept(ws[i], cfg, base, id, b)
    ensures SuccessAt(es, i) ==> InSync(ws[i], cfg)
  {
    if i > 0 {
      RunKeepsSync(ws, es, i - 1, cfg, base, id, b, seen);
      assert StepAt(ws, es, i - 1, cfg, id, b, seen);
      StepKeepsSync(ws[i - 1], es[i - 1], ws[i], cfg, base, id, b, seen);
    }
  }

  /** The mapping in memory is what is safely on disk. */
  ghost predicate Saved(w: World) {
    Sound(w.fs) && Settled(w.fs) && Load(w.fs, EMPTY) == Some(w.data)
  }

  lemma {:induction false} SyncStarts(w: World, cfg: Config, id: ScimId, b: UserBody)
    requires Saved(w) && InSync(w, cfg)
    ensures SyncKept(w, cfg, w.data, id, b)
  {
    RunningReadsVersion(w.fs, EMPTY);
  }

  /** From a state in sync, `put_user` retried with the same body through any failures,
      restarts and node changes until it succeeds leaves the groups in sync, whether or
      not the final attempt reconciled. */
  lemma {:induction false} PutUserRetrySync(ws: seq<World>, es: seq<Event>, cfg: Config, id: ScimId, b: UserBody,
                                            seen: set<nat>)
    requires Run(ws, es, cfg, id, b, seen) && EndsInSuccess(es)
    requires Saved(ws[0]) && InSync(ws[0], cfg)
    ensures InSync(ws[|es|], cfg)
  {
    SyncStarts(ws[0], cfg, id, b);
    RunKeepsSync(ws, es, |es|, cfg, ws[0].data, id, b, seen);
  }

  /** The other three handlers reconcile before every success, so they end in sync from
      any state at all. */
  lemma {:induction false} CreateUserSync(w: World, cfg: Config, b: UserBody, freshId: ScimId, f: Faults, w': World,
                                          reply: Reply)
    requires Sound(w.fs) && CreateUserAttempt(w, cfg, b, freshId, f, w', reply) && Succeeded(reply)
    ensures InSync(w', cfg)
  {
    var existing := FirstOf(NamedUsers(w.data.users, b.userName.value));
    var id := if existing.Some? then existing.value else freshId;
    ReconcileSyncs(StoreUser(w, id, CreateRecord(b), f.flush), cfg, f, w', true);
  }

  lemma {:induction false} CreateGroupSync(w: World, cfg: Config, b: GroupBody, freshId: GroupId, f: Faults,
                                           w': World, reply: Reply)
    requires Sound(w.fs) && CreateGroupAttempt(w, cfg, b, freshId, f, w', reply) && Succeeded(reply)
    ensures InSync(w', cfg)
  {
    var existing := FirstOf(NamedGroups(w.data.groups, b.displayName.value));
    var id := if existing.Some? then existing.value else freshId;
    ReconcileSyncs(StoreGroup(w, id, GroupFrom(b), f.flush), cfg, f, w', true);
  }

  lemma {:induction false} PutGroupSync(w: World, cfg: Config, id: GroupId, b: GroupBody, f: Faults, w': World,
                                        reply: Reply)
    requires Sound(w.fs) && PutGroupAttempt(w, cfg, id, b, f, w', reply) && Succeeded(reply)
    ensures InSync(w', cfg)
  {
    ReconcileSyncs(StoreGroup(w, id, GroupFrom(b), f.flush), cfg, f, w', true);
  }

  // ── nodes are expired before the identifier changes ─────────────────────────

  /** The record as it was, in memory and in every version on disk. */
  ghost predicate RecordUnchanged(w: World, id: ScimId, r: UserRecord) {
    && Sound(w.fs)
    && id in w.data.users && w.data.users[id] == r
    && (forall v | v in Versions(w.fs, EMPTY) :: id in v.users && v.users[id] == r)
  }

  ghost predicate ExpiredOrGone(nodes: map<nat, Node>, targets: set<nat>) {
    forall n | n in targets && n in nodes :: nodes[n].expired
  }

  /** Targets still there belong to the account they belonged to at the start. */
  ghost predicate StillOwned(nodes: map<nat, Node>, targets: set<nat>, key: Resolved) {
    forall n | n in targets && n in nodes :: Owns(key, nodes[n])
  }

  function OwnedBy(nodes: map<nat, Node>, key: Resolved): set<nat> {
    set n | n in nodes && Owns(key, nodes[n])
  }

  ghost predicate ExpiryKept(w: World, id: ScimId, r: UserRecord, key: Resolved, targets: set<nat>) {
    && Sound(w.fs)
    && StillOwned(w.nodes, targets, key)
    && (RecordUnchanged(w, id, r) || ExpiredOrGone(w.nodes, targets))
  }

  lemma {:induction false} ExpiryEffect(nodes: map<nat, Node>, cfg: Config, r: UserRecord, f: Faults, key: Resolved,
                                        targets: set<nat>)
    requires StillOwned(nodes, targets, key)
    ensures var (after, ok) := ExpireNodes(nodes, cfg, r, f);
            && StillOwned(after, targets, key)
            && (ExpiredOrGone(nodes, targets) ==> ExpiredOrGone(after, targets))
            && (ok && ResolveKey(cfg, r) == Some(key) ==> ExpiredOrGone(after, targets))
  {
  }

  lemma {:induction false} StoreKeepsNodes(w: World, cfg: Config, id: ScimId, r: UserRecord, f: Faults, w': World,
                                           reply: Reply)
    requires Sound(w.fs) && StoredThenReconciled(w, cfg, id, r, f, w', reply)
    ensures w'.nodes == w.nodes && Sound(w'.fs)
  {
  }

  lemma {:induction false} AttemptKeepsExpiry(w: World, cfg: Config, id: ScimId, b: UserBody, f: Faults, w': World,
                                              reply: Reply, r: UserRecord, key: Resolved, targets: set<nat>)
    requires ExpiryKept(w, id, r, key, targets) && ResolveKey(cfg, r) == Some(key)
    requires ValidPut(cfg, b) && MustExpire(cfg, r, PutRecord(b))
    requires PutUserAttempt(w, cfg, id, b, f, w', reply)
    ensures ExpiryKept(w', id, r, key, targets)
    ensures Succeeded(reply) ==> ExpiredOrGone(w'.nodes, targets)
  {
    if id in w.data.users {
      var stored := w.data.users[id];
      var (mid, expired) := ExpiredFirst(w, cfg, stored, PutRecord(b), f);
      ExpiryEffect(w.nodes, cfg, stored, f, key, targets);
      if expired {
        assert ExpiredOrGone(mid.nodes, targets);
        StoreKeepsNodes(mid, cfg, id, PutRecord(b), f, w', reply);
      }
    }
  }

  lemma {:induction false} StepKeepsExpiry(w: World, e: Event, w': World, cfg: Config, id: ScimId, b: UserBody,
                                           seen: set<nat>, r: UserRecord, key: Resolved, targets: set<nat>)
    requires ExpiryKept(w, id, r, key, targets) && ResolveKey(cfg, r) == Some(key) && targets <= seen
    requires ValidPut(cfg, b) && MustExpire(cfg, r, PutRecord(b))
    requires Step(w, e, w', cfg, id, b, seen)
    ensures ExpiryKept(w', id, r, key, targets)
    ensures e.Attempt? && Succeeded(e.reply) ==> ExpiredOrGone(w'.nodes, targets)
  {
    match e
    case Attempt(f, reply) => AttemptKeepsExpiry(w, cfg, id, b, f, w', reply, r, key, targets);
    case Restarted => RestartFindsVersion(w.fs, w'.fs, w'.data, EMPTY);
    case NodesMove =>
  }

  lemma {:induction false} RunKeepsExpiry(ws: seq<World>, es: seq<Event>, i: nat, cfg: Config, id: ScimId,
                                          b: UserBody, seen: set<nat>, r: UserRecord, key: Resolved,
                                          targets: set<nat>)
    requires Run(ws, es, cfg, id, b, seen) && i <= |es|
    requires ExpiryKept(ws[0], id, r, key, targets) && ResolveKey(cfg, r) == Some(key) && targets <= seen
    requires ValidPut(cfg, b) && MustExpire(cfg, r, PutRecord(b))
    ensures ExpiryKept(ws[i], id, r, key, targets)
    ensures SuccessAt(es, i) ==> ExpiredOrGone(ws[i].nodes, targets)
  {
    if i > 0 {
      RunKeepsExpiry(ws, es, i - 1, cfg, id, b, seen, r, key, targets);
      assert StepAt(ws, es, i - 1, cfg, id, b, seen);
      StepKeepsExpiry(ws[i - 1], es[i - 1], ws[i], cfg, id, b, seen, r, key, targets);
    }
  }

  lemma {:induction false} ExpiryStarts(w: World, id: ScimId, key: Resolved)
    requires Saved(w) && id in w.data.users
    ensures ExpiryKept(w, id, w.data.users[id], key, OwnedBy(w.nodes, key))
  {
    RunningReadsVersion(w.fs, EMPTY);
  }

  /** The request deactivates the user, or changes the configured identifier when nodes are to
      be expired on such a change. */
  predicate AsksForExpiry(cfg: Config, r: UserRecord, b: UserBody) {
    || b.active == Some(false)
    || (cfg.expireNodesOnChange &&
        match cfg.userKey
        case ByEmail => r.email != if b.emails.Some? && b.emails.value != [] then Some(b.emails.value[0]) else None
        case ByUsername => b.userName != Some(r.name)
        case ByExternalId(_) => false)
  }

  lemma {:induction false} ExpiryIsAsked(cfg: Config, r: UserRecord, b: UserBody)
    requires ValidPut(cfg, b)
    ensures MustExpire(cfg, r, PutRecord(b)) <==> AsksForExpiry(cfg, r, b)
  {
  }

  lemma {:induction false} SuccessWasValid(w: World, cfg: Config, id: ScimId, b: UserBody, f: Faults, w': World,
                                           reply: Reply)
    requires Sound(w.fs) && PutUserAttempt(w, cfg, id, b, f, w', reply) && Succeeded(reply)
    ensures ValidPut(cfg, b)
  {
  }

  /** The nodes of the record's account. */
  function NodesOf(nodes: map<nat, Node>, cfg: Config, r: UserRecord): set<nat> {
    set n | n in nodes && IsNodeOf(nodes[n], cfg, r)
  }

  lemma {:induction false} OwnedAreNodesOf(nodes: map<nat, Node>, cfg: Config, r: UserRecord)
    ensures match ResolveKey(cfg, r)
            case Some(key) => OwnedBy(nodes, key) == NodesOf(nodes, cfg, r)
            case None => NodesOf(nodes, cfg, r) == {}
  {
    forall n | n in nodes
      ensures ResolveKey(cfg, r).Some? ==> (Owns(ResolveKey(cfg, r).value, nodes[n]) <==> IsNodeOf(nodes[n], cfg, r))
      ensures ResolveKey(cfg, r).None? ==> !IsNodeOf(nodes[n], cfg, r)
    {
      KeyOwnsRecordsNodes(cfg, r, nodes[n]);
    }
  }

  /** A `put_user` that deactivates, or changes the identifier when nodes are to be
      expired on a change, retried through any failures and restarts until it succeeds:
      every node of the account before the first attempt is expired or gone. */
  lemma {:induction false} PutUserRetryExpires(ws: seq<World>, es: seq<Event>, cfg: Config, id: ScimId, b: UserBody,
                                               seen: set<nat>)
    requires Run(ws, es, cfg, id, b, seen) && EndsInSuccess(es)
    requires Saved(ws[0]) && id in ws[0].data.users && ws[0].nodes.Keys <= seen
    requires AsksForExpiry(cfg, ws[0].data.users[id], b)
    ensures ExpiredOrGone(ws[|es|].nodes, NodesOf(ws[0].nodes, cfg, ws[0].data.users[id]))
  {
    var r := ws[0].data.users[id];
    assert StepAt(ws, es, |es| - 1, cfg, id, b, seen);
    SuccessWasValid(ws[|es| - 1], cfg, id, b, es[|es| - 1].faults, ws[|es|], es[|es| - 1].reply);
    ExpiryIsAsked(cfg, r, b);
    OwnedAreNodesOf(ws[0].nodes, cfg, r);
    match ResolveKey(cfg, r)
    case None =>
    case Some(key) =>
      ExpiryStarts(ws[0], id, key);
      RunKeepsExpiry(ws, es, |es|, cfg, id, b, seen, r, key, OwnedBy(ws[0].nodes, key));
  }

  /** The other way round, a `put_user` that does not ask for it leaves every node alone. */
  lemma {:induction false} PutUserSparesNodes(w: World, cfg: Config, id: ScimId, b: UserBody, f: Faults, w': World,
                                              reply: Reply)
    requires Sound(w.fs) && PutUserAttempt(w, cfg, id, b, f, w', reply)
    requires id in w.data.users ==> !AsksForExpiry(cfg, w.data.users[id], b)
    ensures w'.nodes == w.nodes
  {
    if ValidPut(cfg, b) && id in w.data.users {
      ExpiryIsAsked(cfg, w.data.users[id], b);
    }
  }
}
