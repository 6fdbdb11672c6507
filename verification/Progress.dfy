/** What a handler needs in order to succeed: nothing but a request it accepts, a policy that
    parses, and calls that work.  So a retry that keeps failing keeps meeting faults. */
module Progress {
  import opened PolicyEditing
  import opened ScimPolicy
  import opened Directory
  import opened CrashFs
  import opened Storage
  import opened ScimService
  import opened Retry

  /** Every call of the handler works; a node that is gone counts as expired. */
  predicate Clean(f: Faults) {
    && !f.listFails && (forall n | n in f.expire :: f.expire[n].Expired? || f.expire[n].Vanished?)
    && f.deleteAccount.Delivered? && f.flush.NoFault?
    && !f.getFails && f.setPolicy.Delivered?
  }

  ghost predicate Parses(w: World) {
    ParsedRoot(w.policy).Some?
  }

  /** A reconcile succeeds if and only if the policy could be read and parsed, and a write, if
      one was due, was reported to have worked. */
  lemma {:induction false} ReconcileSucceedsIff(w: World, cfg: Config, f: Faults, w': World, ok: bool)
    requires Reconciled(w, cfg, f, w', ok)
    ensures ok <==> !f.getFails && Parses(w) && (MustWrite(w.policy, Rendering(w.data, cfg)) ==> f.setPolicy.Delivered?)
    ensures Parses(w) ==> Parses(w')
  {
  }

  lemma {:induction false} ThenSucceeds(w: World, cfg: Config, f: Faults, w': World, success: Reply, reply: Reply)
    requires ThenReconciled(w, cfg, f, w', success, reply) && Succeeded(success)
    requires Clean(f) && Parses(w)
    ensures reply == success
  {
    if Reconciled(w, cfg, f, w', false) {
      ReconcileSucceedsIff(w, cfg, f, w', false);
    }
  }

  lemma {:induction false} ThenParses(w: World, cfg: Config, f: Faults, w': World, success: Reply, reply: Reply)
    requires ThenReconciled(w, cfg, f, w', success, reply) && Parses(w)
    ensures Parses(w')
  {
    if Reconciled(w, cfg, f, w', true) {
      ReconcileSucceedsIff(w, cfg, f, w', true);
    } else {
      ReconcileSucceedsIff(w, cfg, f, w', false);
    }
  }

  lemma {:induction false} CleanExpiryWorks(w: World, cfg: Config, stored: UserRecord, wanted: UserRecord, f: Faults)
    requires Clean(f)
    ensures ExpiredFirst(w, cfg, stored, wanted, f).1
  {
  }

  // ── each handler ────────────────────────────────────────────────────────────

  lemma {:induction false} CleanPutUser(w: World, cfg: Config, id: ScimId, b: UserBody, f: Faults, w': World,
                                        reply: Reply)
    requires Sound(w.fs) && PutUserAttempt(w, cfg, id, b, f, w', reply)
    requires Clean(f) && Parses(w) && ValidPut(cfg, b) && id in w.data.users
    ensures reply == Updated(id)
  {
    var r := PutRecord(b);
    CleanExpiryWorks(w, cfg, w.data.users[id], r, f);
    var (mid, expired) := ExpiredFirst(w, cfg, w.data.users[id], r, f);
    var stored := StoreUser(mid, id, r, f.flush);
    if !r.active || InSomeGroup(stored.data, id) {
      ThenSucceeds(stored, cfg, f, w', Updated(id), reply);
    }
  }

  lemma {:induction false} CleanCreateUser(w: World, cfg: Config, b: UserBody, freshId: ScimId, f: Faults, w': World,
                                           reply: Reply)
    requires Sound(w.fs) && CreateUserAttempt(w, cfg, b, freshId, f, w', reply)
    requires Clean(f) && Parses(w) && ValidCreate(cfg, b)
    ensures Succeeded(reply)
  {
    var existing := FirstOf(NamedUsers(w.data.users, b.userName.value));
    var id := if existing.Some? then existing.value else freshId;
    ThenSucceeds(StoreUser(w, id, CreateRecord(b), f.flush), cfg, f, w',
                 if existing.Some? then Updated(id) else Created(id), reply);
  }

  lemma {:induction false} CleanCreateGroup(w: World, cfg: Config, b: GroupBody, freshId: GroupId, f: Faults,
                                            w': World, reply: Reply)
    requires Sound(w.fs) && CreateGroupAttempt(w, cfg, b, freshId, f, w', reply)
    requires Clean(f) && Parses(w) && ValidGroup(b)
    ensures Succeeded(reply)
  {
    var existing := FirstOf(NamedGroups(w.data.groups, b.displayName.value));
    var id := if existing.Some? then existing.value else freshId;
    ThenSucceeds(StoreGroup(w, id, GroupFrom(b), f.flush), cfg, f, w',
                 if existing.Some? then Updated(id) else Created(id), reply);
  }

  lemma {:induction false} CleanPutGroup(w: World, cfg: Config, id: GroupId, b: GroupBody, f: Faults, w': World,
                                         reply: Reply)
    requires Sound(w.fs) && PutGroupAttempt(w, cfg, id, b, f, w', reply)
    requires Clean(f) && Parses(w) && ValidGroup(b)
    requires id in w.data.groups && !NameTaken(w.data.groups, id, b.displayName.value)
    ensures reply == Updated(id)
  {
    ThenSucceeds(StoreGroup(w, id, GroupFrom(b), f.flush), cfg, f, w', Updated(id), reply);
  }

  lemma {:induction false} CleanDeleteUser(w: World, cfg: Config, id: ScimId, f: Faults, w': World, reply: Reply)
    requires Sound(w.fs) && DeleteUserAttempt(w, cfg, id, f, w', reply)
    requires Clean(f) && Parses(w) && id in w.data.users
    ensures reply == Deleted
  {
    var (accounts, gone) := DeleteAccount(w.accounts, cfg, w.data.users[id], f);
    ThenSucceeds(Removal(w.(accounts := accounts), WithoutUser(w.data, id), f.flush), cfg, f, w', Deleted, reply);
  }

  lemma {:induction false} CleanDeleteGroup(w: World, cfg: Config, id: GroupId, f: Faults, w': World, reply: Reply)
    requires Sound(w.fs) && DeleteGroupAttempt(w, cfg, id, f, w', reply)
    requires Clean(f) && Parses(w) && id in w.data.groups
    ensures reply == Deleted
  {
    ThenSucceeds(Removal(w, WithoutGroup(w.data, id), f.flush), cfg, f, w', Deleted, reply);
  }

  // ── retries end ─────────────────────────────────────────────────────────────

  /** The user is known, in memory and in every version on disk, and the policy parses. */
  ghost predicate Servable(w: World, id: ScimId) {
    && Sound(w.fs) && Parses(w)
    && id in w.data.users
    && (forall v | v in Versions(w.fs, EMPTY) :: id in v.users)
  }

  lemma {:induction false} StoreKeepsServable(w: World, cfg: Config, id: ScimId, r: UserRecord, f: Faults, w': World,
                                              reply: Reply)
    requires Servable(w, id) && StoredThenReconciled(w, cfg, id, r, f, w', reply)
    ensures Servable(w', id)
  {
    var stored := StoreUser(w, id, r, f.flush);
    FlushVersions(w.fs, stored.data, StepsOf(f.flush), EMPTY);
    if f.flush.NoFault? && (!r.active || InSomeGroup(stored.data, id)) {
      ThenParses(stored, cfg, f, w', Updated(id), reply);
    }
  }

  lemma {:induction false} StepKeepsServable(w: World, e: Retry.Event, w': World, cfg: Config, id: ScimId,
                                             b: UserBody, seen: set<nat>)
    requires Servable(w, id) && Step(w, e, w', cfg, id, b, seen)
    ensures Servable(w', id)
  {
    match e
    case Attempt(f, reply) =>
      if ValidPut(cfg, b) {
        var (mid, expired) := ExpiredFirst(w, cfg, w.data.users[id], PutRecord(b), f);
        if expired {
          StoreKeepsServable(mid, cfg, id, PutRecord(b), f, w', reply);
        }
      }
    case Restarted => RestartFindsVersion(w.fs, w'.fs, w'.data, EMPTY);
    case NodesMove =>
  }

  lemma {:induction false} RunKeepsServable(ws: seq<World>, es: seq<Retry.Event>, i: nat, cfg: Config, id: ScimId,
                                            b: UserBody, seen: set<nat>)
    requires Run(ws, es, cfg, id, b, seen) && i <= |es| && Servable(ws[0], id)
    ensures Servable(ws[i], id)
  {
    if i > 0 {
      RunKeepsServable(ws, es, i - 1, cfg, id, b, seen);
      assert StepAt(ws, es, i - 1, cfg, id, b, seen);
      StepKeepsServable(ws[i - 1], es[i - 1], ws[i], cfg, id, b, seen);
    }
  }

  /** However a `put_user` has been failing, through restarts and node changes, the first
      attempt that meets no fault is answered with success. */
  lemma {:induction false} RetryEndsAtFirstCleanAttempt(ws: seq<World>, es: seq<Retry.Event>, i: nat, cfg: Config,
                                                        id: ScimId, b: UserBody, seen: set<nat>, f: Faults, w': World,
                                                        reply: Reply)
    requires Run(ws, es, cfg, id, b, seen) && i <= |es|
    requires Saved(ws[0]) && Parses(ws[0]) && id in ws[0].data.users && ValidPut(cfg, b)
    requires Sound(ws[i].fs) && PutUserAttempt(ws[i], cfg, id, b, f, w', reply) && Clean(f)
    ensures reply == Updated(id)
  {
    RunningReadsVersion(ws[0].fs, EMPTY);
    RunKeepsServable(ws, es, i, cfg, id, b, seen);
    CleanPutUser(ws[i], cfg, id, b, f, w', reply);
  }
}
