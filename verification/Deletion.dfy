/** Retrying `delete_user` and `delete_group`.

    A user's headscale account goes before the record that identifies it.  A retry after a
    failed reconcile finds no record, of a user or of a group, and so never reconciles. */
module Deletion {
  import opened Wrappers
  import opened PolicyMap
  import opened PolicyEditing
  import opened Remote
  import opened Ordering
  import opened Directory
  import opened CrashFs
  import opened Storage
  import opened ScimService
  import opened Retry
  import Convergence

  datatype DeleteEvent =
    | DeleteAttempt(faults: Faults, reply: Reply)
    | ReadAgain                      // the process or the machine stops and comes back
    | AccountGone(at: nat)           // deleted by someone else
    | AccountAdded(at: nat, account: Account) // a first login; ids are never used twice

  ghost predicate DeleteStep(w: World, e: DeleteEvent, w': World, cfg: Config, id: ScimId, used: set<nat>) {
    Sound(w.fs) &&
    match e
    case DeleteAttempt(f, reply) => DeleteUserAttempt(w, cfg, id, f, w', reply)
    case ReadAgain => Restart(w.fs, w'.fs, w'.data, EMPTY) && w' == w.(data := w'.data, fs := w'.fs)
    case AccountGone(at) => at < |w.accounts| && w' == w.(accounts := w.accounts[..at] + w.accounts[at + 1..])
    case AccountAdded(at, a) =>
      at <= |w.accounts| && a.id !in used && w' == w.(accounts := w.accounts[..at] + [a] + w.accounts[at..])
  }

  ghost predicate DeleteStepAt(ws: seq<World>, es: seq<DeleteEvent>, i: nat, cfg: Config, id: ScimId, used: set<nat>)
    requires i < |es| && |ws| == |es| + 1
  {
    DeleteStep(ws[i], es[i], ws[i + 1], cfg, id, used)
  }

  ghost predicate DeleteRun(ws: seq<World>, es: seq<DeleteEvent>, cfg: Config, id: ScimId, used: set<nat>) {
    && |ws| == |es| + 1
    && (forall i | 0 <= i < |es| :: DeleteStepAt(ws, es, i, cfg, id, used))
  }

  // ── what a successful delete leaves ─────────────────────────────────────────

  /** Every group without the user: its name and identifier, and the other members in order. */
  ghost predicate MembersWithout(before: Data, after: Data, id: ScimId) {
    && after.groups.Keys == before.groups.Keys
    && (forall g | g in before.groups ::
          && after.groups[g].name == before.groups[g].name
          && after.groups[g].externalId == before.groups[g].externalId
          && id !in after.groups[g].members
          && KeepsOthers(before.groups[g].members, id, after.groups[g].members))
  }

  lemma {:induction false} WithoutUserMembers(data: Data, id: ScimId)
    ensures MembersWithout(data, WithoutUser(data, id), id)
  {
    forall g | g in data.groups
      ensures KeepsOthers(data.groups[g].members, id, WithoutUser(data, id).groups[g].members)
      ensures id !in WithoutUser(data, id).groups[g].members
    {
      RetainKeepsOthers(data.groups[g].members, id);
    }
  }

  /** Success: no record, no mention in any group, every other member list and record as it
      was, and the policy shows it. */
  lemma {:induction false} DeletedUserIsGone(w: World, cfg: Config, id: ScimId, f: Faults, w': World)
    requires Sound(w.fs) && DeleteUserAttempt(w, cfg, id, f, w', Deleted)
    ensures w'.data.users == w.data.users - {id} && MembersWithout(w.data, w'.data, id)
    ensures InSync(w', cfg)
  {
    var (accounts, _) := DeleteAccount(w.accounts, cfg, w.data.users[id], f);
    var removed := Removal(w.(accounts := accounts), WithoutUser(w.data, id), f.flush);
    WithoutUserMembers(w.data, id);
    hide MembersWithout;
    ReconcileSyncs(removed, cfg, f, w', true);
  }

  lemma {:induction false} DeletedGroupIsGone(w: World, cfg: Config, id: GroupId, f: Faults, w': World)
    requires Sound(w.fs) && DeleteGroupAttempt(w, cfg, id, f, w', Deleted)
    ensures w'.data.groups == w.data.groups - {id} && w'.data.users == w.data.users
    ensures InSync(w', cfg)
  {
    ReconcileSyncs(Removal(w, WithoutGroup(w.data, id), f.flush), cfg, f, w', true);
  }

  // ── the account goes first ──────────────────────────────────────────────────

  predicate NoAccount(accounts: seq<Account>, target: nat) {
    forall j | 0 <= j < |accounts| :: accounts[j].id != target
  }

  /** The target is at `i`, is the first account `key` matches, and its id is its own. */
  predicate FirstAt(accounts: seq<Account>, key: Resolved, target: nat, i: nat) {
    && i < |accounts| && accounts[i].id == target && Matches(accounts[i].owner, key)
    && (forall j | 0 <= j < i :: !Matches(accounts[j].owner, key))
    && (forall j | 0 <= j < |accounts| && j != i :: accounts[j].id != target)
  }

  predicate ListedFirst(accounts: seq<Account>, key: Resolved, target: nat) {
    FirstAt(accounts, key, target, FirstMatch(accounts, key))
  }

  predicate Tracked(accounts: seq<Account>, key: Resolved, target: nat) {
    NoAccount(accounts, target) || ListedFirst(accounts, key, target)
  }

  lemma {:induction false} FirstAtIsFirstMatch(accounts: seq<Account>, key: Resolved, target: nat, i: nat)
    requires FirstAt(accounts, key, target, i)
    ensures ListedFirst(accounts, key, target)
  {
    var first := FirstMatch(accounts, key);
    assert first == i;
  }

  /** Taking another account off the list keeps the target first; taking the first match off
      removes the target. */
  lemma {:induction false} TrackedWithout(accounts: seq<Account>, key: Resolved, target: nat, at: nat)
    requires Tracked(accounts, key, target) && at < |accounts|
    ensures var left := accounts[..at] + accounts[at + 1..];
            && Tracked(left, key, target)
            && (NoAccount(accounts, target) || at == FirstMatch(accounts, key) ==> NoAccount(left, target))
  {
    var left := accounts[..at] + accounts[at + 1..];
    assert forall j | 0 <= j < |left| :: left[j] == accounts[if j < at then j else j + 1];
    var i := FirstMatch(accounts, key);
    if !NoAccount(accounts, target) && at != i {
      FirstAtIsFirstMatch(left, key, target, if at < i then i - 1 else i);
    }
  }

  /** Whatever is listed, an account that the key does not match, or that comes after the
      target, leaves the target first. */
  lemma {:induction false} TrackedWith(accounts: seq<Account>, key: Resolved, target: nat, at: nat, a: Account)
    requires Tracked(accounts, key, target) && at <= |accounts| && a.id != target
    requires Matches(a.owner, key) ==> FirstMatch(accounts, key) < at
    ensures var more := accounts[..at] + [a] + accounts[at..];
            Tracked(more, key, target) && (NoAccount(accounts, target) ==> NoAccount(more, target))
  {
    var more := accounts[..at] + [a] + accounts[at..];
    assert forall j | 0 <= j < |more| :: more[j] == if j < at then accounts[j] else if j == at then a else accounts[j - 1];
    if !NoAccount(accounts, target) {
      var i := FirstMatch(accounts, key);
      FirstAtIsFirstMatch(more, key, target, if at <= i then i + 1 else i);
    }
  }

  /** What is listed anew and matches the key comes behind a match. */
  ghost predicate BehindMatch(w: World, e: DeleteEvent, key: Resolved) {
    e.AccountAdded? && Matches(e.account.owner, key) ==> FirstMatch(w.accounts, key) < e.at
  }

  /** An account of the record's that is listed anew comes behind another one of its. */
  ghost predicate NoneAhead(w: World, e: DeleteEvent, cfg: Config, r: UserRecord) {
    e.AccountAdded? && IsAccountOf(e.account.owner, cfg, r) ==>
      exists j :: 0 <= j < e.at && j < |w.accounts| && IsAccountOf(w.accounts[j].owner, cfg, r)
  }

  lemma {:induction false} NoneAheadIsBehind(w: World, e: DeleteEvent, cfg: Config, r: UserRecord, key: Resolved)
    requires NoneAhead(w, e, cfg, r) && ResolveKey(cfg, r) == Some(key)
    ensures BehindMatch(w, e, key)
  {
    if e.AccountAdded? {
      KeyStandsForRecord(cfg, r, e.account.owner);
      if Matches(e.account.owner, key) {
        var j :| 0 <= j < e.at && j < |w.accounts| && IsAccountOf(w.accounts[j].owner, cfg, r);
        KeyStandsForRecord(cfg, r, w.accounts[j].owner);
      }
    }
  }

  /** It has to be so: of two accounts of the record's, the one listed first goes, and with it
      the record. */
  lemma {:induction false} OvertakenAccountStays(accounts: seq<Account>, cfg: Config, r: UserRecord, f: Faults, k: int,
                                                 i: int)
    requires !f.listFails && f.deleteAccount.Delivered?
    requires FirstAccountOf(accounts, cfg, r, k) && k < i < |accounts| && IsAccountOf(accounts[i].owner, cfg, r)
    ensures var (after, ok) := DeleteAccount(accounts, cfg, r, f);
            ok && |after| == |accounts| - 1 && after[i - 1] == accounts[i]
  {
    DeletionExactly(accounts, cfg, r, f);
    hide DeleteAccount, IsAccountOf;
    var after := accounts[..k] + accounts[k + 1..];
    assert after[i - 1] == accounts[k + 1..][i - 1 - k];
  }

  ghost predicate DeletionKept(w: World, id: ScimId, r: UserRecord, key: Resolved, target: nat) {
    && Sound(w.fs)
    && Tracked(w.accounts, key, target)
    && (RecordUnchanged(w, id, r) || NoAccount(w.accounts, target))
  }

  lemma {:induction false} DeleteAccountKeeps(accounts: seq<Account>, cfg: Config, r: UserRecord, f: Faults,
                                              key: Resolved, target: nat)
    requires Tracked(accounts, key, target)
    requires NoAccount(accounts, target) || ResolveKey(cfg, r) == Some(key)
    ensures var (after, ok) := DeleteAccount(accounts, cfg, r, f);
            && Tracked(after, key, target)
            && (NoAccount(accounts, target) || ok ==> NoAccount(after, target))
  {
    match ResolveKey(cfg, r)
    case None =>
    case Some(k) =>
      var i := FirstMatch(accounts, k);
      if i < |accounts| {
        TrackedWithout(accounts, key, target, i);
      }
  }

  lemma {:induction false} DeleteStepKeeps(w: World, e: DeleteEvent, w': World, cfg: Config, id: ScimId,
                                           used: set<nat>, r: UserRecord, key: Resolved, target: nat)
    requires DeletionKept(w, id, r, key, target) && ResolveKey(cfg, r) == Some(key) && target in used
    requires DeleteStep(w, e, w', cfg, id, used) && BehindMatch(w, e, key)
    ensures DeletionKept(w', id, r, key, target)
  {
    match e
    case DeleteAttempt(f, _) =>
      if id in w.data.users {
        DeleteAccountKeeps(w.accounts, cfg, w.data.users[id], f, key, target);
      }
    case ReadAgain => RestartFindsVersion(w.fs, w'.fs, w'.data, EMPTY);
    case AccountGone(at) => TrackedWithout(w.accounts, key, target, at);
    case AccountAdded(at, a) => TrackedWith(w.accounts, key, target, at, a);
  }

  lemma {:induction false} DeleteStepAtKeeps(ws: seq<World>, es: seq<DeleteEvent>, i: nat, cfg: Config, id: ScimId,
                                             used: set<nat>, r: UserRecord, key: Resolved, target: nat)
    requires DeleteRun(ws, es, cfg, id, used) && i < |es| && BehindMatch(ws[i], es[i], key)
    requires DeletionKept(ws[i], id, r, key, target) && ResolveKey(cfg, r) == Some(key) && target in used
    ensures DeletionKept(ws[i + 1], id, r, key, target)
  {
    assert DeleteStepAt(ws, es, i, cfg, id, used);
    DeleteStepKeeps(ws[i], es[i], ws[i + 1], cfg, id, used, r, key, target);
  }

  lemma {:induction false} DeleteRunKeeps(ws: seq<World>, es: seq<DeleteEvent>, i: nat, cfg: Config, id: ScimId,
                                          used: set<nat>, r: UserRecord, key: Resolved, target: nat)
    requires DeleteRun(ws, es, cfg, id, used) && i <= |es| && forall k | 0 <= k < |es| :: BehindMatch(ws[k], es[k], key)
    requires DeletionKept(ws[0], id, r, key, target) && ResolveKey(cfg, r) == Some(key) && target in used
    ensures DeletionKept(ws[i], id, r, key, target)
  {
    if i > 0 {
      DeleteRunKeeps(ws, es, i - 1, cfg, id, used, r, key, target);
      DeleteStepAtKeeps(ws, es, i - 1, cfg, id, used, r, key, target);
    }
  }

  /** Through any attempts, failures, crashes and changes to the other accounts, the record
      is never missing from memory while the account it identified is still there.  So
      whether the last attempt is answered with success or with 404, the account is gone.
      Accounts may come anywhere in the list, except that none of the record's comes ahead. */
  lemma {:induction false} RecordOutlivesAccount(ws: seq<World>, es: seq<DeleteEvent>, i: nat, cfg: Config,
                                                 id: ScimId, used: set<nat>, at: int)
    requires DeleteRun(ws, es, cfg, id, used) && i <= |es|
    requires Saved(ws[0]) && id in ws[0].data.users && FirstAccountOf(ws[0].accounts, cfg, ws[0].data.users[id], at)
    requires ws[0].accounts[at].id in used
    requires forall j | 0 <= j < |ws[0].accounts| && j != at :: ws[0].accounts[j].id != ws[0].accounts[at].id
    requires forall k | 0 <= k < |es| :: NoneAhead(ws[k], es[k], cfg, ws[0].data.users[id])
    ensures id !in ws[i].data.users ==> NoAccount(ws[i].accounts, ws[0].accounts[at].id)
  {
    var r, target := ws[0].data.users[id], ws[0].accounts[at].id;
    RunningReadsVersion(ws[0].fs, EMPTY);
    KeyStandsForRecord(cfg, r, ws[0].accounts[at].owner);
    FirstMatchIsFirst(ws[0].accounts, cfg, r);
    var key := ResolveKey(cfg, r).value;
    forall k | 0 <= k < |es|
      ensures BehindMatch(ws[k], es[k], key)
    {
      NoneAheadIsBehind(ws[k], es[k], cfg, r, key);
    }
    assert ListedFirst(ws[0].accounts, key, target);
    DeleteRunKeeps(ws, es, i, cfg, id, used, r, key, target);
  }

  // ── a retry after a failed reconcile ────────────────────────────────────────

  /** The run's last event is an attempt that did not fail: deleted, or answered with 404. */
  predicate EndsAnswered(es: seq<DeleteEvent>) {
    es != [] && es[|es| - 1].DeleteAttempt? && !es[|es| - 1].reply.Failed?
  }

  /** Removing the user changes no rendered group. */
  ghost predicate RendersAlike(data: Data, cfg: Config, id: ScimId) {
    Convergence.SameGroups(Groups(data, cfg), Groups(WithoutUser(data, id), cfg))
  }

  lemma {:induction false} RenderIdsWithout(data: Data, cfg: Config, id: ScimId, ids: seq<GroupId>)
    requires !Contributes(data, cfg, id) && forall g | g in ids :: g in data.groups
    ensures RenderIds(data, cfg, ids) == RenderIds(WithoutUser(data, id), cfg, ids)
  {
    if ids != [] {
      assert ids[0] in data.groups;
      TokensWithout(data.users, cfg, data.groups[ids[0]].members, id);
      RenderIdsWithout(data, cfg, id, ids[1..]);
    }
  }

  lemma {:induction false} NoTokenRendersAlike(data: Data, cfg: Config, id: ScimId)
    requires !Contributes(data, cfg, id)
    ensures RendersAlike(data, cfg, id)
  {
    assert WithoutUser(data, id).groups.Keys == data.groups.Keys;
    RenderIdsWithout(data, cfg, id, SortedKeys(data.groups.Keys));
  }

  lemma {:induction false} TokenShows(data: Data, cfg: Config, id: ScimId)
    requires DistinctGroupNames(data) && Contributes(data, cfg, id)
    ensures !RendersAlike(data, cfg, id)
  {
    var g :| g in data.groups && id in data.groups[g].members;
    var without := WithoutUser(data, id);
    assert without.groups[g] == Stripped(data.groups[g], id);
    assert DistinctGroupNames(without);
    TokensWithout(data.users, cfg, data.groups[g].members, id);
    GroupIsRendered(data, cfg, g);
    GroupIsRendered(without, cfg, g);
    var before := Strings(MemberTokens(data.users, cfg, data.groups[g].members));
    var after := Strings(MemberTokens(without.users, cfg, without.groups[g].members));
    assert |after| < |before|;
  }

  /** Removing a user leaves the rendering alone exactly when they had no token in any
      group: no group has them, or they are inactive, unknown or without identifier. */
  lemma {:induction false} RendersAlikeIff(data: Data, cfg: Config, id: ScimId)
    requires DistinctGroupNames(data)
    ensures RendersAlike(data, cfg, id) <==> !Contributes(data, cfg, id)
  {
    if Contributes(data, cfg, id) {
      TokenShows(data, cfg, id);
    } else {
      NoTokenRendersAlike(data, cfg, id);
    }
  }

  ghost predicate RetryEndsInSync(w: World, cfg: Config, id: ScimId) {
    forall ws, es, used :: DeleteRun(ws, es, cfg, id, used) && ws[0] == w && EndsAnswered(es) ==> InSync(ws[|es|], cfg)
  }

  lemma {:induction false} WithoutUserTwice(data: Data, id: ScimId)
    ensures WithoutUser(WithoutUser(data, id), id) == WithoutUser(data, id)
  {
    var once := WithoutUser(data, id);
    forall g | g in data.groups
      ensures Stripped(once.groups[g], id) == once.groups[g]
    {
      RetainKeepsOthers(data.groups[g].members, id);
      RetainKeepsOthers(once.groups[g].members, id);
    }
  }

  /** Nothing but the user's removal has happened to the mapping, in memory or on disk. */
  ghost predicate OnlyRemoved(w: World, base: Data, id: ScimId) {
    && Sound(w.fs)
    && (w.data == base || w.data == WithoutUser(base, id))
    && Versions(w.fs, EMPTY) <= {base, WithoutUser(base, id)}
  }

  lemma {:induction false} AttemptOnlyRemoves(w: World, cfg: Config, id: ScimId, f: Faults, w': World, reply: Reply,
                                              base: Data)
    requires OnlyRemoved(w, base, id) && DeleteUserAttempt(w, cfg, id, f, w', reply)
    ensures OnlyRemoved(w', base, id)
    ensures RendersAlike(base, cfg, id) && InSync(w, cfg) ==> InSync(w', cfg)
  {
    if id in w.data.users {
      WithoutUserTwice(base, id);
      var (accounts, gone) := DeleteAccount(w.accounts, cfg, w.data.users[id], f);
      if gone {
        FlushVersions(w.fs, WithoutUser(w.data, id), StepsOf(f.flush), EMPTY);
        if f.flush.NoFault? {
          var removed := Removal(w.(accounts := accounts), WithoutUser(w.data, id), f.flush);
          ReconcileSyncs(removed, cfg, f, w', reply.Deleted?);
        }
      }
    }
  }

  lemma {:induction false} StepOnlyRemoves(w: World, e: DeleteEvent, w': World, cfg: Config, id: ScimId,
                                           used: set<nat>, base: Data)
    requires OnlyRemoved(w, base, id) && DeleteStep(w, e, w', cfg, id, used)
    ensures OnlyRemoved(w', base, id)
    ensures RendersAlike(base, cfg, id) && InSync(w, cfg) ==> InSync(w', cfg)
  {
    match e
    case DeleteAttempt(f, reply) => AttemptOnlyRemoves(w, cfg, id, f, w', reply, base);
    case ReadAgain => RestartFindsVersion(w.fs, w'.fs, w'.data, EMPTY);
    case _ =>
  }

  /** A removal that changes no rendering has nothing to put out of sync. */
  ghost predicate Harmless(w: World, base: Data, cfg: Config, id: ScimId) {
    OnlyRemoved(w, base, id) && InSync(w, cfg)
  }

  lemma {:induction false} StepAtHarmless(ws: seq<World>, es: seq<DeleteEvent>, i: nat, cfg: Config, id: ScimId,
                                          used: set<nat>, base: Data)
    requires DeleteRun(ws, es, cfg, id, used) && i < |es|
    requires Harmless(ws[i], base, cfg, id) && RendersAlike(base, cfg, id)
    ensures Harmless(ws[i + 1], base, cfg, id)
  {
    assert DeleteStepAt(ws, es, i, cfg, id, used);
    StepOnlyRemoves(ws[i], es[i], ws[i + 1], cfg, id, used, base);
  }

  lemma {:induction false} RunHarmless(ws: seq<World>, es: seq<DeleteEvent>, i: nat, cfg: Config, id: ScimId,
                                       used: set<nat>, base: Data)
    requires DeleteRun(ws, es, cfg, id, used) && i <= |es|
    requires Harmless(ws[0], base, cfg, id) && RendersAlike(base, cfg, id)
    ensures Harmless(ws[i], base, cfg, id)
  {
    hide *;
    if i > 0 {
      RunHarmless(ws, es, i - 1, cfg, id, used, base);
      StepAtHarmless(ws, es, i - 1, cfg, id, used, base);
    }
  }

  /** The attempt that goes wrong: the record is removed, SetPolicy is refused. */
  lemma {:induction false} StrandingAttempt(w: World, cfg: Config, id: ScimId) returns (f: Faults, stranded: World)
    requires Sound(w.fs) && ValidText(w.policy) && InSync(w, cfg) && id in w.data.users
    requires !RendersAlike(w.data, cfg, id)
    ensures Sound(stranded.fs) && DeleteUserAttempt(w, cfg, id, f, stranded, Failed)
    ensures id !in stranded.data.users && !InSync(stranded, cfg)
  {
    f := Faults(false, map[], Delivered, NoFault, false, Refused);
    var (accounts, gone) := DeleteAccount(w.accounts, cfg, w.data.users[id], f);
    assert gone;
    stranded := Removal(w.(accounts := accounts), WithoutUser(w.data, id), NoFault);
    assert !InSync(stranded, cfg);
    OutOfSyncMustWrite(stranded, cfg);
    assert Reconciled(stranded, cfg, f, stranded, false);
  }

  /** A retry after that is answered with 404 and never reconciles. */
  lemma {:induction false} FailedThenMissing(w: World, stranded: World, f: Faults, cfg: Config, id: ScimId)
    requires Sound(w.fs) && Sound(stranded.fs) && id !in stranded.data.users
    requires DeleteUserAttempt(w, cfg, id, f, stranded, Failed)
    ensures DeleteRun([w, stranded, stranded], [DeleteAttempt(f, Failed), DeleteAttempt(f, NotFound)], cfg, id, {})
  {
    var ws, es := [w, stranded, stranded], [DeleteAttempt(f, Failed), DeleteAttempt(f, NotFound)];
    assert DeleteStep(ws[0], es[0], ws[1], cfg, id, {});
    assert DeleteStep(ws[1], es[1], ws[2], cfg, id, {});
    assert DeleteStepAt(ws, es, 0, cfg, id, {}) && DeleteStepAt(ws, es, 1, cfg, id, {});
  }

  lemma {:induction false} StrandedRun(w: World, cfg: Config, id: ScimId) returns (ws: seq<World>, es: seq<DeleteEvent>)
    requires Sound(w.fs) && ValidText(w.policy) && InSync(w, cfg) && id in w.data.users
    requires !RendersAlike(w.data, cfg, id)
    ensures DeleteRun(ws, es, cfg, id, {}) && ws[0] == w && EndsAnswered(es)
    ensures !InSync(ws[|es|], cfg)
  {
    var f, stranded := StrandingAttempt(w, cfg, id);
    FailedThenMissing(w, stranded, f, cfg, id);
    ws := [w, stranded, stranded];
    es := [DeleteAttempt(f, Failed), DeleteAttempt(f, NotFound)];
  }

  lemma {:induction false} HarmlessRun(ws: seq<World>, es: seq<DeleteEvent>, cfg: Config, id: ScimId, used: set<nat>)
    requires DeleteRun(ws, es, cfg, id, used)
    requires Saved(ws[0]) && InSync(ws[0], cfg) && RendersAlike(ws[0].data, cfg, id)
    ensures InSync(ws[|es|], cfg)
  {
    RunningReadsVersion(ws[0].fs, EMPTY);
    var base := ws[0].data;
    RunHarmless(ws, es, |es|, cfg, id, used, base);
  }

  /** A delete retried, through restarts and account changes, until it is answered is sure
      to end in sync exactly when the user had no token in any group to begin with. */
  lemma {:induction false} DeleteRetrySyncsIff(w: World, cfg: Config, id: ScimId)
    requires Saved(w) && ValidText(w.policy) && InSync(w, cfg) && id in w.data.users && DistinctGroupNames(w.data)
    ensures RetryEndsInSync(w, cfg, id) <==> !Contributes(w.data, cfg, id)
  {
    RendersAlikeIff(w.data, cfg, id);
    if RendersAlike(w.data, cfg, id) {
      forall ws, es, used | DeleteRun(ws, es, cfg, id, used) && ws[0] == w && EndsAnswered(es)
        ensures InSync(ws[|es|], cfg)
      {
        HarmlessRun(ws, es, cfg, id, used);
      }
    } else {
      var ws, es := StrandedRun(w, cfg, id);
    }
  }

  // ── deleting a group ────────────────────────────────────────────────────────

  /** A group always shows in the rendering, so that removing it changes the policy. */
  lemma {:induction false} GroupAlwaysShows(data: Data, cfg: Config, id: GroupId)
    requires DistinctGroupNames(data) && id in data.groups
    ensures !Convergence.SameGroups(Groups(data, cfg), Groups(WithoutGroup(data, id), cfg))
  {
    var without := WithoutGroup(data, id);
    var key := GroupKey(data.groups[id].name);
    GroupIsRendered(data, cfg, id);
    GroupsObjectKeys(Rendering(without, cfg));
    if key in GroupKeys(Rendering(without, cfg)) {
      var g := RenderedFrom(without, cfg, key);
      GroupKeyInjective(without.groups[g].name, data.groups[id].name);
    }
  }

  /** A delete_group that removed the record and then failed is answered with 404 from then
      on, and is in sync after that exactly when it was SetPolicy's reply that was lost. */
  lemma {:induction false} GroupDeleteStrands(w: World, cfg: Config, id: GroupId, f: Faults, w': World, again: Faults,
                                              w'': World, reply: Reply)
    requires Sound(w.fs) && InSync(w, cfg) && DistinctGroupNames(w.data)
    requires id in w.data.groups && DeleteGroupAttempt(w, cfg, id, f, w', Failed) && id !in w'.data.groups
    requires Sound(w'.fs) && DeleteGroupAttempt(w', cfg, id, again, w'', reply)
    ensures reply == NotFound && w'' == w'
    ensures InSync(w'', cfg) <==> !f.getFails && f.setPolicy.ReplyLost?
  {
    var removed := Removal(w, WithoutGroup(w.data, id), f.flush);
    GroupAlwaysShows(w.data, cfg, id);
    assert !InSync(removed, cfg);
    hide InSync, Reconciled;
    FailedReconcileSyncs(removed, cfg, f, w');
  }

  /** That happens: SetPolicy need only be refused. */
  lemma {:induction false} GroupDeleteCanStrand(w: World, cfg: Config, id: GroupId)
    returns (f: Faults, stranded: World)
    requires Sound(w.fs) && ValidText(w.policy) && InSync(w, cfg) && DistinctGroupNames(w.data) && id in w.data.groups
    ensures DeleteGroupAttempt(w, cfg, id, f, stranded, Failed) && Sound(stranded.fs)
    ensures DeleteGroupAttempt(stranded, cfg, id, f, stranded, NotFound)
    ensures !InSync(stranded, cfg)
  {
    f := Faults(false, map[], Delivered, NoFault, false, Refused);
    stranded := Removal(w, WithoutGroup(w.data, id), NoFault);
    GroupAlwaysShows(w.data, cfg, id);
    assert !InSync(stranded, cfg);
    OutOfSyncMustWrite(stranded, cfg);
    assert Reconciled(stranded, cfg, f, stranded, false);
  }
}
