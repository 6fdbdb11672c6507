/** What each SCIM request does, told on the fields of the request and of the records it
    finds: how it is answered, what it stores, and that a success is kept and shown. */
module Requests {
  import opened Wrappers
  import opened PolicyEditing
  import opened ScimPolicy
  import opened Ordering
  import opened Directory
  import opened CrashFs
  import opened ScimService
  import opened Retry
  import opened Upserts

  datatype Request =
    | PutUser(userId: ScimId, user: UserBody)
    | CreateUser(user: UserBody, freshId: string)
    | PutGroup(groupId: GroupId, group: GroupBody)
    | CreateGroup(group: GroupBody, freshId: string)
    | DeleteUser(userId: ScimId)
    | DeleteGroup(groupId: GroupId)

  /** One call of the request's handler. */
  ghost predicate Handled(w: World, cfg: Config, q: Request, f: Faults, w': World, reply: Reply)
    requires Sound(w.fs)
  {
    match q
    case PutUser(id, b) => PutUserAttempt(w, cfg, id, b, f, w', reply)
    case CreateUser(b, freshId) => CreateUserAttempt(w, cfg, b, freshId, f, w', reply)
    case PutGroup(id, b) => PutGroupAttempt(w, cfg, id, b, f, w', reply)
    case CreateGroup(b, freshId) => CreateGroupAttempt(w, cfg, b, freshId, f, w', reply)
    case DeleteUser(id) => DeleteUserAttempt(w, cfg, id, f, w', reply)
    case DeleteGroup(id) => DeleteGroupAttempt(w, cfg, id, f, w', reply)
  }

  // ── how a request is answered ───────────────────────────────────────────────

  /** Something the request must have is missing. */
  predicate Malformed(cfg: Config, q: Request) {
    match q
    case PutUser(_, b) => b.userName.None? || b.active.None? || (cfg.userKey.ByExternalId? && b.externalId.None?)
    case CreateUser(b, _) =>
      b.userName.None? || b.userName.value == "" || (cfg.userKey.ByExternalId? && b.externalId.None?)
    case PutGroup(_, b) => b.displayName.None? || b.displayName.value == ""
    case CreateGroup(b, _) => b.displayName.None? || b.displayName.value == ""
    case _ => false
  }

  /** The record the request speaks of is not there. */
  predicate Unknown(data: Data, q: Request) {
    match q
    case PutUser(id, _) => id !in data.users
    case DeleteUser(id) => id !in data.users
    case PutGroup(id, _) => id !in data.groups
    case DeleteGroup(id) => id !in data.groups
    case _ => false
  }

  /** A rename of a known group to the name of another. */
  predicate TakesName(data: Data, q: Request) {
    && q.PutGroup? && q.groupId in data.groups
    && q.group.displayName != Some(data.groups[q.groupId].name)
    && exists g :: g in data.groups && Some(data.groups[g].name) == q.group.displayName
  }

  lemma {:induction false} NameTakenExactly(data: Data, q: Request)
    requires q.PutGroup? && q.groupId in data.groups && q.group.displayName.Some?
    ensures NameTaken(data.groups, q.groupId, q.group.displayName.value) <==> TakesName(data, q)
  {
    var named := NamedGroups(data.groups, q.group.displayName.value);
    forall g | g in data.groups
      ensures g in named <==> Some(data.groups[g].name) == q.group.displayName
    {
    }
  }

  /** The three reasons to turn a request away. */
  ghost predicate RefusedRightly(w: World, cfg: Config, q: Request, w': World, reply: Reply) {
    && (reply.BadRequest? <==> Malformed(cfg, q))
    && (reply.NotFound? <==> !Malformed(cfg, q) && Unknown(w.data, q))
    && (reply.Conflict? <==> !Malformed(cfg, q) && TakesName(w.data, q))
    && (Malformed(cfg, q) || Unknown(w.data, q) || TakesName(w.data, q) ==> w' == w)
  }

  lemma {:induction false} RefusedPutUser(w: World, cfg: Config, q: Request, f: Faults, w': World, reply: Reply)
    requires Sound(w.fs) && q.PutUser? && Handled(w, cfg, q, f, w', reply)
    ensures RefusedRightly(w, cfg, q, w', reply)
  {
    hide Sound, Flushed, ScimOutcome, NameTaken, ExpireNodes, DeleteAccount, FirstOf, StoreUser, StoreGroup;
  }

  lemma {:induction false} RefusedPutGroup(w: World, cfg: Config, q: Request, f: Faults, w': World, reply: Reply)
    requires Sound(w.fs) && q.PutGroup? && Handled(w, cfg, q, f, w', reply)
    ensures RefusedRightly(w, cfg, q, w', reply)
  {
    if q.groupId in w.data.groups && q.group.displayName.Some? {
      NameTakenExactly(w.data, q);
    }
    hide Sound, Flushed, ScimOutcome, NameTaken, ExpireNodes, DeleteAccount, FirstOf, StoreUser, StoreGroup;
  }

  lemma {:induction false} WellFormedCreate(cfg: Config, user: UserBody, group: GroupBody, freshId: string)
    ensures ValidCreate(cfg, user) <==> !Malformed(cfg, CreateUser(user, freshId))
    ensures ValidGroup(group) <==> !Malformed(cfg, CreateGroup(group, freshId))
  {
  }

  lemma {:induction false} CreateUserRefused(w: World, cfg: Config, b: UserBody, freshId: ScimId, f: Faults,
                                             w': World, reply: Reply)
    requires Sound(w.fs) && CreateUserAttempt(w, cfg, b, freshId, f, w', reply)
    ensures reply.BadRequest? <==> Malformed(cfg, CreateUser(b, freshId))
    ensures !reply.NotFound? && !reply.Conflict? && (reply.BadRequest? ==> w' == w)
  {
    hide Sound, Flushed, Reconciled, FirstOf, StoreUser, Malformed, ValidCreate;
    WellFormedCreate(cfg, b, GroupBody(None, None, None), freshId);
  }

  lemma {:induction false} CreateGroupRefused(w: World, cfg: Config, b: GroupBody, freshId: GroupId, f: Faults,
                                              w': World, reply: Reply)
    requires Sound(w.fs) && CreateGroupAttempt(w, cfg, b, freshId, f, w', reply)
    ensures reply.BadRequest? <==> Malformed(cfg, CreateGroup(b, freshId))
    ensures !reply.NotFound? && !reply.Conflict? && (reply.BadRequest? ==> w' == w)
  {
    hide Sound, Flushed, Reconciled, FirstOf, StoreGroup, Malformed, ValidGroup;
    WellFormedCreate(cfg, UserBody(None, None, None, None, None), b, freshId);
  }

  lemma {:induction false} RefusedDelete(w: World, cfg: Config, q: Request, f: Faults, w': World, reply: Reply)
    requires Sound(w.fs) && (q.DeleteUser? || q.DeleteGroup?) && Handled(w, cfg, q, f, w', reply)
    ensures RefusedRightly(w, cfg, q, w', reply)
  {
    hide Sound, Flushed, ScimOutcome, NameTaken, ExpireNodes, DeleteAccount, FirstOf, StoreUser, StoreGroup;
  }

  /** Which requests are turned away, for which of three reasons; nothing changes then.  All
      others are answered with success or failure. */
  lemma {:induction false} RefusedExactly(w: World, cfg: Config, q: Request, f: Faults, w': World, reply: Reply)
    requires Sound(w.fs) && Handled(w, cfg, q, f, w', reply)
    ensures RefusedRightly(w, cfg, q, w', reply)
  {
    match q
    case PutUser(_, _) => RefusedPutUser(w, cfg, q, f, w', reply);
    case PutGroup(_, _) => RefusedPutGroup(w, cfg, q, f, w', reply);
    case CreateUser(b, freshId) => CreateUserRefused(w, cfg, b, freshId, f, w', reply);
    case CreateGroup(b, freshId) => CreateGroupRefused(w, cfg, b, freshId, f, w', reply);
    case _ => RefusedDelete(w, cfg, q, f, w', reply);
  }

  // ── what a success has stored ───────────────────────────────────────────────

  /** The fields a stored group takes from the request. */
  predicate RecordsGroup(r: GroupRecord, b: GroupBody) {
    && Some(r.name) == b.displayName && r.externalId == b.externalId
    && r.members == (if b.members.Some? then b.members.value else [])
  }

  function UsersNamed(data: Data, name: Option<string>): set<ScimId> {
    set id | id in data.users && Some(data.users[id].name) == name
  }

  function GroupsNamed(data: Data, name: Option<string>): set<GroupId> {
    set id | id in data.groups && Some(data.groups[id].name) == name
  }

  /** The id is the least of `ids`, or the fresh one if there are none; the reply says which. */
  ghost predicate LeastOrFresh(ids: set<string>, id: string, freshId: string, reply: Reply) {
    if ids == {} then id == freshId && reply == Created(id)
    else id in ids && (forall k | k in ids :: k == id || Before(id, k)) && reply == Updated(id)
  }

  lemma {:induction false} FirstIsLeast(ids: set<string>)
    requires ids != {}
    ensures FirstOf(ids).Some? && FirstOf(ids).value in ids
    ensures forall k | k in ids :: k == FirstOf(ids).value || Before(FirstOf(ids).value, k)
  {
    forall k | k in ids
      ensures k == Least(ids) || Before(Least(ids), k)
    {
      StrLeIsDictionary(Least(ids), k);
    }
  }

  /** A successful put_user has stored the record asked for under that id, and nothing else. */
  lemma {:induction false} PutUserStores(w: World, cfg: Config, id: ScimId, b: UserBody, f: Faults, w': World,
                                         reply: Reply)
    requires Sound(w.fs) && PutUserAttempt(w, cfg, id, b, f, w', reply) && Succeeded(reply)
    ensures reply == Updated(id) && id in w.data.users && id in w'.data.users
    ensures Records(w'.data.users[id], b) && Some(w'.data.users[id].active) == b.active
    ensures w'.data == Data(w.data.users[id := w'.data.users[id]], w.data.groups) && w'.accounts == w.accounts
  {
  }

  lemma {:induction false} NamedAlike(data: Data, name: string)
    ensures NamedUsers(data.users, name) == UsersNamed(data, Some(name))
    ensures NamedGroups(data.groups, name) == GroupsNamed(data, Some(name))
  {
  }

  /** Where an upsert goes, and how it is answered. */
  function UpsertTo(ids: set<string>, freshId: string): (string, Reply) {
    match FirstOf(ids)
    case Some(id) => (id, Updated(id))
    case None => (freshId, Created(freshId))
  }

  lemma {:induction false} UpsertToLeast(ids: set<string>, freshId: string)
    ensures LeastOrFresh(ids, UpsertTo(ids, freshId).0, freshId, UpsertTo(ids, freshId).1)
  {
    if ids != {} {
      FirstIsLeast(ids);
    }
  }

  lemma {:induction false} UserUpserted(w: World, cfg: Config, b: UserBody, freshId: ScimId, f: Faults, w': World,
                                        reply: Reply)
    requires Sound(w.fs) && CreateUserAttempt(w, cfg, b, freshId, f, w', reply) && Succeeded(reply)
    ensures b.userName.Some?
    ensures var (id, answer) := UpsertTo(NamedUsers(w.data.users, b.userName.value), freshId);
            && reply == answer && w' == w.(data := w'.data, fs := w'.fs, policy := w'.policy)
            && w'.data == Data(w.data.users[id := CreateRecord(b)], w.data.groups)
  {
    hide FirstOf, NamedUsers, Flushed, ScimOutcome;
  }

  lemma {:induction false} GroupUpserted(w: World, cfg: Config, b: GroupBody, freshId: GroupId, f: Faults, w': World,
                                         reply: Reply)
    requires Sound(w.fs) && CreateGroupAttempt(w, cfg, b, freshId, f, w', reply) && Succeeded(reply)
    ensures ValidGroup(b)
    ensures var (id, answer) := UpsertTo(NamedGroups(w.data.groups, b.displayName.value), freshId);
            && reply == answer && w' == w.(data := w'.data, fs := w'.fs, policy := w'.policy)
            && w'.data == Data(w.data.users, w.data.groups[id := GroupFrom(b)])
  {
    hide FirstOf, NamedGroups, Flushed, ScimOutcome;
  }

  /** A successful create_user has stored the record under the first id with that name in id
      order, or else under the fresh one, and changed no other. */
  lemma {:induction false} CreateUserStores(w: World, cfg: Config, b: UserBody, freshId: ScimId, f: Faults,
                                            w': World, reply: Reply)
    requires Sound(w.fs) && CreateUserAttempt(w, cfg, b, freshId, f, w', reply) && Succeeded(reply)
    ensures LeastOrFresh(UsersNamed(w.data, b.userName), reply.id, freshId, reply)
    ensures reply.id in w'.data.users && Records(w'.data.users[reply.id], b)
    ensures w'.data == Data(w.data.users[reply.id := w'.data.users[reply.id]], w.data.groups)
    ensures w'.accounts == w.accounts && w'.nodes == w.nodes
  {
    UserUpserted(w, cfg, b, freshId, f, w', reply);
    NamedAlike(w.data, b.userName.value);
    UpsertToLeast(NamedUsers(w.data.users, b.userName.value), freshId);
    hide CreateUserAttempt, LeastOrFresh, NamedUsers, UsersNamed, FirstOf, Sound;
  }

  lemma {:induction false} CreateGroupStores(w: World, cfg: Config, b: GroupBody, freshId: GroupId, f: Faults,
                                             w': World, reply: Reply)
    requires Sound(w.fs) && CreateGroupAttempt(w, cfg, b, freshId, f, w', reply) && Succeeded(reply)
    ensures LeastOrFresh(GroupsNamed(w.data, b.displayName), reply.id, freshId, reply)
    ensures reply.id in w'.data.groups && RecordsGroup(w'.data.groups[reply.id], b)
    ensures w'.data == Data(w.data.users, w.data.groups[reply.id := w'.data.groups[reply.id]])
    ensures w'.accounts == w.accounts && w'.nodes == w.nodes
  {
    GroupUpserted(w, cfg, b, freshId, f, w', reply);
    NamedAlike(w.data, b.displayName.value);
    UpsertToLeast(NamedGroups(w.data.groups, b.displayName.value), freshId);
    hide CreateGroupAttempt, LeastOrFresh, NamedGroups, GroupsNamed, FirstOf, Sound;
  }

  lemma {:induction false} PutGroupStores(w: World, cfg: Config, id: GroupId, b: GroupBody, f: Faults, w': World,
                                          reply: Reply)
    requires Sound(w.fs) && PutGroupAttempt(w, cfg, id, b, f, w', reply) && Succeeded(reply)
    ensures reply == Updated(id) && id in w.data.groups && id in w'.data.groups
    ensures RecordsGroup(w'.data.groups[id], b)
    ensures w'.data == Data(w.data.users, w.data.groups[id := w'.data.groups[id]])
    ensures w'.accounts == w.accounts && w'.nodes == w.nodes
  {
  }

  // ── a success is kept ───────────────────────────────────────────────────────

  /** What a handler leaves on disk when it succeeds: its own complete flush. */
  lemma {:induction false} SuccessFlushes(w: World, cfg: Config, q: Request, f: Faults, w': World, reply: Reply)
    requires Sound(w.fs) && Handled(w, cfg, q, f, w', reply) && Succeeded(reply)
    ensures w'.fs == Flushed(w.fs, w'.data, FLUSH_STEPS)
  {
    hide Flushed, ScimOutcome, NameTaken, FirstOf, ExpireNodes, DeleteAccount, WithoutUser, WithoutGroup, PutRecord,
      CreateRecord, GroupFrom, MustExpire, ValidPut, ValidCreate;
  }

  /** When the mapping's path names a directory, whatever was answered with success is what any
      later start of the process finds, after any crash. */
  lemma {:induction false} AnsweredIsDurable(w: World, cfg: Config, q: Request, f: Faults, w': World, reply: Reply,
                                             after: Fs<Data>, found: Data)
    requires Sound(w.fs) && w.fs.hasParent && Handled(w, cfg, q, f, w', reply) && Succeeded(reply)
    requires Restart(w'.fs, after, found, EMPTY)
    ensures found == w'.data
  {
    SuccessFlushes(w, cfg, q, f, w', reply);
    FlushVersions(w.fs, w'.data, FLUSH_STEPS, EMPTY);
    RestartFindsVersion(w'.fs, after, found, EMPTY);
  }

  // ── a success is shown ──────────────────────────────────────────────────────

  /** A put_user that leaves the user active and in no group. */
  predicate Silent(data: Data, q: Request) {
    q.PutUser? && q.user.active == Some(true) && forall g | g in data.groups :: q.userId !in data.groups[g].members
  }

  /** A success ends with a policy that names exactly the stored groups and their members,
      except that a silent put_user does not touch the policy at all. */
  lemma {:induction false} AnsweredIsShown(w: World, cfg: Config, q: Request, f: Faults, w': World, reply: Reply)
    requires Sound(w.fs) && Handled(w, cfg, q, f, w', reply) && Succeeded(reply)
    requires DistinctGroupNames(w'.data)
    ensures if Silent(w.data, q) then w'.policy == w.policy
            else ParsedRoot(w'.policy).Some? && NamesMembers(LiveFields(w'.policy), w'.data, cfg)
  {
    if !Silent(w.data, q) {
      SuccessReconciles(w, cfg, q, f, w', reply);
      InSyncNames(w', cfg);
    }
  }

  lemma {:induction false} SuccessReconciles(w: World, cfg: Config, q: Request, f: Faults, w': World, reply: Reply)
    requires Sound(w.fs) && Handled(w, cfg, q, f, w', reply) && Succeeded(reply) && !Silent(w.data, q)
    ensures InSync(w', cfg)
  {
    match q
    case PutUser(id, b) =>
      var mid := ExpiredFirst(w, cfg, w.data.users[id], PutRecord(b), f).0;
      ReconcileSyncs(StoreUser(mid, id, PutRecord(b), f.flush), cfg, f, w', true);
    case CreateUser(b, freshId) => CreateUserSync(w, cfg, b, freshId, f, w', reply);
    case PutGroup(id, b) => PutGroupSync(w, cfg, id, b, f, w', reply);
    case CreateGroup(b, freshId) => CreateGroupSync(w, cfg, b, freshId, f, w', reply);
    case DeleteUser(id) =>
      var accounts := DeleteAccount(w.accounts, cfg, w.data.users[id], f).0;
      ReconcileSyncs(Removal(w.(accounts := accounts), WithoutUser(w.data, id), f.flush), cfg, f, w', true);
    case DeleteGroup(id) => ReconcileSyncs(Removal(w, WithoutGroup(w.data, id), f.flush), cfg, f, w', true);
  }

  /** A silent put_user that asks for no expiry depends on the flush alone. */
  lemma {:induction false} SilentPutUser(w: World, cfg: Config, id: ScimId, b: UserBody, f: Faults, w': World,
                                         reply: Reply)
    requires Sound(w.fs) && PutUserAttempt(w, cfg, id, b, f, w', reply) && Silent(w.data, PutUser(id, b))
    requires !Malformed(cfg, PutUser(id, b)) && id in w.data.users && !AsksForExpiry(cfg, w.data.users[id], b)
    ensures reply == if f.flush.NoFault? then Updated(id) else Failed
    ensures w'.policy == w.policy && w'.nodes == w.nodes && w'.accounts == w.accounts
  {
    ExpiryIsAsked(cfg, w.data.users[id], b);
  }
}
