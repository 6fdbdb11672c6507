/** The SCIM handlers that create, update and delete users and groups.

    Every remote call, flush and node expiry may fail in any way the `Faults` record
    says.  A handler's effect is stated on `World`, the state the service and headscale
    share. */
module ScimService {
  import opened Wrappers
  import opened PolicyMap
  import opened PolicyEditing
  import opened Remote
  import opened ScimPolicy
  import opened Directory
  import opened CrashFs
  import opened Storage
  import Convergence

  /** The headscale account a node belongs to. */
  datatype Owner = Owner(email: string, name: string, providerId: string)

  datatype Node = Node(owner: Option<Owner>, expired: bool)

  /** What becomes of one ExpireNode call. */
  datatype NodeRpc =
    | Expired
    | Vanished        // the node is gone; NotFound counts as success
    | NotExpired
    | ExpiredReplyLost

  /** A headscale user account, in the order ListUsers gives them. */
  datatype Account = Account(id: nat, owner: Owner)

  datatype Faults = Faults(
    listFails: bool,
    expire: map<nat, NodeRpc>,
    deleteAccount: Rpc,
    flush: FlushFault,
    getFails: bool,
    setPolicy: Rpc)

  datatype World = World(data: Data, fs: Fs<Data>, policy: PolicyText, nodes: map<nat, Node>, accounts: seq<Account>)

  datatype UserBody = UserBody(
    userName: Option<string>,
    displayName: Option<string>,
    externalId: Option<string>,
    emails: Option<seq<string>>,
    active: Option<bool>)

  datatype GroupBody = GroupBody(displayName: Option<string>, externalId: Option<string>, members: Option<seq<string>>)

  datatype Reply =
    | Created(id: string)
    | Updated(id: string)
    | Deleted
    | BadRequest
    | NotFound
    | Conflict
    | Failed

  predicate Succeeded(r: Reply) {
    r.Created? || r.Updated? || r.Deleted?
  }

  // ── node expiry ─────────────────────────────────────────────────────────────

  predicate Matches(o: Owner, key: Resolved) {
    match key
    case EmailKey(e) => o.email == e
    case NameKey(n) => o.name == n
    case ProviderKey(p) => o.providerId == p
  }

  predicate Owns(key: Resolved, node: Node) {
    node.owner.Some? && Matches(node.owner.value, key)
  }

  // ── whose account, on its own terms ─────────────────────────────────────────

  /** The account is the record's, going by the identifier that is configured. */
  predicate IsAccountOf(o: Owner, cfg: Config, r: UserRecord) {
    match cfg.userKey
    case ByEmail => r.email == Some(o.email)
    case ByUsername => o.name == r.name
    case ByExternalId(issuer) => r.externalId.Some? && o.providerId == issuer + "/" + r.externalId.value
  }

  predicate IsNodeOf(node: Node, cfg: Config, r: UserRecord) {
    node.owner.Some? && IsAccountOf(node.owner.value, cfg, r)
  }

  lemma {:induction false} KeyStandsForRecord(cfg: Config, r: UserRecord, o: Owner)
    ensures ResolveKey(cfg, r).Some? <==> Identifiable(cfg, r)
    ensures ResolveKey(cfg, r).Some? ==> (Matches(o, ResolveKey(cfg, r).value) <==> IsAccountOf(o, cfg, r))
    ensures ResolveKey(cfg, r).None? ==> !IsAccountOf(o, cfg, r)
  {
  }

  lemma {:induction false} KeyOwnsRecordsNodes(cfg: Config, r: UserRecord, node: Node)
    ensures ResolveKey(cfg, r).Some? ==> (Owns(ResolveKey(cfg, r).value, node) <==> IsNodeOf(node, cfg, r))
    ensures ResolveKey(cfg, r).None? ==> !IsNodeOf(node, cfg, r)
  {
    if node.owner.Some? {
      KeyStandsForRecord(cfg, r, node.owner.value);
    }
  }

  // ── the expiry calls ────────────────────────────────────────────────────────

  function OutcomeOf(expire: map<nat, NodeRpc>, n: nat): NodeRpc {
    if n in expire then expire[n] else Expired
  }

  /** The nodes after the concurrent expiry calls for everything `key` owns. */
  function NodesAfter(nodes: map<nat, Node>, key: Resolved, expire: map<nat, NodeRpc>): map<nat, Node> {
    map n | n in nodes && !(Owns(key, nodes[n]) && OutcomeOf(expire, n).Vanished?) ::
      if Owns(key, nodes[n]) && !OutcomeOf(expire, n).NotExpired? then nodes[n].(expired := true) else nodes[n]
  }

  predicate AllExpired(nodes: map<nat, Node>, key: Resolved, expire: map<nat, NodeRpc>) {
    forall n | n in nodes && Owns(key, nodes[n]) :: OutcomeOf(expire, n).Expired? || OutcomeOf(expire, n).Vanished?
  }

  /** `expire_headscale_user_nodes`: nothing to do without an identifier. */
  function ExpireNodes(nodes: map<nat, Node>, cfg: Config, r: UserRecord, f: Faults): (map<nat, Node>, bool) {
    match ResolveKey(cfg, r)
    case None => (nodes, true)
    case Some(key) =>
      if f.listFails then (nodes, false)
      else (NodesAfter(nodes, key, f.expire), AllExpired(nodes, key, f.expire))
  }

  // ── put_user ────────────────────────────────────────────────────────────────

  function BodyEmail(b: UserBody): Option<string> {
    if b.emails.Some? && b.emails.value != [] then Some(b.emails.value[0]) else None
  }

  predicate MissingExternalId(cfg: Config, b: UserBody) {
    cfg.userKey.ByExternalId? && b.externalId.None?
  }

  predicate ValidPut(cfg: Config, b: UserBody) {
    b.userName.Some? && b.active.Some? && !MissingExternalId(cfg, b)
  }

  function PutRecord(b: UserBody): UserRecord
    requires b.userName.Some? && b.active.Some?
  {
    UserRecord(b.active.value, b.userName.value, b.displayName, BodyEmail(b), b.externalId)
  }

  /** The configured identifier differs between the stored and the new record. */
  predicate IdentifierChanges(cfg: Config, stored: UserRecord, wanted: UserRecord) {
    match cfg.userKey
    case ByEmail => wanted.email != stored.email
    case ByUsername => wanted.name != stored.name
    case ByExternalId(_) => false
  }

  predicate MustExpire(cfg: Config, stored: UserRecord, wanted: UserRecord) {
    !wanted.active || (cfg.expireNodesOnChange && IdentifierChanges(cfg, stored, wanted))
  }

  /** `set_user`: memory changes whatever the flush does. */
  function StoreUser(w: World, id: ScimId, r: UserRecord, fault: FlushFault): World
    requires Sound(w.fs)
  {
    var data := Data(w.data.users[id := r], w.data.groups);
    w.(data := data, fs := Flushed(w.fs, data, StepsOf(fault)))
  }

  function StoreGroup(w: World, id: GroupId, r: GroupRecord, fault: FlushFault): World
    requires Sound(w.fs)
  {
    var data := Data(w.data.users, w.data.groups[id := r]);
    w.(data := data, fs := Flushed(w.fs, data, StepsOf(fault)))
  }

  /** The policy's groups are the rendering of the mapping. */
  ghost predicate InSync(w: World, cfg: Config) {
    ParsedRoot(w.policy).Some? &&
    Convergence.SameGroups(LiveFields(w.policy), Groups(w.data, cfg))
  }

  /** A reconcile: only the policy may change, as a SCIM sync of the rendering ends with the
      faults given. */
  ghost predicate Reconciled(w: World, cfg: Config, f: Faults, w': World, ok: bool) {
    && w' == w.(policy := w'.policy)
    && ValidText(w.policy) && ValidText(w'.policy)
    && ScimOutcome(w.policy, Rendering(w.data, cfg), f.getFails, f.setPolicy, w'.policy, ok)
  }

  lemma {:induction false} ReconcileSyncs(w: World, cfg: Config, f: Faults, w': World, ok: bool)
    requires Reconciled(w, cfg, f, w', ok)
    ensures ok || w'.policy != w.policy ==> InSync(w', cfg)
    ensures InSync(w, cfg) ==> InSync(w', cfg)
  {
    var groups := Rendering(w.data, cfg);
    OutcomeSynced(w.policy, groups, f.getFails, f.setPolicy, w'.policy, ok);
    if ok || w'.policy != w.policy {
      Convergence.SyncedShows(w.policy, groups, w'.policy, MustWrite(w.policy, groups));
    }
  }

  /** In sync: the policy names exactly the stored groups, and in each its members. */
  lemma {:induction false} InSyncNames(w: World, cfg: Config)
    requires InSync(w, cfg) && DistinctGroupNames(w.data)
    ensures NamesMembers(LiveFields(w.policy), w.data, cfg)
  {
    hide EntryNames, LiveFields, Groups;
    RenderingNames(w.data, cfg);
  }

  /** A policy that parses but is out of sync is not the wanted one. */
  lemma {:induction false} OutOfSyncMustWrite(w: World, cfg: Config)
    requires ParsedRoot(w.policy).Some? && !InSync(w, cfg)
    ensures MustWrite(w.policy, Rendering(w.data, cfg))
  {
    Convergence.ScimResult(LiveFields(w.policy), Rendering(w.data, cfg));
  }

  /** A reconcile that fails on a policy out of sync syncs it only if the reply alone was lost. */
  lemma {:induction false} FailedReconcileSyncs(w: World, cfg: Config, f: Faults, w': World)
    requires ParsedRoot(w.policy).Some? && !InSync(w, cfg) && Reconciled(w, cfg, f, w', false)
    ensures InSync(w', cfg) <==> !f.getFails && f.setPolicy.ReplyLost?
  {
    OutOfSyncMustWrite(w, cfg);
    ReconcileSyncs(w, cfg, f, w', false);
    hide InSync, MustWrite, Written;
    if w'.policy == w.policy {
      assert w' == w;
    }
  }

  ghost predicate ThenReconciled(stored: World, cfg: Config, f: Faults, w': World, success: Reply, reply: Reply) {
    || (reply == success && Reconciled(stored, cfg, f, w', true))
    || (reply == Failed && Reconciled(stored, cfg, f, w', false))
  }

  /** The first half of `put_user`: expire the old record's nodes if the change asks for it. */
  function ExpiredFirst(w: World, cfg: Config, stored: UserRecord, wanted: UserRecord, f: Faults): (World, bool) {
    if !MustExpire(cfg, stored, wanted) then (w, true)
    else
      var (nodes, ok) := ExpireNodes(w.nodes, cfg, stored, f);
      (w.(nodes := nodes), ok)
  }

  /** The second half: store, then reconcile unless the user is active and in no group. */
  ghost predicate StoredThenReconciled(w: World, cfg: Config, id: ScimId, r: UserRecord, f: Faults, w': World, reply: Reply)
    requires Sound(w.fs)
  {
    var stored := StoreUser(w, id, r, f.flush);
    if !f.flush.NoFault? then reply == Failed && w' == stored
    else if !r.active || InSomeGroup(stored.data, id)
    then ThenReconciled(stored, cfg, f, w', Updated(id), reply)
    else reply == Updated(id) && w' == stored
  }

  /** One call of `put_user`. */
  ghost predicate PutUserAttempt(w: World, cfg: Config, id: ScimId, b: UserBody, f: Faults, w': World, reply: Reply)
    requires Sound(w.fs)
  {
    if !ValidPut(cfg, b) then reply == BadRequest && w' == w
    else if id !in w.data.users then reply == NotFound && w' == w
    else
      var (mid, expired) := ExpiredFirst(w, cfg, w.data.users[id], PutRecord(b), f);
      if !expired then reply == Failed && w' == mid
      else StoredThenReconciled(mid, cfg, id, PutRecord(b), f, w', reply)
  }

  // ── the other handlers ──────────────────────────────────────────────────────

  predicate ValidCreate(cfg: Config, b: UserBody) {
    b.userName.Some? && b.userName.value != "" && !MissingExternalId(cfg, b)
  }

  function CreateRecord(b: UserBody): UserRecord
    requires b.userName.Some?
  {
    UserRecord(b.active != Some(false), b.userName.value, b.displayName, BodyEmail(b), b.externalId)
  }

  /** POST is an upsert: the first record of that name in id order, else a new one. */
  ghost predicate CreateUserAttempt(w: World, cfg: Config, b: UserBody, freshId: ScimId, f: Faults, w': World, reply: Reply)
    requires Sound(w.fs)
  {
    if !ValidCreate(cfg, b) then reply == BadRequest && w' == w
    else
      var existing := FirstOf(NamedUsers(w.data.users, b.userName.value));
      var id := if existing.Some? then existing.value else freshId;
      var stored := StoreUser(w, id, CreateRecord(b), f.flush);
      if !f.flush.NoFault? then reply == Failed && w' == stored
      else ThenReconciled(stored, cfg, f, w', if existing.Some? then Updated(id) else Created(id), reply)
  }

  predicate ValidGroup(b: GroupBody) {
    b.displayName.Some? && b.displayName.value != ""
  }

  /** Member ids are stored as they come, known or not. */
  function GroupFrom(b: GroupBody): GroupRecord
    requires ValidGroup(b)
  {
    GroupRecord(b.displayName.value, if b.members.Some? then b.members.value else [], b.externalId)
  }

  ghost predicate CreateGroupAttempt(w: World, cfg: Config, b: GroupBody, freshId: GroupId, f: Faults, w': World, reply: Reply)
    requires Sound(w.fs)
  {
    if !ValidGroup(b) then reply == BadRequest && w' == w
    else
      var existing := FirstOf(NamedGroups(w.data.groups, b.displayName.value));
      var id := if existing.Some? then existing.value else freshId;
      var stored := StoreGroup(w, id, GroupFrom(b), f.flush);
      if !f.flush.NoFault? then reply == Failed && w' == stored
      else ThenReconciled(stored, cfg, f, w', if existing.Some? then Updated(id) else Created(id), reply)
  }

  predicate NameTaken(groups: map<GroupId, GroupRecord>, id: GroupId, name: string)
    requires id in groups
  {
    name != groups[id].name &&
    match FirstOf(NamedGroups(groups, name))
    case Some(other) => other != id
    case None => false
  }

  ghost predicate PutGroupAttempt(w: World, cfg: Config, id: GroupId, b: GroupBody, f: Faults, w': World, reply: Reply)
    requires Sound(w.fs)
  {
    if !ValidGroup(b) then reply == BadRequest && w' == w
    else if id !in w.data.groups then reply == NotFound && w' == w
    else if NameTaken(w.data.groups, id, b.displayName.value) then reply == Conflict && w' == w
    else
      var stored := StoreGroup(w, id, GroupFrom(b), f.flush);
      if !f.flush.NoFault? then reply == Failed && w' == stored
      else ThenReconciled(stored, cfg, f, w', Updated(id), reply)
  }

  /** An upsert by name keeps group names distinct. */
  lemma {:induction false} UpsertKeepsNames(data: Data, r: GroupRecord, freshId: GroupId)
    requires DistinctGroupNames(data)
    ensures var existing := FirstOf(NamedGroups(data.groups, r.name));
            var id := if existing.Some? then existing.value else freshId;
            DistinctGroupNames(Data(data.users, data.groups[id := r]))
  {
    var existing := FirstOf(NamedGroups(data.groups, r.name));
    var id := if existing.Some? then existing.value else freshId;
    forall g | g in data.groups && g != id
      ensures data.groups[g].name != r.name
    {
      assert g in NamedGroups(data.groups, r.name) <==> data.groups[g].name == r.name;
    }
  }

  /** So does a rename that passed the conflict check. */
  lemma {:induction false} RenameKeepsNames(data: Data, id: GroupId, r: GroupRecord)
    requires DistinctGroupNames(data) && id in data.groups && !NameTaken(data.groups, id, r.name)
    ensures DistinctGroupNames(Data(data.users, data.groups[id := r]))
  {
    forall g | g in data.groups && g != id
      ensures data.groups[g].name != r.name
    {
      assert g in NamedGroups(data.groups, r.name) <==> data.groups[g].name == r.name;
      assert id in NamedGroups(data.groups, r.name) <==> data.groups[id].name == r.name;
    }
  }

  // ── delete_user and delete_group ────────────────────────────────────────────

  /** The account headscale lists first among those `key` matches, or `|accounts|`. */
  function FirstMatch(accounts: seq<Account>, key: Resolved): (i: nat)
    ensures i <= |accounts|
    ensures i < |accounts| ==> Matches(accounts[i].owner, key)
    ensures forall j | 0 <= j < i :: !Matches(accounts[j].owner, key)
  {
    if accounts == [] || Matches(accounts[0].owner, key) then 0 else 1 + FirstMatch(accounts[1..], key)
  }

  /** `delete_headscale_user`: nothing to do without an identifier or without a match. */
  function DeleteAccount(accounts: seq<Account>, cfg: Config, r: UserRecord, f: Faults): (seq<Account>, bool) {
    match ResolveKey(cfg, r)
    case None => (accounts, true)
    case Some(key) =>
      if f.listFails then (accounts, false)
      else
        var i := FirstMatch(accounts, key);
        if i == |accounts| then (accounts, true)
        else (if f.deleteAccount.Refused? then accounts else accounts[..i] + accounts[i + 1..], f.deleteAccount.Delivered?)
  }

  /** The first account listed that is the record's. */
  ghost predicate FirstAccountOf(accounts: seq<Account>, cfg: Config, r: UserRecord, i: int) {
    && 0 <= i < |accounts| && IsAccountOf(accounts[i].owner, cfg, r)
    && (forall j | 0 <= j < i :: !IsAccountOf(accounts[j].owner, cfg, r))
  }

  lemma {:induction false} FirstMatchIsFirst(accounts: seq<Account>, cfg: Config, r: UserRecord)
    requires Identifiable(cfg, r)
    ensures ResolveKey(cfg, r).Some?
    ensures var i := FirstMatch(accounts, ResolveKey(cfg, r).value);
            && (i < |accounts| ==> FirstAccountOf(accounts, cfg, r, i))
            && (i == |accounts| <==> forall a | a in accounts :: !IsAccountOf(a.owner, cfg, r))
            && (forall k | FirstAccountOf(accounts, cfg, r, k) :: k == i)
  {
    KeyStandsForRecord(cfg, r, Owner("", "", ""));
    var key := ResolveKey(cfg, r).value;
    forall j | 0 <= j < |accounts|
      ensures Matches(accounts[j].owner, key) <==> IsAccountOf(accounts[j].owner, cfg, r)
    {
      KeyStandsForRecord(cfg, r, accounts[j].owner);
    }
    hide Matches, IsAccountOf;
  }

  /** The deletion of a record's account: nothing to do without an identifier or an account,
      nothing done without a list; otherwise the account listed first goes, and no other,
      unless that is refused. */
  lemma {:induction false} DeletionExactly(accounts: seq<Account>, cfg: Config, r: UserRecord, f: Faults)
    ensures var (after, ok) := DeleteAccount(accounts, cfg, r, f);
            && (!Identifiable(cfg, r) ==> ok && after == accounts)
            && (Identifiable(cfg, r) && f.listFails ==> !ok && after == accounts)
            && ((forall a | a in accounts :: !IsAccountOf(a.owner, cfg, r)) && !f.listFails ==> ok && after == accounts)
            && (forall i | FirstAccountOf(accounts, cfg, r, i) && !f.listFails ::
                  && after == (if f.deleteAccount.Refused? then accounts else accounts[..i] + accounts[i + 1..])
                  && (ok <==> f.deleteAccount.Delivered?))
  {
    KeyStandsForRecord(cfg, r, Owner("", "", ""));
    if Identifiable(cfg, r) {
      FirstMatchIsFirst(accounts, cfg, r);
      hide IsAccountOf, FirstMatch;
      forall i | FirstAccountOf(accounts, cfg, r, i)
        ensures i == FirstMatch(accounts, ResolveKey(cfg, r).value)
      {
      }
    } else {
      forall i | FirstAccountOf(accounts, cfg, r, i)
        ensures false
      {
        KeyStandsForRecord(cfg, r, accounts[i].owner);
      }
    }
  }

  function WithoutUser(data: Data, id: ScimId): Data {
    Data(data.users - {id}, WithoutMember(data.groups, id))
  }

  function WithoutGroup(data: Data, id: GroupId): Data {
    Data(data.users, data.groups - {id})
  }

  /** A removal: memory goes back to what it was when the flush fails. */
  function Removal(w: World, without: Data, fault: FlushFault): World
    requires Sound(w.fs)
  {
    w.(data := if fault.NoFault? then without else w.data, fs := Flushed(w.fs, without, StepsOf(fault)))
  }

  /** The removal from the mapping, then the reconcile. */
  ghost predicate RemovedThenReconciled(w: World, cfg: Config, without: Data, f: Faults, w': World, reply: Reply)
    requires Sound(w.fs)
  {
    var removed := Removal(w, without, f.flush);
    if !f.flush.NoFault? then reply == Failed && w' == removed
    else ThenReconciled(removed, cfg, f, w', Deleted, reply)
  }

  lemma {:induction false} RemovedData(w: World, cfg: Config, without: Data, f: Faults, w': World, reply: Reply)
    requires Sound(w.fs) && RemovedThenReconciled(w, cfg, without, f, w', reply)
    ensures w'.data == if f.flush.NoFault? then without else w.data
  {
  }

  /** One call of `delete_user`: the account goes before the mapping changes. */
  ghost predicate DeleteUserAttempt(w: World, cfg: Config, id: ScimId, f: Faults, w': World, reply: Reply)
    requires Sound(w.fs)
  {
    if id !in w.data.users then reply == NotFound && w' == w
    else
      var (accounts, gone) := DeleteAccount(w.accounts, cfg, w.data.users[id], f);
      var mid := w.(accounts := accounts);
      if !gone then reply == Failed && w' == mid
      else RemovedThenReconciled(mid, cfg, WithoutUser(w.data, id), f, w', reply)
  }

  ghost predicate DeleteGroupAttempt(w: World, cfg: Config, id: GroupId, f: Faults, w': World, reply: Reply)
    requires Sound(w.fs)
  {
    if id !in w.data.groups then reply == NotFound && w' == w
    else RemovedThenReconciled(w, cfg, WithoutGroup(w.data, id), f, w', reply)
  }

  // ── the calls to headscale ──────────────────────────────────────────────────

  /** One ExpireNode call for each node `key` owns; every call is made whatever becomes of
      the others. */
  method ExpireEach(nodes: map<nat, Node>, key: Resolved, expire: map<nat, NodeRpc>)
    returns (after: map<nat, Node>, ok: bool)
    ensures after == NodesAfter(nodes, key, expire) && ok == AllExpired(nodes, key, expire)
  {
    after, ok := nodes, true;
    var todo := nodes.Keys;
    while todo != {}
      invariant todo <= nodes.Keys && after.Keys <= nodes.Keys
      invariant forall n | n in todo :: n in after && after[n] == nodes[n]
      invariant forall n | n in nodes && n !in todo ::
                  (n in after <==> n in NodesAfter(nodes, key, expire))
                  && (n in after ==> after[n] == NodesAfter(nodes, key, expire)[n])
      invariant ok <==> forall n | n in nodes && n !in todo && Owns(key, nodes[n]) ::
                  OutcomeOf(expire, n).Expired? || OutcomeOf(expire, n).Vanished?
      decreases todo
    {
      var n :| n in todo;
      todo := todo - {n};
      if Owns(key, nodes[n]) {
        match OutcomeOf(expire, n) {
          case Expired => after := after[n := nodes[n].(expired := true)];
          case Vanished => after := after - {n};
          case NotExpired => ok := false;
          case ExpiredReplyLost =>
            after := after[n := nodes[n].(expired := true)];
            ok := false;
        }
      }
    }
  }

  /** Nodes that are not the record's, and the owner of every node, stay as they are; no node
      appears; none comes back from expiry. */
  ghost predicate OthersUntouched(before: map<nat, Node>, after: map<nat, Node>, cfg: Config, r: UserRecord) {
    && after.Keys <= before.Keys
    && (forall n | n in before && !IsNodeOf(before[n], cfg, r) :: n in after && after[n] == before[n])
    && (forall n | n in after :: after[n].owner == before[n].owner && (before[n].expired ==> after[n].expired))
  }

  /** The expiry of a record's nodes: nothing to do without an identifier, nothing done without
      a list; otherwise every node of the record's account that is still there is expired,
      unless its call was refused, and it succeeds exactly when every call did. */
  lemma {:induction false} ExpiryExactly(nodes: map<nat, Node>, cfg: Config, r: UserRecord, f: Faults)
    ensures var (after, ok) := ExpireNodes(nodes, cfg, r, f);
            && OthersUntouched(nodes, after, cfg, r)
            && (!Identifiable(cfg, r) || f.listFails ==> after == nodes && (ok <==> !Identifiable(cfg, r)))
            && (ok ==> forall n | n in after && IsNodeOf(after[n], cfg, r) :: after[n].expired)
            && (Identifiable(cfg, r) && !f.listFails ==>
                  forall n | n in after && IsNodeOf(after[n], cfg, r) && !after[n].expired ::
                    n in f.expire && f.expire[n].NotExpired?)
            && (Identifiable(cfg, r) && !f.listFails ==>
                  (ok <==> forall n | n in nodes && IsNodeOf(nodes[n], cfg, r) && n in f.expire ::
                               f.expire[n].Expired? || f.expire[n].Vanished?))
  {
    forall n | n in nodes
      ensures ResolveKey(cfg, r).Some? ==> (Owns(ResolveKey(cfg, r).value, nodes[n]) <==> IsNodeOf(nodes[n], cfg, r))
      ensures ResolveKey(cfg, r).None? ==> !IsNodeOf(nodes[n], cfg, r)
    {
      KeyOwnsRecordsNodes(cfg, r, nodes[n]);
    }
    KeyStandsForRecord(cfg, r, Owner("", "", ""));
    hide Owns, IsAccountOf;
  }

  // ── the service ─────────────────────────────────────────────────────────────

  class Service {
    const cfg: Config
    const mapping: Mapping
    const cell: PolicyCell
    var nodes: map<nat, Node>
    var accounts: seq<Account>

    constructor (cfg: Config, mapping: Mapping, cell: PolicyCell, nodes: map<nat, Node>, accounts: seq<Account>)
      ensures this.cfg == cfg && this.mapping == mapping && this.cell == cell
      ensures this.nodes == nodes && this.accounts == accounts
    {
      this.cfg, this.mapping, this.cell, this.nodes, this.accounts := cfg, mapping, cell, nodes, accounts;
    }

    ghost predicate Valid()
      reads this, mapping, cell
    {
      mapping.Valid() && DistinctGroupNames(mapping.Contents()) && ValidText(cell.policy)
    }

    function State(): World
      reads this, mapping, cell
    {
      World(mapping.Contents(), mapping.fs, cell.policy, nodes, accounts)
    }

    /** Renders the mapping and hands it to the policy writer. */
    method Reconcile(f: Faults) returns (ok: bool)
      requires Valid()
      modifies cell
      ensures Valid() && Reconciled(old(State()), cfg, f, State(), ok)
      ensures ok ==> ParsedRoot(cell.policy).Some? && NamesMembers(LiveFields(cell.policy), mapping.Contents(), cfg)
    {
      var groups := Rendering(mapping.Contents(), cfg);
      RenderingDistinct(mapping.Contents(), cfg);
      var wrote;
      ghost var before := State();
      ok, wrote := SetGroupMembership(cell, groups, f.getFails, f.setPolicy);
      hide WantedByScim, NamesMembers;
      if ok {
        ReconcileSyncs(before, cfg, f, State(), ok);
        InSyncNames(State(), cfg);
      }
    }

    /** On success every node of the record's account that is still there is expired; nothing
        else is touched, and nothing at all without an identifier or a list of nodes. */
    method Expire(r: UserRecord, f: Faults) returns (ok: bool)
      modifies this`nodes
      ensures (nodes, ok) == ExpireNodes(old(nodes), cfg, r, f)
      ensures !Identifiable(cfg, r) ==> ok && nodes == old(nodes)
      ensures Identifiable(cfg, r) && f.listFails ==> !ok && nodes == old(nodes)
      ensures OthersUntouched(old(nodes), nodes, cfg, r)
      ensures ok ==> forall n | n in nodes && IsNodeOf(nodes[n], cfg, r) :: nodes[n].expired
    {
      ExpiryExactly(nodes, cfg, r, f);
      match ResolveKey(cfg, r) {
        case None => ok := true;
        case Some(key) =>
          if f.listFails {
            return false;
          }
          var after;
          after, ok := ExpireEach(nodes, key, f.expire);
          nodes := after;
      }
    }

    /** The first half of `put_user`. */
    method ExpireIfDue(before: UserRecord, r: UserRecord, f: Faults) returns (ok: bool)
      modifies this`nodes
      ensures (State(), ok) == ExpiredFirst(old(State()), cfg, before, r, f)
      ensures !r.active && ok ==> forall n | n in nodes && IsNodeOf(nodes[n], cfg, before) :: nodes[n].expired
    {
      ok := true;
      if MustExpire(cfg, before, r) {
        ok := Expire(before, f);
      }
    }

    /** The second half of `put_user`. */
    method StoreThenReconcile(id: ScimId, r: UserRecord, f: Faults) returns (reply: Reply)
      requires Valid()
      modifies mapping, cell
      ensures Valid() && StoredThenReconciled(old(State()), cfg, id, r, f, State(), reply)
    {
      var stored := mapping.SetUser(id, r, f.flush);
      if !stored {
        return Failed;
      }
      if !r.active || InSomeGroup(mapping.Contents(), id) {
        var ok := Reconcile(f);
        return if ok then Updated(id) else Failed;
      }
      return Updated(id);
    }

    /** Nodes are expired under the old identifier before the mapping changes. */
    method PutUser(id: ScimId, b: UserBody, f: Faults) returns (reply: Reply)
      requires Valid()
      modifies this`nodes, mapping, cell
      ensures Valid() && PutUserAttempt(old(State()), cfg, id, b, f, State(), reply)
      ensures b.active == Some(false) && reply.Updated? ==>
                && id in old(mapping.users)
                && forall n | n in nodes && IsNodeOf(nodes[n], cfg, old(mapping.users[id])) :: nodes[n].expired
    {
      if !ValidPut(cfg, b) {
        return BadRequest;
      }
      if id !in mapping.users {
        return NotFound;
      }
      var expired := ExpireIfDue(mapping.users[id], PutRecord(b), f);
      if !expired {
        return Failed;
      }
      reply := StoreThenReconcile(id, PutRecord(b), f);
    }

    method CreateUser(b: UserBody, freshId: ScimId, f: Faults) returns (reply: Reply)
      requires Valid()
      modifies mapping, cell
      ensures Valid() && CreateUserAttempt(old(State()), cfg, b, freshId, f, State(), reply)
    {
      if !ValidCreate(cfg, b) {
        return BadRequest;
      }
      var existing := FirstOf(NamedUsers(mapping.users, b.userName.value));
      var id := if existing.Some? then existing.value else freshId;
      var stored := mapping.SetUser(id, CreateRecord(b), f.flush);
      if !stored {
        return Failed;
      }
      var ok := Reconcile(f);
      reply := if !ok then Failed else if existing.Some? then Updated(id) else Created(id);
    }

    method CreateGroup(b: GroupBody, freshId: GroupId, f: Faults) returns (reply: Reply)
      requires Valid()
      modifies mapping, cell
      ensures Valid() && CreateGroupAttempt(old(State()), cfg, b, freshId, f, State(), reply)
    {
      if !ValidGroup(b) {
        return BadRequest;
      }
      UpsertKeepsNames(mapping.Contents(), GroupFrom(b), freshId);
      var existing := FirstOf(NamedGroups(mapping.groups, b.displayName.value));
      var id := if existing.Some? then existing.value else freshId;
      var stored := mapping.SetGroup(id, GroupFrom(b), f.flush);
      if !stored {
        return Failed;
      }
      var ok := Reconcile(f);
      reply := if !ok then Failed else if existing.Some? then Updated(id) else Created(id);
    }

    method PutGroup(id: GroupId, b: GroupBody, f: Faults) returns (reply: Reply)
      requires Valid()
      modifies mapping, cell
      ensures Valid() && PutGroupAttempt(old(State()), cfg, id, b, f, State(), reply)
    {
      if !ValidGroup(b) {
        return BadRequest;
      }
      if id !in mapping.groups {
        return NotFound;
      }
      if NameTaken(mapping.groups, id, b.displayName.value) {
        return Conflict;
      }
      RenameKeepsNames(mapping.Contents(), id, GroupFrom(b));
      var stored := mapping.SetGroup(id, GroupFrom(b), f.flush);
      if !stored {
        return Failed;
      }
      var ok := Reconcile(f);
      reply := if ok then Updated(id) else Failed;
    }

    /** Deletes the account headscale lists first for the record, if there is one, and no
        other; the rest keep their order. */
    method DeleteHeadscaleUser(r: UserRecord, f: Faults) returns (ok: bool)
      modifies this`accounts
      ensures (accounts, ok) == DeleteAccount(old(accounts), cfg, r, f)
      ensures !Identifiable(cfg, r) ==> ok && accounts == old(accounts)
      ensures Identifiable(cfg, r) && f.listFails ==> !ok && accounts == old(accounts)
      ensures (forall a | a in old(accounts) :: !IsAccountOf(a.owner, cfg, r)) && !f.listFails ==>
                ok && accounts == old(accounts)
      ensures forall i | FirstAccountOf(old(accounts), cfg, r, i) && !f.listFails ::
                && accounts == (if f.deleteAccount.Refused? then old(accounts)
                                else old(accounts)[..i] + old(accounts)[i + 1..])
                && (ok <==> f.deleteAccount.Delivered?)
    {
      DeletionExactly(accounts, cfg, r, f);
      match ResolveKey(cfg, r) {
        case None => return true;
        case Some(key) =>
          if f.listFails {
            return false;
          }
          var i := 0;
          while i < |accounts| && !Matches(accounts[i].owner, key)
            invariant i <= FirstMatch(accounts, key)
          {
            i := i + 1;
          }
          assert i == FirstMatch(accounts, key);
          if i == |accounts| {
            return true;
          }
          if !f.deleteAccount.Refused? {
            accounts := accounts[..i] + accounts[i + 1..];
          }
          ok := f.deleteAccount.Delivered?;
      }
    }

    /** The account is deleted while the record that identifies it is still stored. */
    method DeleteUser(id: ScimId, f: Faults) returns (reply: Reply)
      requires Valid()
      modifies this`accounts, mapping, cell
      ensures Valid() && DeleteUserAttempt(old(State()), cfg, id, f, State(), reply)
    {
      if id !in mapping.users {
        return NotFound;
      }
      var gone := DeleteHeadscaleUser(mapping.users[id], f);
      if !gone {
        return Failed;
      }
      var removed := mapping.RemoveUserAndFromGroups(id, f.flush);
      if !removed {
        return Failed;
      }
      var ok := Reconcile(f);
      reply := if ok then Deleted else Failed;
    }

    method DeleteGroup(id: GroupId, f: Faults) returns (reply: Reply)
      requires Valid()
      modifies mapping, cell
      ensures Valid() && DeleteGroupAttempt(old(State()), cfg, id, f, State(), reply)
    {
      if id !in mapping.groups {
        return NotFound;
      }
      var removed := mapping.RemoveGroup(id, f.flush);
      if !removed {
        return Failed;
      }
      var ok := Reconcile(f);
      reply := if ok then Deleted else Failed;
    }
  }
}
