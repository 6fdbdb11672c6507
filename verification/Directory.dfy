/** User and group records, and how the mapping is rendered into policy groups. */
module Directory {
  import opened Wrappers
  import opened Json
  import opened PolicyMap
  import opened Ordering

  type ScimId = string
  type GroupId = string

  datatype UserRecord = UserRecord(
    active: bool,
    name: string,
    displayName: Option<string>,
    email: Option<string>,
    externalId: Option<string>)

  datatype GroupRecord = GroupRecord(name: string, members: seq<ScimId>, externalId: Option<string>)

  /** The contents of the mapping file. */
  datatype Data = Data(users: map<ScimId, UserRecord>, groups: map<GroupId, GroupRecord>)

  const EMPTY: Data := Data(map[], map[])

  /** Which identifier goes into the policy. */
  datatype UserKey = ByEmail | ByUsername | ByExternalId(issuer: string)

  datatype Config = Config(userKey: UserKey, expireNodesOnChange: bool)

  /** The headscale-side identifier of one record. */
  datatype Resolved = EmailKey(email: string) | NameKey(name: string) | ProviderKey(id: string)

  function ResolveKey(cfg: Config, r: UserRecord): Option<Resolved> {
    match cfg.userKey
    case ByEmail => (match r.email case Some(e) => Some(EmailKey(e)) case None => None)
    case ByUsername => Some(NameKey(r.name))
    case ByExternalId(issuer) =>
      (match r.externalId case Some(x) => Some(ProviderKey(issuer + "/" + x)) case None => None)
  }

  function Token(key: Resolved): string {
    match key
    case EmailKey(e) => e
    case NameKey(n) => n + "@"
    case ProviderKey(p) => p + "@"
  }

  /** The token a member id contributes: none for unknown or inactive users, or without
      the configured identifier. */
  function MemberToken(users: map<ScimId, UserRecord>, cfg: Config, id: ScimId): Option<string> {
    if id !in users || !users[id].active then None
    else match ResolveKey(cfg, users[id])
      case Some(key) => Some(Token(key))
      case None => None
  }

  function TokenList(users: map<ScimId, UserRecord>, cfg: Config, id: ScimId): seq<string> {
    match MemberToken(users, cfg, id) case Some(t) => [t] case None => []
  }

  function MemberTokens(users: map<ScimId, UserRecord>, cfg: Config, members: seq<ScimId>): seq<string> {
    if members == [] then []
    else
      TokenList(users, cfg, members[0]) + MemberTokens(users, cfg, members[1..])
  }

  // ── who is named in the policy, on its own terms ────────────────────────────

  /** The token the record stands for. */
  predicate Identifies(cfg: Config, r: UserRecord, t: string) {
    match cfg.userKey
    case ByEmail => r.email == Some(t)
    case ByUsername => t == r.name + "@"
    case ByExternalId(issuer) => r.externalId.Some? && t == issuer + "/" + r.externalId.value + "@"
  }

  /** The record has the identifier that is configured. */
  predicate Identifiable(cfg: Config, r: UserRecord) {
    match cfg.userKey
    case ByEmail => r.email.Some?
    case ByUsername => true
    case ByExternalId(_) => r.externalId.Some?
  }

  /** The id is a known, active user's with an identifier. */
  ghost function Named(users: map<ScimId, UserRecord>, cfg: Config): ScimId -> bool {
    id => id in users && users[id].active && Identifiable(cfg, users[id])
  }

  ghost function NamedAs(users: map<ScimId, UserRecord>, cfg: Config): (ScimId, Value) -> bool {
    (id: ScimId, v: Value) => id in users && users[id].active && v.VStr? && Identifies(cfg, users[id], v.s)
  }

  lemma {:induction false} TokenExactly(users: map<ScimId, UserRecord>, cfg: Config, id: ScimId)
    ensures MemberToken(users, cfg, id).Some? <==> Named(users, cfg)(id)
    ensures forall t :: MemberToken(users, cfg, id) == Some(t) <==>
                        id in users && users[id].active && Identifies(cfg, users[id], t)
  {
  }

  lemma {:induction false} OneMember(users: map<ScimId, UserRecord>, cfg: Config, id: ScimId)
    ensures var head := Strings(TokenList(users, cfg, id));
            if Named(users, cfg)(id) then |head| == 1 && NamedAs(users, cfg)(id, head[0]) else head == []
  {
    TokenExactly(users, cfg, id);
  }

  lemma {:induction false} StringsConcat(a: seq<string>, b: seq<string>)
    ensures Strings(a + b) == Strings(a) + Strings(b)
  {
  }

  /** A member list is rendered as the tokens of its known, active, identifiable members, in
      order. */
  lemma {:induction false} TokensExactly(users: map<ScimId, UserRecord>, cfg: Config, members: seq<ScimId>)
    ensures Filtered(members, Named(users, cfg), NamedAs(users, cfg), Strings(MemberTokens(users, cfg, members)))
  {
    hide Filtered, Named, NamedAs;
    if members == [] {
      FilteredNone(Named(users, cfg), NamedAs(users, cfg));
    } else {
      var m, rest := members[0], members[1..];
      var head, more := TokenList(users, cfg, m), MemberTokens(users, cfg, rest);
      OneMember(users, cfg, m);
      TokensExactly(users, cfg, rest);
      assert members == [m] + rest;
      assert MemberTokens(users, cfg, members) == head + more;
      hide *;
      StringsConcat(head, more);
      FilteredCons(m, rest, Named(users, cfg), NamedAs(users, cfg), Strings(head), Strings(more));
    }
  }

  /** So a token is there exactly when a member is active and stands for it. */
  lemma {:induction false} TokenIff(users: map<ScimId, UserRecord>, cfg: Config, members: seq<ScimId>, t: string)
    ensures t in MemberTokens(users, cfg, members) <==>
            exists m :: m in members && m in users && users[m].active && Identifies(cfg, users[m], t)
  {
    if members != [] {
      TokenExactly(users, cfg, members[0]);
      TokenIff(users, cfg, members[1..], t);
      assert members == [members[0]] + members[1..];
    }
  }

  /** The groups there are, as the policy names them. */
  function StoredKeys(data: Data): set<string> {
    set g | g in data.groups :: "group:" + data.groups[g].name
  }

  /** The policy names exactly the groups there are, and in each its members. */
  ghost predicate NamesMembers(live: Fields, data: Data, cfg: Config) {
    if data.groups == map[] then "groups" !in live
    else
      && "groups" in live && live["groups"].VObj?
      && live["groups"].members.Keys == StoredKeys(data)
      && (forall g | g in data.groups :: EntryNames(live["groups"].members["group:" + data.groups[g].name],
                                                    data.groups[g].members, data.users, cfg))
  }

  ghost predicate EntryNames(v: Value, members: seq<ScimId>, users: map<ScimId, UserRecord>, cfg: Config) {
    v.VArr? && Filtered(members, Named(users, cfg), NamedAs(users, cfg), v.elems)
  }

  function RenderIds(data: Data, cfg: Config, ids: seq<GroupId>): seq<Group>
    requires forall g | g in ids :: g in data.groups
  {
    if ids == [] then []
    else
      var r := data.groups[ids[0]];
      [Group(r.name, MemberTokens(data.users, cfg, r.members))] + RenderIds(data, cfg, ids[1..])
  }

  /** The groups as reconcile hands them to the policy writer, in id order. */
  function Rendering(data: Data, cfg: Config): seq<Group> {
    RenderIds(data, cfg, SortedKeys(data.groups.Keys))
  }

  predicate DistinctGroupNames(data: Data) {
    forall g, h | g in data.groups && h in data.groups && g != h :: data.groups[g].name != data.groups[h].name
  }

  lemma {:induction false} RenderIdsAt(data: Data, cfg: Config, ids: seq<GroupId>)
    requires forall g | g in ids :: g in data.groups
    ensures |RenderIds(data, cfg, ids)| == |ids|
    ensures forall i | 0 <= i < |ids| ::
              RenderIds(data, cfg, ids)[i] ==
              Group(data.groups[ids[i]].name, MemberTokens(data.users, cfg, data.groups[ids[i]].members))
  {
    if ids != [] {
      RenderIdsAt(data, cfg, ids[1..]);
    }
  }

  /** Distinct group names make distinct rendered names. */
  lemma {:induction false} RenderingDistinct(data: Data, cfg: Config)
    requires DistinctGroupNames(data)
    ensures DistinctNames(Rendering(data, cfg))
  {
    var ids := SortedKeys(data.groups.Keys);
    RenderIdsAt(data, cfg, ids);
    forall i, j | 0 <= i < j < |ids|
      ensures Rendering(data, cfg)[i].name != Rendering(data, cfg)[j].name
    {
      assert ids[i] in data.groups && ids[j] in data.groups;
    }
  }

  predicate InSomeGroup(data: Data, id: ScimId) {
    exists g :: g in data.groups && id in data.groups[g].members
  }

  lemma {:induction false} MemberTokensFrame(a: map<ScimId, UserRecord>, b: map<ScimId, UserRecord>, cfg: Config,
                                             members: seq<ScimId>)
    requires forall m | m in members :: MemberToken(a, cfg, m) == MemberToken(b, cfg, m)
    ensures MemberTokens(a, cfg, members) == MemberTokens(b, cfg, members)
  {
    if members != [] {
      assert members[0] in members;
      MemberTokensFrame(a, b, cfg, members[1..]);
    }
  }

  predicate AgreeExcept(a: map<ScimId, UserRecord>, b: map<ScimId, UserRecord>, id: ScimId) {
    a - {id} == b - {id}
  }

  lemma {:induction false} RenderIdsFrame(a: Data, b: Data, cfg: Config, id: ScimId, ids: seq<GroupId>)
    requires a.groups == b.groups && AgreeExcept(a.users, b.users, id) && !InSomeGroup(a, id)
    requires forall g | g in ids :: g in a.groups
    ensures RenderIds(a, cfg, ids) == RenderIds(b, cfg, ids)
  {
    if ids != [] {
      assert ids[0] in a.groups;
      var members := a.groups[ids[0]].members;
      forall m | m in members
        ensures MemberToken(a.users, cfg, m) == MemberToken(b.users, cfg, m)
      {
        assert m != id;
        assert m in a.users <==> m in a.users - {id};
        assert m in b.users <==> m in b.users - {id};
        if m in a.users {
          assert a.users[m] == (a.users - {id})[m] == (b.users - {id})[m] == b.users[m];
        }
      }
      MemberTokensFrame(a.users, b.users, cfg, members);
      RenderIdsFrame(a, b, cfg, id, ids[1..]);
    }
  }

  /** A user in no group cannot affect the rendering: why put_user may skip the
      reconcile for such a user. */
  lemma {:induction false} RenderingFrame(a: Data, b: Data, cfg: Config, id: ScimId)
    requires a.groups == b.groups && AgreeExcept(a.users, b.users, id) && !InSomeGroup(a, id)
    ensures Rendering(a, cfg) == Rendering(b, cfg)
  {
    RenderIdsFrame(a, b, cfg, id, SortedKeys(a.groups.Keys));
  }

  // ── lookups by name ─────────────────────────────────────────────────────────

  function NamedUsers(users: map<ScimId, UserRecord>, name: string): set<ScimId> {
    set id | id in users && users[id].name == name
  }

  function NamedGroups(groups: map<GroupId, GroupRecord>, name: string): set<GroupId> {
    set id | id in groups && groups[id].name == name
  }

  /** The first record of that name in id order. */
  function FirstOf(ids: set<string>): Option<string> {
    if ids == {} then None else Some(Least(ids))
  }

  // ── what one user contributes ───────────────────────────────────────────────

  /** The `groups` entry a rendering asks for. */
  function Groups(data: Data, cfg: Config): Fields {
    WithGroups(map[], Rendering(data, cfg))
  }

  /** The user is in a group, and has a token there. */
  ghost predicate Contributes(data: Data, cfg: Config, id: ScimId) {
    (exists g :: g in data.groups && id in data.groups[g].members) && Named(data.users, cfg)(id)
  }

  /** Dropping a user from a member list drops their tokens and no others. */
  lemma {:induction false} TokensWithout(users: map<ScimId, UserRecord>, cfg: Config, members: seq<ScimId>, id: ScimId)
    ensures var left := MemberTokens(users - {id}, cfg, Retain(members, id));
            && left == MemberTokens(users, cfg, Retain(members, id))
            && |left| <= |MemberTokens(users, cfg, members)|
            && (id !in members || !Named(users, cfg)(id) ==> left == MemberTokens(users, cfg, members))
            && (id in members && Named(users, cfg)(id) ==> |left| < |MemberTokens(users, cfg, members)|)
  {
    TokenExactly(users, cfg, id);
    hide Named;
    if members != [] {
      TokensWithout(users, cfg, members[1..], id);
      assert members == [members[0]] + members[1..];
      if members[0] != id {
        assert Retain(members, id)[1..] == Retain(members[1..], id);
        assert MemberToken(users - {id}, cfg, members[0]) == MemberToken(users, cfg, members[0]);
      }
    }
  }

  lemma {:induction false} RenderIdsFrom(data: Data, cfg: Config, ids: seq<GroupId>, r: Group) returns (g: GroupId)
    requires (forall id | id in ids :: id in data.groups) && r in RenderIds(data, cfg, ids)
    ensures g in data.groups && data.groups[g].name == r.name
  {
    g := ids[0];
    assert g in ids;
    if data.groups[g].name != r.name {
      assert r in RenderIds(data, cfg, ids[1..]);
      g := RenderIdsFrom(data, cfg, ids[1..], r);
    }
  }

  /** Every policy group comes from a stored group. */
  lemma {:induction false} RenderedFrom(data: Data, cfg: Config, key: string) returns (g: GroupId)
    requires key in GroupKeys(Rendering(data, cfg))
    ensures g in data.groups && GroupKey(data.groups[g].name) == key
  {
    var r :| r in Rendering(data, cfg) && GroupKey(r.name) == key;
    g := RenderIdsFrom(data, cfg, SortedKeys(data.groups.Keys), r);
  }

  /** A stored group is rendered under its name, with its members' tokens. */
  lemma {:induction false} GroupIsRendered(data: Data, cfg: Config, g: GroupId)
    requires DistinctGroupNames(data) && g in data.groups
    ensures Rendering(data, cfg) != []
    ensures GroupKey(data.groups[g].name) in GroupsObject(Rendering(data, cfg))
    ensures GroupsObject(Rendering(data, cfg))[GroupKey(data.groups[g].name)]
         == VArr(Strings(MemberTokens(data.users, cfg, data.groups[g].members)))
  {
    var ids := SortedKeys(data.groups.Keys);
    RenderIdsAt(data, cfg, ids);
    RenderingDistinct(data, cfg);
    var i :| 0 <= i < |ids| && ids[i] == g;
    GroupsObjectAt(Rendering(data, cfg), i);
  }

  /** The rendering names exactly the groups there are, and in each its members. */
  lemma {:induction false} RenderingNames(data: Data, cfg: Config)
    requires DistinctGroupNames(data)
    ensures NamesMembers(Groups(data, cfg), data, cfg)
  {
    hide EntryNames;
    RenderingEmpty(data, cfg);
    RenderingKeys(data, cfg);
    forall g | g in data.groups
      ensures data.groups != map[]
      ensures "group:" + data.groups[g].name in GroupsObject(Rendering(data, cfg))
      ensures EntryNames(GroupsObject(Rendering(data, cfg))["group:" + data.groups[g].name], data.groups[g].members,
                         data.users, cfg)
    {
      GroupEntryNames(data, cfg, g);
    }
  }

  lemma {:induction false} GroupEntryNames(data: Data, cfg: Config, g: GroupId)
    requires DistinctGroupNames(data) && g in data.groups
    ensures "group:" + data.groups[g].name in GroupsObject(Rendering(data, cfg))
    ensures EntryNames(GroupsObject(Rendering(data, cfg))["group:" + data.groups[g].name], data.groups[g].members,
                       data.users, cfg)
  {
    GroupIsRendered(data, cfg, g);
    TokensExactly(data.users, cfg, data.groups[g].members);
  }

  lemma {:induction false} KeyIsRendered(data: Data, cfg: Config, g: GroupId)
    requires g in data.groups
    ensures "group:" + data.groups[g].name in GroupKeys(Rendering(data, cfg))
  {
    var ids := SortedKeys(data.groups.Keys);
    RenderIdsAt(data, cfg, ids);
    var i :| 0 <= i < |ids| && ids[i] == g;
    assert Rendering(data, cfg)[i] in Rendering(data, cfg);
  }

  lemma {:induction false} RenderingEmpty(data: Data, cfg: Config)
    ensures Rendering(data, cfg) == [] <==> data.groups == map[]
  {
    RenderIdsAt(data, cfg, SortedKeys(data.groups.Keys));
    assert data.groups == map[] <==> data.groups.Keys == {};
  }

  lemma {:induction false} RenderedIsStored(data: Data, cfg: Config, key: string)
    requires key in GroupKeys(Rendering(data, cfg))
    ensures key in StoredKeys(data)
  {
    var g := RenderedFrom(data, cfg, key);
  }

  lemma {:induction false} StoredIsRendered(data: Data, cfg: Config, key: string)
    requires key in StoredKeys(data)
    ensures key in GroupKeys(Rendering(data, cfg))
  {
    var g :| g in data.groups && key == "group:" + data.groups[g].name;
    KeyIsRendered(data, cfg, g);
  }

  lemma {:induction false} RenderingKeys(data: Data, cfg: Config)
    ensures GroupsObject(Rendering(data, cfg)).Keys == StoredKeys(data)
  {
    hide *;
    GroupsObjectKeys(Rendering(data, cfg));
    forall key | key in GroupKeys(Rendering(data, cfg))
      ensures key in StoredKeys(data)
    {
      RenderedIsStored(data, cfg, key);
    }
    forall key | key in StoredKeys(data)
      ensures key in GroupKeys(Rendering(data, cfg))
    {
      StoredIsRendered(data, cfg, key);
    }
  }
}
