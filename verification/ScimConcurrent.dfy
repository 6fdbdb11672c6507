/** Any number of SCIM handlers interleaving.

    The mapping lock is held across one locked section (check, update, flush), so each is
    one step here.  A reconcile is four steps: snapshot the rendering, take the policy
    lock, fetch the policy, and finish by writing or skipping; anything may happen in
    between. */
module ScimConcurrent {
  import opened Wrappers
  import opened PolicyMap
  import opened PolicyEditing
  import opened Remote
  import opened ScimPolicy
  import opened Directory
  import opened CrashFs
  import opened ScimService
  import Convergence

  type Handler = nat

  /** How far a handler's reconcile has got.  `source` is the number of the mapping state
      the snapshot was rendered from. */
  datatype Phase =
    | Idle
    | Snapped(groups: seq<Group>, source: nat)
    | Holding(groups: seq<Group>, source: nat)
    | Fetched(groups: seq<Group>, source: nat, live: PolicyText)

  /** One SetPolicy that took effect. */
  datatype Write = Write(groups: seq<Group>, source: nat, before: Fields, after: Fields)

  /** `past` lists every state the mapping has been in, the current one last. */
  datatype State = State(
    past: seq<Data>,
    policy: PolicyText,
    lock: Option<Handler>,
    phases: map<Handler, Phase>,
    writes: seq<Write>)

  /** One locked section of a handler. */
  datatype Change =
    | PutUserRecord(id: ScimId, user: UserRecord)
    | UpsertGroup(freshId: GroupId, group: GroupRecord)
    | RenameGroup(id: GroupId, group: GroupRecord)
    | RemoveGroupRecord(id: GroupId)
    | RemoveUserEverywhere(id: ScimId)

  function Apply(data: Data, c: Change): Data {
    match c
    case PutUserRecord(id, u) => Data(data.users[id := u], data.groups)
    case UpsertGroup(freshId, g) =>
      var existing := FirstOf(NamedGroups(data.groups, g.name));
      Data(data.users, data.groups[(if existing.Some? then existing.value else freshId) := g])
    case RenameGroup(id, g) =>
      if id !in data.groups || NameTaken(data.groups, id, g.name) then data
      else Data(data.users, data.groups[id := g])
    case RemoveGroupRecord(id) => WithoutGroup(data, id)
    case RemoveUserEverywhere(id) => WithoutUser(data, id)
  }

  // ── the handlers' locked sections are these changes ─────────────────────────

  lemma {:induction false} PutUserLocks(w: World, cfg: Config, id: ScimId, b: UserBody, f: Faults, w': World,
                                        reply: Reply)
    requires Sound(w.fs) && PutUserAttempt(w, cfg, id, b, f, w', reply)
    ensures w'.data == w.data ||
            (ValidPut(cfg, b) && w'.data == Apply(w.data, PutUserRecord(id, PutRecord(b))))
  {
  }

  lemma {:induction false} CreateUserLocks(w: World, cfg: Config, b: UserBody, freshId: ScimId, f: Faults, w': World,
                                           reply: Reply)
    requires Sound(w.fs) && CreateUserAttempt(w, cfg, b, freshId, f, w', reply)
    ensures w'.data == w.data ||
            (ValidCreate(cfg, b) && exists id :: w'.data == Apply(w.data, PutUserRecord(id, CreateRecord(b))))
  {
    if ValidCreate(cfg, b) {
      var existing := FirstOf(NamedUsers(w.data.users, b.userName.value));
      var id := if existing.Some? then existing.value else freshId;
      assert w'.data == Apply(w.data, PutUserRecord(id, CreateRecord(b)));
    }
  }

  lemma {:induction false} CreateGroupLocks(w: World, cfg: Config, b: GroupBody, freshId: GroupId, f: Faults,
                                            w': World, reply: Reply)
    requires Sound(w.fs) && CreateGroupAttempt(w, cfg, b, freshId, f, w', reply)
    ensures if ValidGroup(b) then w'.data == Apply(w.data, UpsertGroup(freshId, GroupFrom(b))) else w'.data == w.data
  {
  }

  lemma {:induction false} PutGroupLocks(w: World, cfg: Config, id: GroupId, b: GroupBody, f: Faults, w': World,
                                         reply: Reply)
    requires Sound(w.fs) && PutGroupAttempt(w, cfg, id, b, f, w', reply)
    ensures if ValidGroup(b) then w'.data == Apply(w.data, RenameGroup(id, GroupFrom(b))) else w'.data == w.data
  {
  }

  lemma {:induction false} DeleteUserLocks(w: World, cfg: Config, id: ScimId, f: Faults, w': World, reply: Reply)
    requires Sound(w.fs) && DeleteUserAttempt(w, cfg, id, f, w', reply)
    ensures w'.data == w.data || w'.data == Apply(w.data, RemoveUserEverywhere(id))
  {
    if id in w.data.users {
      var (accounts, gone) := DeleteAccount(w.accounts, cfg, w.data.users[id], f);
      if gone {
        RemovedData(w.(accounts := accounts), cfg, WithoutUser(w.data, id), f, w', reply);
      }
    }
  }

  lemma {:induction false} DeleteGroupLocks(w: World, cfg: Config, id: GroupId, f: Faults, w': World, reply: Reply)
    requires Sound(w.fs) && DeleteGroupAttempt(w, cfg, id, f, w', reply)
    ensures w'.data == w.data || w'.data == Apply(w.data, RemoveGroupRecord(id))
  {
    if id in w.data.groups {
      RemovedData(w, cfg, WithoutGroup(w.data, id), f, w', reply);
    }
  }

  datatype Action =
    | Locked(change: Change)
    | Snapshot(h: Handler)
    | Acquire(h: Handler)
    | Fetch(h: Handler, fails: bool)
    | Finish(h: Handler, rpc: Rpc)

  function Current(s: State): Data
    requires s.past != []
  {
    s.past[|s.past| - 1]
  }

  function PhaseOf(s: State, h: Handler): Phase {
    if h in s.phases then s.phases[h] else Idle
  }

  ghost predicate Finishes(s: State, h: Handler, rpc: Rpc, s': State)
    requires PhaseOf(s, h).Fetched?
  {
    var p := PhaseOf(s, h);
    && s'.past == s.past && s'.lock == None && s'.phases == s.phases[h := Idle]
    && (if !MustWrite(p.live, p.groups) || rpc.Refused? then s'.policy == s.policy && s'.writes == s.writes
        else
          && Written(p.live, p.groups, s'.policy)
          && s'.writes == s.writes + [Write(p.groups, p.source, LiveFields(p.live), LiveFields(s'.policy))])
  }

  ghost predicate Step(s: State, a: Action, s': State, cfg: Config)
    requires s.past != []
  {
    match a
    case Locked(c) => s' == s.(past := s.past + [Apply(Current(s), c)])
    case Snapshot(h) =>
      && PhaseOf(s, h).Idle?
      && s' == s.(phases := s.phases[h := Snapped(Rendering(Current(s), cfg), |s.past| - 1)])
    case Acquire(h) =>
      && PhaseOf(s, h).Snapped? && s.lock == None
      && (var p := PhaseOf(s, h);
          s' == s.(lock := Some(h), phases := s.phases[h := Holding(p.groups, p.source)]))
    case Fetch(h, fails) =>
      && PhaseOf(s, h).Holding?
      && (var p := PhaseOf(s, h);
          if fails then s' == s.(lock := None, phases := s.phases[h := Idle])
          else s' == s.(phases := s.phases[h := Fetched(p.groups, p.source, s.policy)]))
    case Finish(h, rpc) => PhaseOf(s, h).Fetched? && Finishes(s, h, rpc, s')
  }

  // ── the invariant ───────────────────────────────────────────────────────────

  ghost predicate Rendered(s: State, groups: seq<Group>, source: nat, cfg: Config) {
    source < |s.past| && groups == Rendering(s.past[source], cfg)
  }

  ghost predicate GoodPhase(s: State, h: Handler, p: Phase, cfg: Config) {
    match p
    case Idle => true
    case Snapped(g, i) => Rendered(s, g, i, cfg)
    case Holding(g, i) => Rendered(s, g, i, cfg) && s.lock == Some(h)
    case Fetched(g, i, live) => Rendered(s, g, i, cfg) && s.lock == Some(h) && live == s.policy
  }

  /** Every write starts from what the write before it left. */
  ghost predicate Chained(start: PolicyText, writes: seq<Write>, now: PolicyText) {
    && (writes == [] ==> now == start)
    && (writes != [] ==>
          && ParsedRoot(start).Some? && writes[0].before == LiveFields(start)
          && ParsedRoot(now).Some? && writes[|writes| - 1].after == LiveFields(now))
    && (forall i | 0 < i < |writes| :: writes[i].before == writes[i - 1].after)
  }

  ghost predicate GoodWrite(s: State, w: Write, cfg: Config) {
    && Rendered(s, w.groups, w.source, cfg)
    && DistinctNames(w.groups)
    && w.after == ScimDesired(w.before, w.groups)
  }

  ghost predicate PhasesGood(s: State, cfg: Config) {
    forall h | h in s.phases :: GoodPhase(s, h, s.phases[h], cfg)
  }

  ghost predicate WritesGood(s: State, cfg: Config) {
    forall w | w in s.writes :: GoodWrite(s, w, cfg)
  }

  ghost predicate Inv(s: State, start: PolicyText, cfg: Config) {
    && s.past != []
    && (forall d | d in s.past :: DistinctGroupNames(d))
    && ValidText(s.policy)
    && PhasesGood(s, cfg)
    && WritesGood(s, cfg)
    && Chained(start, s.writes, s.policy)
  }

  /** Every locked section keeps group names distinct. */
  lemma {:induction false} ApplyKeepsNames(data: Data, c: Change)
    requires DistinctGroupNames(data)
    ensures DistinctGroupNames(Apply(data, c))
  {
    match c
    case UpsertGroup(freshId, g) => UpsertKeepsNames(data, g, freshId);
    case RenameGroup(id, g) =>
      if id in data.groups && !NameTaken(data.groups, id, g.name) {
        RenameKeepsNames(data, id, g);
      }
    case _ =>
  }

  lemma {:induction false} RenderedLater(s: State, s': State, groups: seq<Group>, source: nat, cfg: Config)
    requires s.past <= s'.past && Rendered(s, groups, source, cfg)
    ensures Rendered(s', groups, source, cfg)
  {
    assert s'.past[source] == s.past[source];
  }

  lemma {:induction false} WritesFrame(s: State, s': State, cfg: Config)
    requires WritesGood(s, cfg) && s.past <= s'.past && s'.writes == s.writes
    ensures WritesGood(s', cfg)
  {
    forall w | w in s'.writes
      ensures GoodWrite(s', w, cfg)
    {
      assert GoodWrite(s, w, cfg);
      RenderedLater(s, s', w.groups, w.source, cfg);
    }
  }

  /** Another handler's phase is unaffected by one that moves, because only the holder of
      the policy lock changes the lock or the policy. */
  lemma {:induction false} PhasesFrame(s: State, s': State, h: Handler, p: Phase, cfg: Config)
    requires PhasesGood(s, cfg) && s'.past == s.past && s'.phases == s.phases[h := p]
    requires GoodPhase(s', h, p, cfg)
    requires (s'.lock == s.lock && s'.policy == s.policy) || s.lock == None || s.lock == Some(h)
    ensures PhasesGood(s', cfg)
  {
    forall k | k in s'.phases
      ensures GoodPhase(s', k, s'.phases[k], cfg)
    {
      if k != h {
        assert GoodPhase(s, k, s.phases[k], cfg);
      }
    }
  }

  lemma {:induction false} PhaseGood(s: State, h: Handler, cfg: Config)
    requires PhasesGood(s, cfg)
    ensures GoodPhase(s, h, PhaseOf(s, h), cfg)
  {
  }

  lemma {:induction false} LockedKeepsInv(s: State, c: Change, start: PolicyText, cfg: Config)
    requires Inv(s, start, cfg)
    ensures Inv(s.(past := s.past + [Apply(Current(s), c)]), start, cfg)
  {
    var s' := s.(past := s.past + [Apply(Current(s), c)]);
    assert Current(s) in s.past;
    ApplyKeepsNames(Current(s), c);
    WritesFrame(s, s', cfg);
    forall k | k in s'.phases
      ensures GoodPhase(s', k, s'.phases[k], cfg)
    {
      PhaseGood(s, k, cfg);
      if !PhaseOf(s, k).Idle? {
        RenderedLater(s, s', PhaseOf(s, k).groups, PhaseOf(s, k).source, cfg);
      }
    }
  }

  lemma {:induction false} AppendedWriteGood(s: State, s': State, w: Write, cfg: Config)
    requires WritesGood(s, cfg) && s.past == s'.past && s'.writes == s.writes + [w] && GoodWrite(s, w, cfg)
    ensures WritesGood(s', cfg)
  {
    forall v | v in s'.writes
      ensures GoodWrite(s', v, cfg)
    {
      assert v in s.writes ==> GoodWrite(s, v, cfg);
    }
  }

  lemma {:induction false} AppendedWriteChained(start: PolicyText, writes: seq<Write>, now: PolicyText, w: Write,
                                                next: PolicyText)
    requires Chained(start, writes, now)
    requires ParsedRoot(now).Some? && w.before == LiveFields(now)
    requires ParsedRoot(next).Some? && w.after == LiveFields(next)
    ensures Chained(start, writes + [w], next)
  {
    var all := writes + [w];
    forall i | 0 < i < |all|
      ensures all[i].before == all[i - 1].after
    {
      assert i < |writes| ==> writes[i].before == writes[i - 1].after;
    }
  }

  lemma {:induction false} FinishKeepsInv(s: State, h: Handler, rpc: Rpc, s': State, start: PolicyText, cfg: Config)
    requires Inv(s, start, cfg) && PhaseOf(s, h).Fetched? && Finishes(s, h, rpc, s')
    ensures Inv(s', start, cfg)
  {
    var p := PhaseOf(s, h);
    PhaseGood(s, h, cfg);
    PhasesFrame(s, s', h, Idle, cfg);
    if s'.policy == s.policy && s'.writes == s.writes {
      WritesFrame(s, s', cfg);
    } else {
      var w := Write(p.groups, p.source, LiveFields(p.live), LiveFields(s'.policy));
      assert s.past[p.source] in s.past;
      RenderingDistinct(s.past[p.source], cfg);
      AppendedWriteGood(s, s', w, cfg);
      AppendedWriteChained(start, s.writes, s.policy, w, s'.policy);
    }
  }

  /** A step that moves only one handler along, and perhaps the lock. */
  lemma {:induction false} MoveKeepsInv(s: State, s': State, h: Handler, p: Phase, start: PolicyText, cfg: Config)
    requires Inv(s, start, cfg)
    requires s' == s.(lock := s'.lock, phases := s.phases[h := p])
    requires GoodPhase(s', h, p, cfg)
    requires s'.lock == s.lock || s.lock == None || s.lock == Some(h)
    ensures Inv(s', start, cfg)
  {
    WritesFrame(s, s', cfg);
    PhasesFrame(s, s', h, p, cfg);
  }

  lemma {:induction false} SnapshotKeepsInv(s: State, h: Handler, s': State, start: PolicyText, cfg: Config)
    requires Inv(s, start, cfg) && Step(s, Snapshot(h), s', cfg)
    ensures Inv(s', start, cfg)
  {
    MoveKeepsInv(s, s', h, s'.phases[h], start, cfg);
  }

  lemma {:induction false} AcquireKeepsInv(s: State, h: Handler, s': State, start: PolicyText, cfg: Config)
    requires Inv(s, start, cfg) && Step(s, Acquire(h), s', cfg)
    ensures Inv(s', start, cfg)
  {
    PhaseGood(s, h, cfg);
    MoveKeepsInv(s, s', h, s'.phases[h], start, cfg);
  }

  lemma {:induction false} FetchKeepsInv(s: State, h: Handler, fails: bool, s': State, start: PolicyText, cfg: Config)
    requires Inv(s, start, cfg) && Step(s, Fetch(h, fails), s', cfg)
    ensures Inv(s', start, cfg)
  {
    PhaseGood(s, h, cfg);
    MoveKeepsInv(s, s', h, s'.phases[h], start, cfg);
  }

  lemma {:induction false} StepKeepsInv(s: State, a: Action, s': State, start: PolicyText, cfg: Config)
    requires Inv(s, start, cfg) && Step(s, a, s', cfg)
    ensures Inv(s', start, cfg)
  {
    match a
    case Locked(c) => LockedKeepsInv(s, c, start, cfg);
    case Snapshot(h) => SnapshotKeepsInv(s, h, s', start, cfg);
    case Acquire(h) => AcquireKeepsInv(s, h, s', start, cfg);
    case Fetch(h, fails) => FetchKeepsInv(s, h, fails, s', start, cfg);
    case Finish(h, rpc) => FinishKeepsInv(s, h, rpc, s', start, cfg);
  }

  ghost predicate Initial(s: State) {
    && |s.past| == 1 && DistinctGroupNames(s.past[0])
    && ValidText(s.policy) && s.lock == None && s.phases == map[] && s.writes == []
  }

  ghost predicate Execution(ss: seq<State>, acts: seq<Action>, cfg: Config) {
    && |ss| == |acts| + 1 && Initial(ss[0])
    && (forall i | 0 <= i < |acts| :: ss[i].past != [] && Step(ss[i], acts[i], ss[i + 1], cfg))
  }

  lemma {:induction false} InitialInv(s: State, cfg: Config)
    requires Initial(s)
    ensures Inv(s, s.policy, cfg)
  {
    assert forall d | d in s.past :: d == s.past[0];
  }

  /** In every interleaving: group names are distinct in every mapping state; every
      SetPolicy carries the rendering of a mapping state that existed; and the writes
      form one serial history, each starting from what the previous one left, so none
      loses another. */
  lemma {:induction false} EveryInterleaving(ss: seq<State>, acts: seq<Action>, i: nat, cfg: Config)
    requires Execution(ss, acts, cfg) && i <= |acts|
    ensures Inv(ss[i], ss[0].policy, cfg)
  {
    hide Inv, Step, Initial;
    if i == 0 {
      InitialInv(ss[0], cfg);
    } else {
      EveryInterleaving(ss, acts, i - 1, cfg);
      StepKeepsInv(ss[i - 1], acts[i - 1], ss[i], ss[0].policy, cfg);
    }
  }

  // ── what one reconcile leaves behind ────────────────────────────────────────

  ghost predicate PolicyShows(policy: PolicyText, data: Data, cfg: Config) {
    ParsedRoot(policy).Some? && Convergence.SameGroups(LiveFields(policy), Groups(data, cfg))
  }

  /** A finish that is not refused leaves the policy SCIM wants, written or found. */
  lemma {:induction false} FinishShows(s: State, h: Handler, rpc: Rpc, s': State)
    requires PhaseOf(s, h).Fetched? && Finishes(s, h, rpc, s') && PhaseOf(s, h).live == s.policy
    requires ParsedRoot(s.policy).Some? && !rpc.Refused?
    ensures s'.past == s.past && ParsedRoot(s'.policy).Some?
    ensures Convergence.SameGroups(LiveFields(s'.policy), WithGroups(map[], PhaseOf(s, h).groups))
  {
    Convergence.ScimResult(LiveFields(s.policy), PhaseOf(s, h).groups);
  }

  /** The handler holds what the mapping state with its number renders, and the policy as it
      is. */
  ghost predicate HoldsRendering(s: State, h: Handler, data: Data, cfg: Config) {
    PhaseOf(s, h).Fetched? && PhaseOf(s, h).live == s.policy && PhaseOf(s, h).groups == Rendering(data, cfg)
  }

  lemma {:induction false} FetchedIsRendered(s: State, h: Handler, start: PolicyText, cfg: Config)
    requires Inv(s, start, cfg) && PhaseOf(s, h).Fetched?
    ensures PhaseOf(s, h).source < |s.past|
    ensures HoldsRendering(s, h, s.past[PhaseOf(s, h).source], cfg)
  {
    PhaseGood(s, h, cfg);
  }

  /** The policy shows this mapping state, and any other one exactly when both render alike. */
  ghost predicate ShowsExactly(policy: PolicyText, data: Data, now: Data, cfg: Config) {
    && PolicyShows(policy, data, cfg)
    && (PolicyShows(policy, now, cfg) <==> Convergence.SameGroups(Groups(data, cfg), Groups(now, cfg)))
  }

  lemma {:induction false} FinishShowsData(s: State, h: Handler, rpc: Rpc, s': State, data: Data, now: Data,
                                           cfg: Config)
    requires HoldsRendering(s, h, data, cfg) && Finishes(s, h, rpc, s') && ParsedRoot(s.policy).Some? && !rpc.Refused?
    ensures s'.past == s.past && ShowsExactly(s'.policy, data, now, cfg)
  {
    FinishShows(s, h, rpc, s');
    SameGroupsEither(LiveFields(s'.policy), Groups(data, cfg), Groups(now, cfg));
  }

  /** A reconcile that is not refused leaves the rendering of its snapshot; the policy
      then shows the current mapping exactly when the two render alike, as they do when
      nothing changed in between. */
  lemma {:induction false} FinishShowsSnapshot(s: State, h: Handler, rpc: Rpc, s': State, start: PolicyText,
                                               cfg: Config)
    requires Inv(s, start, cfg) && PhaseOf(s, h).Fetched? && Finishes(s, h, rpc, s')
    requires ParsedRoot(PhaseOf(s, h).live).Some? && !rpc.Refused?
    ensures PhaseOf(s, h).source < |s.past| && s'.past == s.past
    ensures ShowsExactly(s'.policy, s.past[PhaseOf(s, h).source], Current(s'), cfg)
  {
    FetchedIsRendered(s, h, start, cfg);
    FinishShowsData(s, h, rpc, s', s.past[PhaseOf(s, h).source], Current(s), cfg);
  }

  lemma {:induction false} SameGroupsEither(a: Fields, b: Fields, c: Fields)
    requires Convergence.SameGroups(a, b)
    ensures Convergence.SameGroups(a, c) <==> Convergence.SameGroups(b, c)
  {
  }

  lemma {:induction false} AfterSnapshot(s: State, h: Handler, s': State, cfg: Config)
    requires s.past != [] && Step(s, Snapshot(h), s', cfg)
    ensures PhaseOf(s', h) == Snapped(Rendering(Current(s), cfg), |s.past| - 1)
    ensures s'.past == s.past && s'.policy == s.policy
  {
  }

  lemma {:induction false} AfterAcquire(s: State, h: Handler, s': State, cfg: Config)
    requires s.past != [] && Step(s, Acquire(h), s', cfg)
    ensures PhaseOf(s, h).Snapped? && PhaseOf(s', h) == Holding(PhaseOf(s, h).groups, PhaseOf(s, h).source)
    ensures s'.past == s.past && s'.policy == s.policy
  {
  }

  lemma {:induction false} AfterFetch(s: State, h: Handler, s': State, cfg: Config)
    requires s.past != [] && Step(s, Fetch(h, false), s', cfg)
    ensures PhaseOf(s, h).Holding? && PhaseOf(s', h) == Fetched(PhaseOf(s, h).groups, PhaseOf(s, h).source, s.policy)
    ensures s'.past == s.past && s'.policy == s.policy
  {
  }

  ghost predicate FourSteps(s0: State, s1: State, s2: State, s3: State, s4: State, h: Handler, rpc: Rpc, cfg: Config) {
    && s0.past != [] && Step(s0, Snapshot(h), s1, cfg)
    && s1.past != [] && Step(s1, Acquire(h), s2, cfg)
    && s2.past != [] && Step(s2, Fetch(h, false), s3, cfg)
    && s3.past != [] && Step(s3, Finish(h, rpc), s4, cfg)
  }

  /** Snapshot, lock and fetch with nothing in between. */
  lemma {:induction false} AfterThreeSteps(s0: State, s1: State, s2: State, s3: State, s4: State, h: Handler, rpc: Rpc,
                                           cfg: Config)
    requires FourSteps(s0, s1, s2, s3, s4, h, rpc, cfg)
    ensures PhaseOf(s3, h) == Fetched(Rendering(Current(s0), cfg), |s0.past| - 1, s0.policy)
    ensures s3.past == s0.past && s3.policy == s0.policy
  {
    AfterSnapshot(s0, h, s1, cfg);
    AfterAcquire(s1, h, s2, cfg);
    AfterFetch(s2, h, s3, cfg);
  }

  lemma {:induction false} AfterFinish(s: State, h: Handler, rpc: Rpc, s': State, cfg: Config)
    requires s.past != [] && Step(s, Finish(h, rpc), s', cfg)
    ensures PhaseOf(s, h).Fetched? && Finishes(s, h, rpc, s')
  {
  }

  /** What a finish makes of the policy it fetched. */
  lemma {:induction false} FinishOutcome(s: State, h: Handler, rpc: Rpc, s': State, groups: seq<Group>)
    returns (ok: bool)
    requires PhaseOf(s, h).Fetched? && PhaseOf(s, h).live == s.policy && PhaseOf(s, h).groups == groups
    requires Finishes(s, h, rpc, s')
    ensures s'.past == s.past && ScimOutcome(s.policy, groups, false, rpc, s'.policy, ok)
    ensures ValidText(s.policy) ==> ValidText(s'.policy)
  {
    ok := ParsedRoot(s.policy).Some? && (MustWrite(s.policy, groups) ==> rpc.Delivered?);
  }

  lemma {:induction false} OutcomeReconciles(w: World, cfg: Config, f: Faults, after: PolicyText, ok: bool)
    requires ValidText(w.policy) && ValidText(after)
    requires ScimOutcome(w.policy, Rendering(w.data, cfg), f.getFails, f.setPolicy, after, ok)
    ensures Reconciled(w, cfg, f, w.(policy := after), ok)
  {
    assert w.(policy := after).policy == after;
  }

  /** The four steps of a reconcile with nothing in between, the fetch working, are the
      reconcile of the sequential handlers. */
  lemma {:induction false} FourStepsReconcile(w: World, cfg: Config, h: Handler, f: Faults, s0: State, s1: State,
                                              s2: State, s3: State, s4: State) returns (ok: bool)
    requires FourSteps(s0, s1, s2, s3, s4, h, f.setPolicy, cfg) && !f.getFails
    requires Current(s0) == w.data && s0.policy == w.policy && ValidText(w.policy)
    ensures s4.past != [] && Current(s4) == w.data
    ensures Reconciled(w, cfg, f, w.(policy := s4.policy), ok)
  {
    hide Reconciled, ScimOutcome, Step, ValidText, Rendering, Finishes;
    AfterThreeSteps(s0, s1, s2, s3, s4, h, f.setPolicy, cfg);
    AfterFinish(s3, h, f.setPolicy, s4, cfg);
    ok := FinishOutcome(s3, h, f.setPolicy, s4, Rendering(w.data, cfg));
    OutcomeReconciles(w, cfg, f, s4.policy, ok);
  }

  /** A handler that is idle can run the four steps through whenever the policy lock is free. */
  lemma {:induction false} ReconcileCanRun(s: State, h: Handler, cfg: Config)
    returns (s1: State, s2: State, s3: State, s4: State)
    requires s.past != [] && PhaseOf(s, h).Idle? && s.lock == None
    ensures FourSteps(s, s1, s2, s3, s4, h, Refused, cfg) && s4.lock == None && PhaseOf(s4, h).Idle?
  {
    var groups, source := Rendering(Current(s), cfg), |s.past| - 1;
    s1 := s.(phases := s.phases[h := Snapped(groups, source)]);
    s2 := s1.(lock := Some(h), phases := s1.phases[h := Holding(groups, source)]);
    s3 := s2.(phases := s2.phases[h := Fetched(groups, source, s.policy)]);
    s4 := s3.(lock := None, phases := s3.phases[h := Idle]);
  }
}
