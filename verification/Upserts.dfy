/** `create_user` is an upsert by name: retrying it makes no second record. */
module Upserts {
  import opened Wrappers
  import opened Directory
  import opened CrashFs
  import opened Storage
  import opened ScimService
  import opened Retry

  /** An attempt, with the id that a new record would get, or a restart. */
  datatype CreateEvent = CreateAttempt(faults: Faults, freshId: ScimId, reply: Reply) | ReadAgain

  ghost predicate CreateStep(w: World, e: CreateEvent, w': World, cfg: Config, b: UserBody) {
    Sound(w.fs) &&
    match e
    case CreateAttempt(f, freshId, reply) => CreateUserAttempt(w, cfg, b, freshId, f, w', reply)
    case ReadAgain => Restart(w.fs, w'.fs, w'.data, EMPTY)
  }

  ghost predicate CreateStepAt(ws: seq<World>, es: seq<CreateEvent>, i: nat, cfg: Config, b: UserBody)
    requires i < |es| && |ws| == |es| + 1
  {
    CreateStep(ws[i], es[i], ws[i + 1], cfg, b)
  }

  ghost predicate CreateRun(ws: seq<World>, es: seq<CreateEvent>, cfg: Config, b: UserBody) {
    && |ws| == |es| + 1
    && (forall i | 0 <= i < |es| :: CreateStepAt(ws, es, i, cfg, b))
  }

  /** The records of that name are those there were at the start, or at most one if there
      were none. */
  predicate NoSecond(data: Data, name: string, start: set<ScimId>) {
    if start != {} then NamedUsers(data.users, name) == start else |NamedUsers(data.users, name)| <= 1
  }

  ghost predicate NowhereSecond(w: World, name: string, start: set<ScimId>) {
    && Sound(w.fs)
    && NoSecond(w.data, name, start)
    && (forall v | v in Versions(w.fs, EMPTY) :: NoSecond(v, name, start))
  }

  function UpsertId(data: Data, name: string, freshId: ScimId): ScimId {
    var existing := FirstOf(NamedUsers(data.users, name));
    if existing.Some? then existing.value else freshId
  }

  lemma {:induction false} UpsertMakesNoSecond(data: Data, r: UserRecord, freshId: ScimId, start: set<ScimId>)
    requires NoSecond(data, r.name, start)
    ensures var id := UpsertId(data, r.name, freshId);
            NoSecond(Data(data.users[id := r], data.groups), r.name, start)
  {
    var named := NamedUsers(data.users, r.name);
    var id := UpsertId(data, r.name, freshId);
    var after := NamedUsers(data.users[id := r], r.name);
    if named == {} {
      assert forall k | k in data.users :: data.users[k].name == r.name ==> k in named;
      assert after == {id};
    } else {
      assert after == named;
    }
  }

  /** Once an attempt has stored the record, only the policy may change. */
  lemma {:induction false} AttemptStores(w: World, cfg: Config, b: UserBody, freshId: ScimId, f: Faults, w': World,
                                         reply: Reply)
    requires Sound(w.fs) && ValidCreate(cfg, b) && CreateUserAttempt(w, cfg, b, freshId, f, w', reply)
    ensures var id := UpsertId(w.data, b.userName.value, freshId);
            var stored := StoreUser(w, id, CreateRecord(b), f.flush);
            && w' == stored.(policy := w'.policy)
            && (Succeeded(reply) ==>
                  reply == if NamedUsers(w.data.users, b.userName.value) == {} then Created(id) else Updated(id))
  {
  }

  lemma {:induction false} StoringMakesNoSecond(w: World, r: UserRecord, freshId: ScimId, fault: FlushFault,
                                                start: set<ScimId>)
    requires NowhereSecond(w, r.name, start)
    ensures NowhereSecond(StoreUser(w, UpsertId(w.data, r.name, freshId), r, fault), r.name, start)
  {
    var data := Data(w.data.users[UpsertId(w.data, r.name, freshId) := r], w.data.groups);
    UpsertMakesNoSecond(w.data, r, freshId, start);
    FlushVersions(w.fs, data, StepsOf(fault), EMPTY);
  }

  lemma {:induction false} CreateStepKeeps(w: World, e: CreateEvent, w': World, cfg: Config, b: UserBody,
                                           start: set<ScimId>)
    requires ValidCreate(cfg, b) && NowhereSecond(w, b.userName.value, start) && CreateStep(w, e, w', cfg, b)
    ensures NowhereSecond(w', b.userName.value, start)
  {
    match e
    case CreateAttempt(f, freshId, reply) =>
      AttemptStores(w, cfg, b, freshId, f, w', reply);
      StoringMakesNoSecond(w, CreateRecord(b), freshId, f.flush, start);
    case ReadAgain => RestartFindsVersion(w.fs, w'.fs, w'.data, EMPTY);
  }

  lemma {:induction false} CreateRunKeeps(ws: seq<World>, es: seq<CreateEvent>, i: nat, cfg: Config, b: UserBody,
                                          start: set<ScimId>)
    requires CreateRun(ws, es, cfg, b) && i <= |es| && ValidCreate(cfg, b)
    requires NowhereSecond(ws[0], b.userName.value, start)
    ensures NowhereSecond(ws[i], b.userName.value, start)
  {
    if i > 0 {
      CreateRunKeeps(ws, es, i - 1, cfg, b, start);
      assert CreateStepAt(ws, es, i - 1, cfg, b);
      CreateStepKeeps(ws[i - 1], es[i - 1], ws[i], cfg, b, start);
    }
  }

  lemma {:induction false} NoSecondAtStart(w: World, name: string)
    requires Saved(w)
    ensures NowhereSecond(w, name, NamedUsers(w.data.users, name))
  {
    RunningReadsVersion(w.fs, EMPTY);
  }

  /** Through any failed attempts and restarts, the records of that name stay the ones there
      were at the start; if there were none, there is never more than one, whatever ids the
      attempts would have used. */
  lemma {:induction false} CreateRetriesMakeNoSecondRecord(ws: seq<World>, es: seq<CreateEvent>, i: nat, cfg: Config,
                                                           b: UserBody)
    requires CreateRun(ws, es, cfg, b) && i <= |es| && ValidCreate(cfg, b) && Saved(ws[0])
    ensures NoSecond(ws[i].data, b.userName.value, NamedUsers(ws[0].data.users, b.userName.value))
  {
    var start := NamedUsers(ws[0].data.users, b.userName.value);
    NoSecondAtStart(ws[0], b.userName.value);
    CreateRunKeeps(ws, es, i, cfg, b, start);
  }

  /** The fields a stored record takes from the request. */
  predicate Records(r: UserRecord, b: UserBody) {
    && Some(r.name) == b.userName && r.displayName == b.displayName && r.externalId == b.externalId
    && r.email == (if b.emails.Some? && b.emails.value != [] then Some(b.emails.value[0]) else None)
    && (r.active <==> b.active != Some(false))
  }
}
