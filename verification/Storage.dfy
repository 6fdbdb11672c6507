/** The mapping in memory and its file. */
module Storage {
  import opened Wrappers
  import opened Ordering
  import opened Directory
  import opened CrashFs

  /** How a flush ends: completely, or with an error after some of its steps. */
  datatype FlushFault = NoFault | FailsAfter(steps: nat)

  function StepsOf(f: FlushFault): nat {
    match f
    case NoFault => FLUSH_STEPS
    case FailsAfter(n) => if n < FLUSH_STEPS then n else FLUSH_STEPS
  }

  function Stripped(r: GroupRecord, id: ScimId): GroupRecord {
    r.(members := Retain(r.members, id))
  }

  function WithoutMember(groups: map<GroupId, GroupRecord>, id: ScimId): map<GroupId, GroupRecord> {
    map g | g in groups :: Stripped(groups[g], id)
  }

  class Mapping {
    var users: map<ScimId, UserRecord>
    var groups: map<GroupId, GroupRecord>
    var fs: Fs<Data>

    ghost predicate Valid()
      reads this
    {
      Sound(fs)
    }

    function Contents(): Data
      reads this
    {
      Data(users, groups)
    }

    constructor (data: Data, fs: Fs<Data>)
      ensures Contents() == data && this.fs == fs
    {
      this.users := data.users;
      this.groups := data.groups;
      this.fs := fs;
    }

    /** `load`: reads the file a process finds when it starts.  It is refused exactly when
        the file cannot be read or does not hold a complete mapping; a missing file is an
        empty mapping. */
    static method Load(fs: Fs<Data>, readFails: bool) returns (loaded: Option<Mapping>)
      requires fs.dirs != []
      ensures loaded.Some? <==> !readFails && CrashFs.Load(fs, EMPTY).Some?
      ensures loaded.Some? ==> fresh(loaded.value) && loaded.value.fs == fs
      ensures loaded.Some? ==> CrashFs.Load(fs, EMPTY) == Some(loaded.value.Contents())
      ensures Sound(fs) ==> (loaded.Some? <==> !readFails) && (loaded.Some? ==> loaded.value.Valid())
    {
      if Sound(fs) {
        RunningReadsVersion(fs, EMPTY);
      }
      if readFails {
        return None;
      }
      match CrashFs.Load(fs, EMPTY) {
        case None => return None;
        case Some(data) =>
          var m := new Mapping(data, fs);
          return Some(m);
      }
    }

    /** Create the temporary file, write it, sync it, rename it, and sync the
        directory if the path names one. */
    method Flush(fault: FlushFault) returns (ok: bool)
      requires Valid()
      modifies this`fs
      ensures Valid()
      ensures fs == Flushed(old(fs), Contents(), StepsOf(fault))
      ensures ok == fault.NoFault?
    {
      var data := Contents();
      ghost var start := fs;
      if fault == FailsAfter(0) { return false; }
      assert fs == Flushed(start, data, 0);
      fs := CreateTmp(fs);
      assert fs == Flushed(start, data, 1);
      if fault == FailsAfter(1) { return false; }
      fs := WriteTmp(fs, data);
      assert fs == Flushed(start, data, 2);
      if fault == FailsAfter(2) { return false; }
      fs := SyncTmp(fs);
      assert fs == Flushed(start, data, 3);
      if fault == FailsAfter(3) { return false; }
      fs := Rename(fs);
      assert fs == Flushed(start, data, 4);
      if fault == FailsAfter(4) { return false; }
      fs := SyncDir(fs);
      assert fs == Flushed(start, data, 5);
      ok := fault.NoFault?;
    }

    /** Memory keeps the new record even when the flush fails. */
    method SetUser(id: ScimId, record: UserRecord, fault: FlushFault) returns (ok: bool)
      requires Valid()
      modifies this
      ensures Valid() && ok == fault.NoFault?
      ensures users == old(users)[id := record] && groups == old(groups)
      ensures fs == Flushed(old(fs), Contents(), StepsOf(fault))
    {
      users := users[id := record];
      ok := Flush(fault);
    }

    method SetGroup(id: GroupId, record: GroupRecord, fault: FlushFault) returns (ok: bool)
      requires Valid()
      modifies this
      ensures Valid() && ok == fault.NoFault?
      ensures groups == old(groups)[id := record] && users == old(users)
      ensures fs == Flushed(old(fs), Contents(), StepsOf(fault))
    {
      groups := groups[id := record];
      ok := Flush(fault);
    }

    method RemoveUser(id: ScimId, fault: FlushFault) returns (ok: bool)
      requires Valid()
      modifies this
      ensures Valid() && groups == old(groups)
      ensures users == if ok then old(users) - {id} else old(users)
      ensures ok <==> fault.NoFault? || id !in old(users)
      ensures id !in old(users) ==> fs == old(fs)
      ensures id in old(users) ==> fs == Flushed(old(fs), Data(old(users) - {id}, groups), StepsOf(fault))
    {
      if id !in users {
        return true;
      }
      var removed := users[id];
      users := users - {id};
      ok := Flush(fault);
      if !ok {
        users := users[id := removed];
      }
    }

    method RemoveGroup(id: GroupId, fault: FlushFault) returns (ok: bool)
      requires Valid()
      modifies this
      ensures Valid() && users == old(users)
      ensures groups == if ok then old(groups) - {id} else old(groups)
      ensures ok <==> fault.NoFault? || id !in old(groups)
      ensures id !in old(groups) ==> fs == old(fs)
      ensures id in old(groups) ==> fs == Flushed(old(fs), Data(users, old(groups) - {id}), StepsOf(fault))
    {
      if id !in groups {
        return true;
      }
      var removed := groups[id];
      groups := groups - {id};
      ok := Flush(fault);
      if !ok {
        groups := groups[id := removed];
      }
    }

    /** Removes the user and every mention of them in one flush; on failure both maps are
        exactly what they were, order and repetitions in member lists included. */
    method RemoveUserAndFromGroups(id: ScimId, fault: FlushFault) returns (ok: bool)
      requires Valid()
      modifies this
      ensures Valid() && ok == fault.NoFault?
      ensures ok ==> users == old(users) - {id} && groups == WithoutMember(old(groups), id)
      ensures !ok ==> users == old(users) && groups == old(groups)
      ensures fs == Flushed(old(fs), Data(old(users) - {id}, WithoutMember(old(groups), id)), StepsOf(fault))
    {
      var removed := if id in users then Some(users[id]) else None;
      users := users - {id};
      var before := groups;
      var rollback := MembersMentioning(before, id);
      groups := StripMember(before, id);
      ok := Flush(fault);
      if !ok {
        if removed.Some? {
          users := users[id := removed.value];
        }
        groups := RestoreMembers(before, groups, rollback, id);
      }
    }
  }

  predicate RollbackOf(groups: map<GroupId, GroupRecord>, rollback: seq<(GroupId, seq<ScimId>)>, id: ScimId) {
    && (forall e | e in rollback :: e.0 in groups && e.1 == groups[e.0].members)
    && (forall g | g in groups && id in groups[g].members :: (g, groups[g].members) in rollback)
  }

  /** The member lists that mention `id`, to be put back if the flush fails. */
  method MembersMentioning(groups: map<GroupId, GroupRecord>, id: ScimId)
    returns (rollback: seq<(GroupId, seq<ScimId>)>)
    ensures RollbackOf(groups, rollback, id)
  {
    rollback := [];
    var todo := groups.Keys;
    while todo != {}
      invariant todo <= groups.Keys
      invariant forall e | e in rollback :: e.0 in groups && e.1 == groups[e.0].members
      invariant forall g | g in groups && g !in todo && id in groups[g].members :: (g, groups[g].members) in rollback
      decreases todo
    {
      var g := Least(todo);
      if id in groups[g].members {
        rollback := rollback + [(g, groups[g].members)];
      }
      todo := todo - {g};
    }
  }

  method StripMember(before: map<GroupId, GroupRecord>, id: ScimId) returns (groups: map<GroupId, GroupRecord>)
    ensures groups == WithoutMember(before, id)
  {
    groups := before;
    var todo := before.Keys;
    while todo != {}
      invariant todo <= before.Keys == groups.Keys
      invariant forall g | g in before :: groups[g] == if g in todo then before[g] else Stripped(before[g], id)
      decreases todo
    {
      var g := Least(todo);
      groups := groups[g := Stripped(groups[g], id)];
      todo := todo - {g};
    }
  }

  method RestoreMembers(ghost before: map<GroupId, GroupRecord>, stripped: map<GroupId, GroupRecord>,
                        rollback: seq<(GroupId, seq<ScimId>)>, ghost id: ScimId)
    returns (groups: map<GroupId, GroupRecord>)
    requires stripped == WithoutMember(before, id) && RollbackOf(before, rollback, id)
    ensures groups == before
  {
    groups := stripped;
    for i := 0 to |rollback|
      invariant groups.Keys == before.Keys
      invariant forall g | g in before :: groups[g] == before[g] || groups[g] == stripped[g]
      invariant forall j | 0 <= j < i :: groups[rollback[j].0] == before[rollback[j].0]
    {
      var (g, members) := rollback[i];
      assert rollback[i] in rollback;
      groups := groups[g := groups[g].(members := members)];
    }
    forall g | g in before
      ensures groups[g] == before[g]
    {
      RetainKeepsOthers(before[g].members, id);
      if id in before[g].members {
        var j :| 0 <= j < |rollback| && rollback[j] == (g, before[g].members);
      }
    }
  }
}
