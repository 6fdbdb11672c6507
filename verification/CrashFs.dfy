/** The file the mapping is kept in, with crashes.

    A directory change reaches the disk some time after it is made: `dirs` lists the
    directory states that may be on disk, oldest first, the last being what a running
    process sees.  File contents that were not synced may come back as anything. */
module CrashFs {
  import opened Wrappers

  datatype Content<D> = Whole(data: D) | Partial

  datatype File<D> = File(content: Content<D>, synced: bool)

  /** What the two names in the directory refer to. */
  datatype Dir = Dir(main: Option<nat>, tmp: Option<nat>)

  /** `next` is the next unused file number.  `hasParent` says whether the path of the file
      names a directory; without one, a flush has no directory to sync. */
  datatype Fs<D> = Fs(dirs: seq<Dir>, files: map<nat, File<D>>, next: nat, hasParent: bool)

  const FLUSH_STEPS: nat := 5

  function Now<D>(fs: Fs<D>): Dir
    requires fs.dirs != []
  {
    fs.dirs[|fs.dirs| - 1]
  }

  predicate Sound<D>(fs: Fs<D>) {
    && fs.dirs != []
    && (forall n | n in fs.files :: n < fs.next)
    && (forall d | d in fs.dirs ::
          && (d.main.Some? ==>
                && d.main.value in fs.files
                && fs.files[d.main.value].synced && fs.files[d.main.value].content.Whole?
                && d.main != d.tmp && d.main != Now(fs).tmp)
          && (d.tmp.Some? ==> d.tmp.value in fs.files))
  }

  // ── the steps of a flush ────────────────────────────────────────────────────

  /** Creates the temporary file, or truncates one left over. */
  function CreateTmp<D>(fs: Fs<D>): Fs<D>
    requires Sound(fs)
  {
    match Now(fs).tmp
    case Some(n) => fs.(files := fs.files[n := File(Partial, false)])
    case None =>
      fs.(dirs := fs.dirs + [Now(fs).(tmp := Some(fs.next))],
          files := fs.files[fs.next := File(Partial, false)],
          next := fs.next + 1)
  }

  function WriteTmp<D>(fs: Fs<D>, data: D): Fs<D>
    requires Sound(fs) && Now(fs).tmp.Some?
  {
    fs.(files := fs.files[Now(fs).tmp.value := File(Whole(data), false)])
  }

  function SyncTmp<D>(fs: Fs<D>): Fs<D>
    requires Sound(fs) && Now(fs).tmp.Some?
  {
    var n := Now(fs).tmp.value;
    fs.(files := fs.files[n := File(fs.files[n].content, true)])
  }

  /** Atomically gives the temporary file the final name. */
  function Rename<D>(fs: Fs<D>): Fs<D>
    requires Sound(fs) && Now(fs).tmp.Some?
  {
    fs.(dirs := fs.dirs + [Dir(Now(fs).tmp, None)])
  }

  function SyncDir<D>(fs: Fs<D>): Fs<D>
    requires Sound(fs)
  {
    if fs.hasParent then fs.(dirs := [Now(fs)]) else fs
  }

  /** The data a reader would find if the directory were in state `d`. */
  function VersionAt<D>(fs: Fs<D>, d: Dir, empty: D): D
    requires Sound(fs) && d in fs.dirs
  {
    match d.main
    case None => empty
    case Some(n) => fs.files[n].content.data
  }

  function Versions<D>(fs: Fs<D>, empty: D): set<D>
    requires Sound(fs)
  {
    set d | d in fs.dirs :: VersionAt(fs, d, empty)
  }

  /** What the running process reads. */
  function Load<D>(fs: Fs<D>, empty: D): Option<D>
    requires fs.dirs != []
  {
    match Now(fs).main
    case None => Some(empty)
    case Some(n) =>
      if n in fs.files && fs.files[n].content.Whole? then Some(fs.files[n].content.data) else None
  }

  /** Nothing is pending: the directory on disk is the one in use. */
  predicate Settled<D>(fs: Fs<D>) {
    |fs.dirs| == 1
  }

  lemma {:induction false} CreateTmpKeepsMains<D>(fs: Fs<D>)
    requires Sound(fs)
    ensures Sound(CreateTmp(fs)) && Now(CreateTmp(fs)).tmp.Some?
  {
    var out := CreateTmp(fs);
    assert Now(fs) in fs.dirs;
    if Now(fs).tmp.None? {
      assert out.dirs == fs.dirs + [Now(out)];
      forall d | d in fs.dirs && d.tmp.Some?
        ensures d.tmp.value < fs.next
      {
      }
    }
  }

  lemma {:induction false} CreateTmpSound<D>(fs: Fs<D>, empty: D)
    requires Sound(fs)
    ensures var out := CreateTmp(fs);
            Sound(out) && Now(out).tmp.Some? && Versions(out, empty) == Versions(fs, empty)
  {
    CreateTmpKeepsMains(fs);
    var out := CreateTmp(fs);
    assert Now(fs) in fs.dirs;
    forall d | d in fs.dirs
      ensures d in out.dirs && VersionAt(out, d, empty) == VersionAt(fs, d, empty)
    {
    }
    if Now(fs).tmp.None? {
      assert out.dirs == fs.dirs + [Now(out)];
      assert VersionAt(out, Now(out), empty) == VersionAt(fs, Now(fs), empty);
    }
  }

  lemma {:induction false} WriteTmpSound<D>(fs: Fs<D>, data: D, empty: D)
    requires Sound(fs) && Now(fs).tmp.Some?
    ensures var out := WriteTmp(fs, data);
            && Sound(out) && Now(out) == Now(fs) && Versions(out, empty) == Versions(fs, empty)
            && out.files[Now(out).tmp.value].content == Whole(data)
  {
    var out := WriteTmp(fs, data);
    forall d | d in fs.dirs
      ensures VersionAt(out, d, empty) == VersionAt(fs, d, empty)
    {
    }
  }

  lemma {:induction false} SyncTmpSound<D>(fs: Fs<D>, empty: D)
    requires Sound(fs) && Now(fs).tmp.Some?
    ensures var out := SyncTmp(fs);
            && Sound(out) && Now(out) == Now(fs) && Versions(out, empty) == Versions(fs, empty)
            && out.files[Now(out).tmp.value] == File(fs.files[Now(fs).tmp.value].content, true)
  {
    var out := SyncTmp(fs);
    assert Now(fs) in fs.dirs;
    forall d | d in fs.dirs
      ensures VersionAt(out, d, empty) == VersionAt(fs, d, empty)
    {
    }
  }

  lemma {:induction false} RenameSound<D>(fs: Fs<D>, data: D, empty: D)
    requires Sound(fs) && Now(fs).tmp.Some?
    requires fs.files[Now(fs).tmp.value] == File(Whole(data), true)
    ensures var out := Rename(fs);
            && Sound(out) && VersionAt(out, Now(out), empty) == data
            && Versions(out, empty) == Versions(fs, empty) + {data}
  {
    var out := Rename(fs);
    assert Now(fs) in fs.dirs;
    assert Sound(out);
    forall d | d in fs.dirs
      ensures VersionAt(out, d, empty) == VersionAt(fs, d, empty)
    {
    }
    assert out.dirs == fs.dirs + [Now(out)];
  }

  lemma {:induction false} SyncDirSound<D>(fs: Fs<D>, empty: D)
    requires Sound(fs)
    ensures Sound(SyncDir(fs)) && Now(SyncDir(fs)) == Now(fs)
    ensures fs.hasParent ==> Settled(SyncDir(fs)) && Versions(SyncDir(fs), empty) == {VersionAt(fs, Now(fs), empty)}
    ensures !fs.hasParent ==> SyncDir(fs) == fs
  {
    assert Now(fs) in fs.dirs;
    if fs.hasParent {
      var out := SyncDir(fs);
      assert out.dirs == [Now(fs)];
      assert VersionAt(out, Now(fs), empty) == VersionAt(fs, Now(fs), empty);
    }
  }

  /** The file system after the first `steps` steps of flushing `data`. */
  function Flushed<D>(fs: Fs<D>, data: D, steps: nat): (out: Fs<D>)
    requires Sound(fs) && steps <= FLUSH_STEPS
    ensures Sound(out) && out.hasParent == fs.hasParent
    ensures 1 <= steps <= 3 ==> Now(out).tmp.Some?
    ensures steps == 2 ==> out.files[Now(out).tmp.value].content == Whole(data)
    ensures steps == 3 ==> out.files[Now(out).tmp.value] == File(Whole(data), true)
  {
    if steps == 0 then fs
    else
      var before := Flushed(fs, data, steps - 1);
      if steps == 1 then CreateTmpSound(before, data); CreateTmp(before)
      else if steps == 2 then WriteTmpSound(before, data, data); WriteTmp(before, data)
      else if steps == 3 then SyncTmpSound(before, data); SyncTmp(before)
      else if steps == 4 then RenameSound(before, data, data); Rename(before)
      else SyncDirSound(before, data); SyncDir(before)
  }

  /** However far a flush gets, the disk holds nothing but complete versions: those it may
      have held before, or the new one; once the directory is synced, only the new one. */
  lemma {:induction false} FlushVersions<D>(fs: Fs<D>, data: D, steps: nat, empty: D)
    requires Sound(fs) && steps <= FLUSH_STEPS
    ensures Versions(Flushed(fs, data, steps), empty) <= Versions(fs, empty) + {data}
    ensures steps <= 3 ==> Versions(Flushed(fs, data, steps), empty) == Versions(fs, empty)
    ensures steps >= 4 ==> VersionAt(Flushed(fs, data, steps), Now(Flushed(fs, data, steps)), empty) == data
    ensures steps == FLUSH_STEPS && fs.hasParent ==>
              Settled(Flushed(fs, data, steps)) && Versions(Flushed(fs, data, steps), empty) == {data}
  {
    if steps > 0 {
      FlushVersions(fs, data, steps - 1, empty);
      var before := Flushed(fs, data, steps - 1);
      if steps == 1 {
        CreateTmpSound(before, empty);
      } else if steps == 2 {
        WriteTmpSound(before, data, empty);
      } else if steps == 3 {
        SyncTmpSound(before, empty);
      } else if steps == 4 {
        RenameSound(before, data, empty);
      } else {
        SyncDirSound(before, empty);
      }
    }
  }

  // ── crashes ─────────────────────────────────────────────────────────────────

  /** The machine stops and comes back: one of the pending directory states is found,
      unsynced contents are arbitrary. */
  ghost predicate Crash<D>(fs: Fs<D>, after: Fs<D>) {
    && fs.dirs != []
    && (exists d :: d in fs.dirs && after.dirs == [d])
    && after.next == fs.next && after.hasParent == fs.hasParent
    && after.files.Keys == fs.files.Keys
    && (forall n | n in fs.files && fs.files[n].synced :: after.files[n] == fs.files[n])
  }

  lemma {:induction false} CrashFindsVersion<D>(fs: Fs<D>, after: Fs<D>, empty: D)
    requires Sound(fs) && Crash(fs, after)
    ensures Sound(after) && Settled(after)
    ensures Load(after, empty).Some? && Load(after, empty).value in Versions(fs, empty)
    ensures Versions(after, empty) == {Load(after, empty).value}
  {
    var d :| d in fs.dirs && after.dirs == [d];
    assert forall e | e in after.dirs :: e == d;
    assert VersionAt(after, d, empty) == VersionAt(fs, d, empty);
    assert Load(after, empty) == Some(VersionAt(fs, d, empty));
  }

  lemma {:induction false} RunningReadsVersion<D>(fs: Fs<D>, empty: D)
    requires Sound(fs)
    ensures Load(fs, empty).Some? && Load(fs, empty).value in Versions(fs, empty)
    ensures Settled(fs) ==> Versions(fs, empty) == {Load(fs, empty).value}
  {
    assert Now(fs) in fs.dirs;
    assert Load(fs, empty).value == VersionAt(fs, Now(fs), empty);
  }

  /** A crash between any two steps of a flush leaves a file that loads, as what it held
      before or as the new data; once the directory is synced, as the new data. */
  lemma {:induction false} FlushIsCrashAtomic<D>(fs: Fs<D>, data: D, steps: nat, after: Fs<D>, empty: D)
    requires Sound(fs) && Settled(fs) && steps <= FLUSH_STEPS
    requires Crash(Flushed(fs, data, steps), after)
    ensures Load(after, empty).Some?
    ensures Load(after, empty) == Load(fs, empty) || Load(after, empty) == Some(data)
    ensures steps <= 3 ==> Load(after, empty) == Load(fs, empty)
    ensures steps == FLUSH_STEPS && fs.hasParent ==> Load(after, empty) == Some(data)
    ensures Sound(after) && Settled(after)
  {
    FlushVersions(fs, data, steps, empty);
    CrashFindsVersion(Flushed(fs, data, steps), after, empty);
    RunningReadsVersion(fs, empty);
  }

  /** The oldest directory state is the same and shows what it showed. */
  ghost predicate KeepsOldest<D>(fs: Fs<D>, out: Fs<D>, empty: D)
    requires Sound(fs) && Sound(out)
  {
    out.dirs[0] == fs.dirs[0] && VersionAt(out, fs.dirs[0], empty) == VersionAt(fs, fs.dirs[0], empty)
  }

  lemma {:induction false} CreateTmpKeepsOldest<D>(fs: Fs<D>, empty: D)
    requires Sound(fs) && Sound(CreateTmp(fs))
    ensures KeepsOldest(fs, CreateTmp(fs), empty)
  {
    assert fs.dirs[0] in fs.dirs && Now(fs) in fs.dirs;
  }

  lemma {:induction false} WriteTmpKeepsOldest<D>(fs: Fs<D>, data: D, empty: D)
    requires Sound(fs) && Now(fs).tmp.Some? && Sound(WriteTmp(fs, data))
    ensures KeepsOldest(fs, WriteTmp(fs, data), empty)
  {
    assert fs.dirs[0] in fs.dirs;
  }

  lemma {:induction false} SyncTmpKeepsOldest<D>(fs: Fs<D>, empty: D)
    requires Sound(fs) && Now(fs).tmp.Some? && Sound(SyncTmp(fs))
    ensures KeepsOldest(fs, SyncTmp(fs), empty)
  {
    assert fs.dirs[0] in fs.dirs;
  }

  lemma {:induction false} RenameKeepsOldest<D>(fs: Fs<D>, empty: D)
    requires Sound(fs) && Now(fs).tmp.Some? && Sound(Rename(fs))
    ensures KeepsOldest(fs, Rename(fs), empty)
  {
    assert fs.dirs[0] in fs.dirs;
  }

  lemma {:induction false} NoSyncKeepsOldest<D>(fs: Fs<D>, empty: D)
    requires Sound(fs) && !fs.hasParent
    ensures KeepsOldest(fs, SyncDir(fs), empty)
  {
    assert fs.dirs[0] in fs.dirs;
  }

  lemma {:induction false} FlushStepKeepsOldest<D>(fs: Fs<D>, data: D, steps: nat, empty: D)
    requires Sound(fs) && 0 < steps <= FLUSH_STEPS && (steps < FLUSH_STEPS || !fs.hasParent)
    ensures KeepsOldest(Flushed(fs, data, steps - 1), Flushed(fs, data, steps), empty)
  {
    hide KeepsOldest, CreateTmp, WriteTmp, SyncTmp, Rename, SyncDir;
    var before, out := Flushed(fs, data, steps - 1), Flushed(fs, data, steps);
    assert Sound(out);
    if steps == 1 {
      CreateTmpKeepsOldest(before, empty);
    } else if steps == 2 {
      WriteTmpKeepsOldest(before, data, empty);
    } else if steps == 3 {
      SyncTmpKeepsOldest(before, empty);
    } else if steps == 4 {
      RenameKeepsOldest(before, empty);
    } else {
      NoSyncKeepsOldest(before, empty);
    }
  }

  /** Until the directory is synced, the oldest directory state stays on the list, and shows
      what it showed. */
  lemma {:induction false} FlushKeepsOldest<D>(fs: Fs<D>, data: D, steps: nat, empty: D)
    requires Sound(fs) && steps <= FLUSH_STEPS && (steps < FLUSH_STEPS || !fs.hasParent)
    ensures KeepsOldest(fs, Flushed(fs, data, steps), empty)
  {
    hide VersionAt, CreateTmp, WriteTmp, SyncTmp, Rename, SyncDir;
    if steps > 0 {
      FlushKeepsOldest(fs, data, steps - 1, empty);
      FlushStepKeepsOldest(fs, data, steps, empty);
    }
  }

  /** The rename can be lost as long as the directory is not synced; without a directory to
      sync, even after a flush that reported success. */
  lemma {:induction false} RenameCanBeLost<D>(fs: Fs<D>, data: D, steps: nat, empty: D) returns (after: Fs<D>)
    requires Sound(fs) && Settled(fs) && steps <= FLUSH_STEPS && (steps < FLUSH_STEPS || !fs.hasParent)
    ensures Crash(Flushed(fs, data, steps), after) && Load(after, empty) == Load(fs, empty)
  {
    FlushKeepsOldest(fs, data, steps, empty);
    var out := Flushed(fs, data, steps);
    after := out.(dirs := [out.dirs[0]]);
    assert out.dirs[0] in out.dirs;
    CrashFindsVersion(out, after, empty);
    assert Load(after, empty).value == VersionAt(out, fs.dirs[0], empty);
    assert Now(fs) == fs.dirs[0] && fs.dirs[0] in fs.dirs;
  }

  /** The new data is what every crash after the flush leaves. */
  ghost predicate Durable<D(!new)>(fs: Fs<D>, data: D, empty: D)
    requires Sound(fs)
  {
    forall after :: Crash(Flushed(fs, data, FLUSH_STEPS), after) ==> Load(after, empty) == Some(data)
  }

  /** A flush that reports success is durable exactly when the path names a directory, or
      the file held the data already. */
  lemma {:induction false} FlushDurableIff<D(!new)>(fs: Fs<D>, data: D, empty: D)
    requires Sound(fs) && Settled(fs)
    ensures Durable(fs, data, empty) <==> fs.hasParent || Load(fs, empty) == Some(data)
  {
    forall after | Crash(Flushed(fs, data, FLUSH_STEPS), after)
      ensures fs.hasParent || Load(fs, empty) == Some(data) ==> Load(after, empty) == Some(data)
    {
      FlushIsCrashAtomic(fs, data, FLUSH_STEPS, after, empty);
    }
    if !fs.hasParent {
      var after := RenameCanBeLost(fs, data, FLUSH_STEPS, empty);
    }
  }

  /** The sync is needed: renaming a temporary file that was made or written but not synced can
      leave a file that does not load at all. */
  lemma {:induction false} UnsyncedRenameCanLoseAll<D>(fs: Fs<D>, data: D, steps: nat, empty: D)
    returns (after: Fs<D>)
    requires Sound(fs) && 1 <= steps <= 2
    ensures Crash(Rename(Flushed(fs, data, steps)), after)
    ensures after.dirs != [] && Load(after, empty) == None
  {
    var before := Flushed(fs, data, steps);
    var n := Now(before).tmp.value;
    var renamed := Rename(before);
    assert Now(before) in before.dirs;
    after := renamed.(dirs := [Now(renamed)], files := renamed.files[n := File(Partial, false)]);
    assert Now(renamed) in renamed.dirs;
    TmpIsUnsynced(fs, data, steps);
  }

  lemma {:induction false} TmpIsUnsynced<D>(fs: Fs<D>, data: D, steps: nat)
    requires Sound(fs) && 1 <= steps <= 2
    ensures var out := Flushed(fs, data, steps);
            Now(out).tmp.Some? && Now(out).tmp.value in out.files && !out.files[Now(out).tmp.value].synced
  {
    var zero, first := Flushed(fs, data, 0), Flushed(fs, data, 1);
    assert zero == fs;
    assert first == CreateTmp(zero);
    assert Flushed(fs, data, 2) == WriteTmp(first, data);
  }

  /** A process comes back and reads the file.  When the machine stopped, unsynced data is
      lost; when only the process did, the disk and what is pending stay as they were. */
  ghost predicate Restart<D>(fs: Fs<D>, after: Fs<D>, data: D, empty: D) {
    (Crash(fs, after) || after == fs) && after.dirs != [] && Load(after, empty) == Some(data)
  }

  /** Either may happen at any time, and the process finds something whenever it does. */
  lemma {:induction false} RestartHappens<D>(fs: Fs<D>, after: Fs<D>, empty: D)
    requires Sound(fs) && (after == fs || Crash(fs, after))
    ensures exists data :: Restart(fs, after, data, empty)
  {
    if Crash(fs, after) {
      CrashFindsVersion(fs, after, empty);
    } else {
      RunningReadsVersion(fs, empty);
    }
    assert Restart(fs, after, Load(after, empty).value, empty);
  }

  lemma {:induction false} RestartFindsVersion<D>(fs: Fs<D>, after: Fs<D>, data: D, empty: D)
    requires Sound(fs) && Restart(fs, after, data, empty)
    ensures Sound(after) && data in Versions(fs, empty) && Versions(after, empty) <= Versions(fs, empty)
  {
    if Crash(fs, after) {
      CrashFindsVersion(fs, after, empty);
    } else {
      RunningReadsVersion(fs, empty);
    }
  }

  // ── whole histories ─────────────────────────────────────────────────────────

  /** One flush that got `steps` far; `crash` says that the machine then stopped and
      came back as given. */
  datatype Event<D> = Event(data: D, steps: nat, crash: Option<Fs<D>>)

  ghost predicate History<D>(fs: Fs<D>, events: seq<Event<D>>, end: Fs<D>)
    requires Sound(fs)
    decreases |events|
  {
    if events == [] then end == fs
    else
      var e := events[0];
      e.steps <= FLUSH_STEPS &&
      (var mid := Flushed(fs, e.data, e.steps);
       match e.crash
       case None => History(mid, events[1..], end)
       case Some(after) => Crash(mid, after) && Sound(after) && History(after, events[1..], end))
  }

  /** The flush reached its end, and there was a directory to sync there. */
  predicate Settles<D>(e: Event<D>, hasParent: bool) {
    e.steps == FLUSH_STEPS && hasParent
  }

  /** The versions that may be read after a history: those flushed since the last flush that
      synced its directory, and the one before. */
  function Candidates<D>(start: set<D>, events: seq<Event<D>>, hasParent: bool): set<D>
    decreases |events|
  {
    if events == [] then start
    else
      var e := events[0];
      Candidates(if Settles(e, hasParent) then {e.data} else start + {e.data}, events[1..], hasParent)
  }

  lemma {:induction false} CandidatesMonotone<D>(a: set<D>, b: set<D>, events: seq<Event<D>>, hasParent: bool)
    requires a <= b
    ensures Candidates(a, events, hasParent) <= Candidates(b, events, hasParent)
    decreases |events|
  {
    if events != [] {
      var e := events[0];
      CandidatesMonotone(if Settles(e, hasParent) then {e.data} else a + {e.data},
                         if Settles(e, hasParent) then {e.data} else b + {e.data}, events[1..], hasParent);
    }
  }

  /** Through any sequence of flushes that stop anywhere and crashes after any of them, the
      file always loads, and never as anything older than the last flush that synced its
      directory. */
  lemma {:induction false} HistoryLoads<D>(fs: Fs<D>, events: seq<Event<D>>, end: Fs<D>, empty: D)
    requires Sound(fs) && History(fs, events, end)
    ensures Sound(end)
    ensures Load(end, empty).Some?
    ensures Load(end, empty).value in Candidates(Versions(fs, empty), events, fs.hasParent)
    decreases |events|
  {
    if events == [] {
      RunningReadsVersion(fs, empty);
    } else {
      var e := events[0];
      var mid := Flushed(fs, e.data, e.steps);
      FlushVersions(fs, e.data, e.steps, empty);
      var start := if Settles(e, fs.hasParent) then {e.data} else Versions(fs, empty) + {e.data};
      match e.crash {
        case None =>
          HistoryLoads(mid, events[1..], end, empty);
          CandidatesMonotone(Versions(mid, empty), start, events[1..], fs.hasParent);
        case Some(after) =>
          CrashFindsVersion(mid, after, empty);
          HistoryLoads(after, events[1..], end, empty);
          CandidatesMonotone(Versions(after, empty), start, events[1..], fs.hasParent);
      }
    }
  }
}
