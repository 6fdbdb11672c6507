/** Runs of one proxy's reconciles against an environment: how often keys are rotated, what
    an identity is thrown away for, and where every minted key ends up. */
module KeyRuns {
  import opened Wrappers
  import opened Remote
  import opened ProxyKeys

  /** A cluster with the history the theorems speak about.  `exits` are the times of the
      container exits so far; `aged` and `burned` count the rotations made because the key
      was too old and because the proxy died holding it; `last` is the time of the latest
      of these, or the start. */
  datatype Sys = Sys(
    c: Cluster,
    ledger: Ledger,
    start: int,
    exits: seq<int>,
    aged: nat,
    burned: nat,
    last: int)

  datatype Action =
    | Tick(now: int)
    | ContainerExits(i: nat)
    | PodChanges(pod: Option<seq<Container>>)
    | NodesChange(nodes: map<nat, HsNode>)
    | StateChanges(state: Option<StateSecret>)
    | ConfigDeleted
    | RotateRuns(f: RotateFaults)
    | EnsureRuns(key: nat, faults: EnsureFaults)

  function ExitTimes(pod: Option<seq<Container>>): set<int> {
    if pod.None? then {} else set c | c in pod.value && c.lastExit.Some? :: c.lastExit.value
  }

  /** The config Secret was there before and is gone after. */
  predicate KeyDropped(a: Cluster, b: Cluster) {
    a.config.Some? && b.config.None?
  }

  function AfterRotate(s: Sys, expiry: nat, f: RotateFaults): Sys {
    var v := Grade(s.c, expiry, f);
    var c := Carried(s.c, v, f);
    if !KeyDropped(s.c, c) then s.(c := c)
    else
      match v
      case DropKey(_) => s.(c := c, aged := s.aged + 1, last := s.c.now)
      case DropIdentity(IdentityRejected) => s.(c := c, burned := s.burned + 1, last := s.c.now)
      case _ => s.(c := c)
  }

  function AfterEnsure(s: Sys, key: nat, f: EnsureFaults): Sys {
    var (c, l, _) := Ensured(s.c, s.ledger, key, f);
    s.(c := c, ledger := l)
  }

  /** Time is read as an i64 and does not run backwards; a pod may show any exits that have
      happened, late or again; keys are new when minted. */
  predicate Enabled(s: Sys, a: Action) {
    match a
    case Tick(t) => s.c.now <= t <= I64_MAX
    case ContainerExits(i) => s.c.pod.Some? && i < |s.c.pod.value|
    case PodChanges(pod) => forall e | e in ExitTimes(pod) :: e in s.exits
    case EnsureRuns(key, _) => key !in s.ledger.minted
    case _ => true
  }

  function Next(s: Sys, a: Action, expiry: nat): Sys
    requires Enabled(s, a)
  {
    match a
    case Tick(t) => s.(c := s.c.(now := t))
    case ContainerExits(i) =>
      var cs := s.c.pod.value;
      s.(c := s.c.(pod := Some(cs[i := cs[i].(lastExit := Some(s.c.now))])), exits := s.exits + [s.c.now])
    case PodChanges(pod) => s.(c := s.c.(pod := pod))
    case NodesChange(nodes) => s.(c := s.c.(nodes := nodes))
    case StateChanges(state) => s.(c := s.c.(state := state))
    case ConfigDeleted => s.(c := s.c.(config := None))
    case RotateRuns(f) => AfterRotate(s, expiry, f)
    case EnsureRuns(key, f) => AfterEnsure(s, key, f)
  }

  /** The history starts before the proxy's first key: no config Secret, no exits yet. */
  predicate Initial(s: Sys) {
    && I64_MIN <= s.c.now <= I64_MAX && s.c.config.None? && ExitTimes(s.c.pod) == {}
    && s.ledger == Ledger({}, {}, {}, {}, {})
    && s.start == s.last == s.c.now && s.exits == [] && s.aged == 0 && s.burned == 0
  }

  predicate Run(ss: seq<Sys>, acts: seq<Action>, expiry: nat) {
    && |ss| == |acts| + 1 && Initial(ss[0])
    && (forall i | 0 <= i < |acts| :: Enabled(ss[i], acts[i]) && ss[i + 1] == Next(ss[i], acts[i], expiry))
  }

  /** What may come next in a run, and what it does to what the operator sees. */
  ghost predicate MayFollow(s: Sys, a: Action, s': Sys, expiry: nat) {
    match a
    case Tick(t) => s.c.now <= t <= 0x7fff_ffff_ffff_ffff && s'.c == s.c.(now := t)
    case ContainerExits(i) =>
      s.c.pod.Some? && i < |s.c.pod.value| &&
      s'.c == s.c.(pod := Some(s.c.pod.value[i := Container(s.c.pod.value[i].crashLoop, Some(s.c.now))]))
    case PodChanges(pod) =>
      (forall k, e | pod.Some? && k in pod.value && k.lastExit == Some(e) :: e in s.exits) && s'.c == s.c.(pod := pod)
    case NodesChange(nodes) => s'.c == s.c.(nodes := nodes)
    case StateChanges(state) => s'.c == s.c.(state := state)
    case ConfigDeleted => s'.c == s.c.(config := None)
    case RotateRuns(f) => s'.c == Carried(s.c, Grade(s.c, expiry, f), f)
    case EnsureRuns(key, f) => key !in s.ledger.minted && s'.c == Ensured(s.c, s.ledger, key, f).0
  }

  /** Runs go on in every way they may. */
  lemma {:induction false} RunGoesOn(ss: seq<Sys>, acts: seq<Action>, a: Action, s': Sys, expiry: nat)
    requires Run(ss, acts, expiry) && MayFollow(ss[|acts|], a, s', expiry)
    ensures exists next: Sys :: next.c == s'.c && Run(ss + [next], acts + [a], expiry)
  {
    var s := ss[|acts|];
    assert Enabled(s, a);
    var next := Next(s, a, expiry);
    assert next.c == s'.c;
    forall i | 0 <= i < |acts + [a]|
      ensures Enabled((ss + [next])[i], (acts + [a])[i])
      ensures (ss + [next])[i + 1] == Next((ss + [next])[i], (acts + [a])[i], expiry)
    {
    }
    assert Run(ss + [next], acts + [a], expiry);
  }

  // ── time windows ────────────────────────────────────────────────────────────

  /** Saturation never changes the verdict: no clock reading lies beyond i64. */
  lemma {:induction false} WindowIsExact(config: ConfigSecret, expiry: nat, now: int)
    requires config.created.Some? ==> -0x8000_0000_0000_0000 <= config.created.value
    requires now <= 0x7fff_ffff_ffff_ffff
    ensures KeyWindowElapsed(config, expiry, now) <==>
            config.created.Some? &&
            config.created.value + (if expiry <= 0x7fff_ffff_ffff_ffff then expiry else 0x7fff_ffff_ffff_ffff) < now
  {
  }

  function ExitsUpTo(exits: seq<int>, t: int): nat {
    if exits == [] then 0 else (if exits[0] <= t then 1 else 0) + ExitsUpTo(exits[1..], t)
  }

  lemma {:induction false} ExitsUpToBounds(exits: seq<int>, a: int, b: int)
    requires a <= b
    ensures ExitsUpTo(exits, a) <= ExitsUpTo(exits, b) <= |exits|
    ensures (exists e :: e in exits && a < e <= b) ==> ExitsUpTo(exits, a) < ExitsUpTo(exits, b)
  {
    if exits != [] {
      ExitsUpToBounds(exits[1..], a, b);
      assert exits == [exits[0]] + exits[1..];
    }
  }

  lemma {:induction false} ExitsUpToAppend(exits: seq<int>, e: int, t: int)
    ensures ExitsUpTo(exits + [e], t) >= ExitsUpTo(exits, t)
  {
    if exits == [] {
      assert (exits + [e])[1..] == [];
    } else {
      assert (exits + [e])[1..] == exits[1..] + [e];
      ExitsUpToAppend(exits[1..], e, t);
    }
  }

  // ── the rotation bound ──────────────────────────────────────────────────────

  predicate Times(s: Sys) {
    && I64_MIN <= s.start <= s.last <= s.c.now <= I64_MAX
    && (forall e | e in s.exits :: e <= s.c.now)
    && (forall e | e in ExitTimes(s.c.pod) :: e in s.exits)
    && (s.c.config.Some? && s.c.config.value.created.Some? ==> s.last <= s.c.config.value.created.value <= s.c.now)
  }

  /** The key's (minted, rotated] interval lies after the last rotation, and holds either
      a full expiry window or an exit of its own. */
  predicate Amortised(s: Sys, expiry: nat) {
    && s.aged * (ExpirySecs(expiry) + 1) <= s.last - s.start
    && s.burned <= ExitsUpTo(s.exits, s.last)
  }

  /** The key in the Secret, if any, is one the ledger counts as stored. */
  predicate KeyStored(s: Sys) {
    s.c.config.Some? && s.c.config.value.key.Some? ==> s.c.config.value.key.value in s.ledger.stored
  }

  predicate Inv(s: Sys, expiry: nat) {
    Times(s) && Amortised(s, expiry) && Conserved(s.ledger) && KeyStored(s)
  }

  lemma {:induction false} MaxExitTime(pod: Option<seq<Container>>)
    ensures LastExit(pod).Some? ==> LastExit(pod).value in ExitTimes(pod)
  {
    if pod.Some? {
      MaxExitIsLatest(pod.value);
    }
  }

  /** What a verdict to drop something implies about the cluster. */
  lemma {:induction false} DropKeyMeansElapsed(c: Cluster, expiry: nat, f: RotateFaults)
    requires Grade(c, expiry, f).DropKey?
    ensures c.config.Some? && KeyWindowElapsed(c.config.value, expiry, c.now)
  {
  }

  lemma {:induction false} IdentityRejectedMeansBurned(c: Cluster, expiry: nat, f: RotateFaults)
    requires Grade(c, expiry, f) == DropIdentity(IdentityRejected)
    ensures c.config.Some? && c.config.value.created.Some?
    ensures !KeyWindowElapsed(c.config.value, expiry, c.now)
    ensures CrashLooping(c.pod)
    ensures LastExit(c.pod).Some? && LastExit(c.pod).value > c.config.value.created.value
    ensures LastExit(c.pod).value in ExitTimes(c.pod)
    ensures DeviceId(c).Some?
  {
    MaxExitTime(c.pod);
  }

  lemma {:induction false} RotateKeepsInv(s: Sys, expiry: nat, f: RotateFaults)
    requires Inv(s, expiry)
    ensures Inv(AfterRotate(s, expiry, f), expiry)
  {
    var v := Grade(s.c, expiry, f);
    var s' := AfterRotate(s, expiry, f);
    if s'.aged > s.aged {
      DropKeyMeansElapsed(s.c, expiry, f);
      WindowIsExact(s.c.config.value, expiry, s.c.now);
      ExitsUpToBounds(s.exits, s.last, s'.last);
      assert s.c.now - s.last >= ExpirySecs(expiry) + 1;
      assert s'.aged * (ExpirySecs(expiry) + 1) == s.aged * (ExpirySecs(expiry) + 1) + (ExpirySecs(expiry) + 1);
    } else if s'.burned > s.burned {
      IdentityRejectedMeansBurned(s.c, expiry, f);
      assert s.last < LastExit(s.c.pod).value <= s.c.now;
      ExitsUpToBounds(s.exits, s.last, s'.last);
    }
  }

  lemma {:induction false} StepKeepsInv(s: Sys, a: Action, expiry: nat)
    requires Inv(s, expiry) && Enabled(s, a)
    ensures Inv(Next(s, a, expiry), expiry)
  {
    match a
    case RotateRuns(f) => RotateKeepsInv(s, expiry, f);
    case EnsureRuns(key, f) => EnsureConserves(s.c, s.ledger, key, f);
    case ContainerExits(i) =>
      ExitsUpToAppend(s.exits, s.c.now, s.last);
      ExitAdds(s, i);
    case _ =>
  }

  lemma {:induction false} ExitAdds(s: Sys, i: nat)
    requires s.c.pod.Some? && i < |s.c.pod.value|
    ensures var cs := s.c.pod.value;
            ExitTimes(Some(cs[i := cs[i].(lastExit := Some(s.c.now))])) <= ExitTimes(s.c.pod) + {s.c.now}
  {
    var cs := s.c.pod.value;
    var out := cs[i := cs[i].(lastExit := Some(s.c.now))];
    forall e | e in ExitTimes(Some(out))
      ensures e in ExitTimes(s.c.pod) + {s.c.now}
    {
      var k :| 0 <= k < |out| && out[k].lastExit == Some(e);
      if k != i {
        assert cs[k] in cs;
      }
    }
  }

  lemma {:induction false} RunKeepsInv(ss: seq<Sys>, acts: seq<Action>, i: nat, expiry: nat)
    requires Run(ss, acts, expiry) && i <= |acts|
    ensures Inv(ss[i], expiry)
    ensures ss[i].start == ss[0].start
  {
    if i > 0 {
      RunKeepsInv(ss, acts, i - 1, expiry);
      StepKeepsInv(ss[i - 1], acts[i - 1], expiry);
    }
  }

  /** A rotation as the run shows it: the key went, and not because the node was lost. */
  ghost predicate Rotates(s: Sys, a: Action, s': Sys) {
    a.RotateRuns? && s.c.config.Some? && s'.c.config.None? && !NodeLost(s.c, a.f.nodeReply)
  }

  ghost function Rotations(ss: seq<Sys>, acts: seq<Action>, i: nat): nat
    requires |ss| == |acts| + 1 && i <= |acts|
  {
    if i == 0 then 0
    else Rotations(ss, acts, i - 1) + if Rotates(ss[i - 1], acts[i - 1], ss[i]) then 1 else 0
  }

  /** The container exits among the first `i` actions. */
  function ExitCount(acts: seq<Action>, i: nat): nat
    requires i <= |acts|
  {
    if i == 0 then 0 else ExitCount(acts, i - 1) + if acts[i - 1].ContainerExits? then 1 else 0
  }

  lemma {:induction false} StepCounts(s: Sys, a: Action, expiry: nat)
    requires Enabled(s, a)
    ensures var s' := Next(s, a, expiry);
            && s'.aged + s'.burned == s.aged + s.burned + (if Rotates(s, a, s') then 1 else 0)
            && |s'.exits| == |s.exits| + (if a.ContainerExits? then 1 else 0)
  {
    if a.RotateRuns? && !Unregistered(s.c) {
      NodeExactly(s.c, s.c.state.value.deviceId.value, a.f.nodeReply);
    }
    hide NodeLost, NodeExpired;
    if a.RotateRuns? && Unregistered(s.c) {
      assert !NodeLost(s.c, a.f.nodeReply) by {
        UnregisteredIsNotLost(s.c, a.f.nodeReply);
      }
    }
  }

  lemma {:induction false} UnregisteredIsNotLost(c: Cluster, reply: NodeReply)
    requires Unregistered(c)
    ensures !NodeLost(c, reply)
  {
  }

  /** The counters count what the run shows. */
  lemma {:induction false} CountersCount(ss: seq<Sys>, acts: seq<Action>, i: nat, expiry: nat)
    requires Run(ss, acts, expiry) && i <= |acts|
    ensures ss[i].aged + ss[i].burned == Rotations(ss, acts, i) && |ss[i].exits| == ExitCount(acts, i)
  {
    if i > 0 {
      CountersCount(ss, acts, i - 1, expiry);
      StepCounts(ss[i - 1], acts[i - 1], expiry);
    }
  }

  /** In every run, leaving aside lost registrations, there are at most as many rotations
      as container exits plus elapsed time divided by the key's lifetime. */
  lemma {:induction false} RotationBound(ss: seq<Sys>, acts: seq<Action>, i: nat, expiry: nat)
    requires Run(ss, acts, expiry) && i <= |acts|
    ensures Rotations(ss, acts, i) <= ExitCount(acts, i) + (ss[i].c.now - ss[0].c.now) / (ExpirySecs(expiry) + 1)
  {
    RunKeepsInv(ss, acts, i, expiry);
    CountersCount(ss, acts, i, expiry);
    var s := ss[i];
    var window := ExpirySecs(expiry) + 1;
    ExitsUpToBounds(s.exits, s.last, s.last);
    QuotientBound(s.aged, window, s.c.now - s.start);
  }

  /** The rotations counted between two states of a run, against what happened in between:
      after the first of them, each has an exit or a whole lifetime of its own. */
  ghost predicate SinceAmortised(from: Sys, to: Sys, expiry: nat) {
    && from.exits <= to.exits && from.c.now <= to.c.now
    && from.aged <= to.aged && from.burned <= to.burned
    && (to.aged + to.burned == from.aged + from.burned ||
        (from.c.now <= to.last &&
         exists aged: nat, burned: nat ::
           WindowShare(aged, burned, from, to, expiry)))
  }

  ghost predicate WindowShare(aged: nat, burned: nat, from: Sys, to: Sys, expiry: nat) {
    && aged + burned + 1 == (to.aged - from.aged) + (to.burned - from.burned)
    && aged * (ExpirySecs(expiry) + 1) <= to.last - from.c.now
    && |from.exits| <= |to.exits|
    && burned <= ExitsUpTo(to.exits[|from.exits|..], to.last)
  }

  /** An exit later than everything known at `from` is among those that came since. */
  lemma {:induction false} LateExitIsNew(from: Sys, to: Sys, e: int)
    requires from.exits <= to.exits && e in to.exits && (forall x | x in from.exits :: x <= from.c.now) && e > from.c.now
    ensures e in to.exits[|from.exits|..]
  {
    var i :| 0 <= i < |to.exits| && to.exits[i] == e;
    assert forall k | 0 <= k < |from.exits| :: to.exits[k] == from.exits[k] && from.exits[k] in from.exits;
    assert to.exits[|from.exits|..][i - |from.exits|] == e;
  }

  lemma {:induction false} RotateSince(from: Sys, s: Sys, expiry: nat, f: RotateFaults)
    requires Inv(from, expiry) && Inv(s, expiry) && SinceAmortised(from, s, expiry)
    ensures SinceAmortised(from, AfterRotate(s, expiry, f), expiry)
  {
    var s' := AfterRotate(s, expiry, f);
    if s'.aged + s'.burned != s.aged + s.burned {
      if s.aged + s.burned == from.aged + from.burned {
        assert WindowShare(0, 0, from, s', expiry);
      } else {
        var aged: nat, burned: nat :| WindowShare(aged, burned, from, s, expiry);
        if s'.aged > s.aged {
          AgedShare(from, s, s', expiry, f, aged, burned);
        } else {
          BurnedShare(from, s, s', expiry, f, aged, burned);
        }
      }
    } else if s.aged + s.burned != from.aged + from.burned {
      var aged: nat, burned: nat :| WindowShare(aged, burned, from, s, expiry);
      assert WindowShare(aged, burned, from, s', expiry);
    }
  }

  lemma {:induction false} AgedShare(from: Sys, s: Sys, s': Sys, expiry: nat, f: RotateFaults, aged: nat, burned: nat)
    requires Inv(s, expiry) && s' == AfterRotate(s, expiry, f) && s'.aged > s.aged
    requires from.c.now <= s.last && WindowShare(aged, burned, from, s, expiry)
    ensures WindowShare(aged + 1, burned, from, s', expiry)
  {
    DropKeyMeansElapsed(s.c, expiry, f);
    WindowIsExact(s.c.config.value, expiry, s.c.now);
    var window := ExpirySecs(expiry) + 1;
    assert (aged + 1) * window == aged * window + window;
    ExitsUpToBounds(s.exits[|from.exits|..], s.last, s'.last);
  }

  lemma {:induction false} BurnedShare(from: Sys, s: Sys, s': Sys, expiry: nat, f: RotateFaults, aged: nat, burned: nat)
    requires Inv(from, expiry) && Inv(s, expiry) && from.exits <= s.exits
    requires s' == AfterRotate(s, expiry, f) && s'.burned > s.burned
    requires from.c.now <= s.last && WindowShare(aged, burned, from, s, expiry)
    ensures WindowShare(aged, burned + 1, from, s', expiry)
  {
    IdentityRejectedMeansBurned(s.c, expiry, f);
    var e := LastExit(s.c.pod).value;
    assert s.last < e <= s.c.now;
    LateExitIsNew(from, s, e);
    ExitsUpToBounds(s.exits[|from.exits|..], s.last, s'.last);
  }

  /** A step that rotates nothing keeps the shares. */
  lemma {:induction false} QuietSince(from: Sys, s: Sys, s': Sys, expiry: nat)
    requires SinceAmortised(from, s, expiry)
    requires s'.aged == s.aged && s'.burned == s.burned && s'.last == s.last && s.c.now <= s'.c.now
    requires s'.exits == s.exits || s'.exits == s.exits + [s.c.now]
    ensures SinceAmortised(from, s', expiry)
  {
    if s.aged + s.burned != from.aged + from.burned {
      var aged: nat, burned: nat :| WindowShare(aged, burned, from, s, expiry);
      if s'.exits != s.exits {
        ExitsUpToAppend(s.exits[|from.exits|..], s.c.now, s.last);
        assert s'.exits[|from.exits|..] == s.exits[|from.exits|..] + [s.c.now];
      }
      assert WindowShare(aged, burned, from, s', expiry);
    }
  }

  lemma {:induction false} StepSince(from: Sys, s: Sys, a: Action, expiry: nat)
    requires Inv(from, expiry) && Inv(s, expiry) && Enabled(s, a) && SinceAmortised(from, s, expiry)
    ensures SinceAmortised(from, Next(s, a, expiry), expiry)
  {
    match a
    case RotateRuns(f) => RotateSince(from, s, expiry, f);
    case _ => QuietSince(from, s, Next(s, a, expiry), expiry);
  }

  lemma {:induction false} RunSince(ss: seq<Sys>, acts: seq<Action>, i: nat, j: nat, expiry: nat)
    requires Run(ss, acts, expiry) && i <= j <= |acts|
    ensures SinceAmortised(ss[i], ss[j], expiry)
  {
    RunKeepsInv(ss, acts, i, expiry);
    if i < j {
      RunSince(ss, acts, i, j - 1, expiry);
      RunKeepsInv(ss, acts, j - 1, expiry);
      StepSince(ss[i], ss[j - 1], acts[j - 1], expiry);
    }
  }

  /** Over any stretch of any run there is at most one rotation more than the exits in it
      plus its length divided by the key's lifetime. */
  lemma {:induction false} RotationBoundBetween(ss: seq<Sys>, acts: seq<Action>, i: nat, j: nat, expiry: nat)
    requires Run(ss, acts, expiry) && i <= j <= |acts|
    ensures Rotations(ss, acts, j) - Rotations(ss, acts, i)
            <= 1 + (ExitCount(acts, j) - ExitCount(acts, i)) + (ss[j].c.now - ss[i].c.now) / (ExpirySecs(expiry) + 1)
  {
    CountersCount(ss, acts, i, expiry);
    CountersCount(ss, acts, j, expiry);
    RunSince(ss, acts, i, j, expiry);
    RunKeepsInv(ss, acts, j, expiry);
    SharesBound(ss[i], ss[j], expiry);
  }

  lemma {:induction false} SharesBound(from: Sys, to: Sys, expiry: nat)
    requires SinceAmortised(from, to, expiry) && to.last <= to.c.now
    ensures (to.aged + to.burned) - (from.aged + from.burned)
            <= 1 + (|to.exits| - |from.exits|) + (to.c.now - from.c.now) / (ExpirySecs(expiry) + 1)
  {
    var window := ExpirySecs(expiry) + 1;
    QuotientBound(0, window, to.c.now - from.c.now);
    if to.aged + to.burned != from.aged + from.burned {
      var aged: nat, burned: nat :| WindowShare(aged, burned, from, to, expiry);
      ExitsUpToBounds(to.exits[|from.exits|..], to.last, to.last);
      QuotientBound(aged, window, to.c.now - from.c.now);
    }
  }

  lemma {:induction false} QuotientBound(k: nat, d: int, t: int)
    requires d > 0 && k * d <= t
    ensures k <= t / d
  {
    assert (t / d) * d <= t < (t / d + 1) * d;
  }

  // ── escalation ──────────────────────────────────────────────────────────────

  /** In every run, at every rotation: an online unexpired node loses nothing; a proxy that
      is not registered keeps its state Secret; and a node that exists and has not expired
      loses its state only when the proxy, crash-looping and offline, has exited after the
      current key, still inside its window, was minted. */
  lemma {:induction false} Escalation(ss: seq<Sys>, acts: seq<Action>, i: nat, expiry: nat, f: RotateFaults)
    requires Run(ss, acts, expiry) && i < |acts| && acts[i] == RotateRuns(f)
    ensures var c, c' := ss[i].c, ss[i + 1].c;
            && (Unregistered(c) ==> c'.state == c.state)
            && (NodeHealthy(c, f.nodeReply) ==> c' == c)
            && (c'.state != c.state ==>
                  || NodeLost(c, f.nodeReply)
                  || (&& PodCrashLoops(c) && !NodeHealthy(c, f.nodeReply)
                      && c.config.Some? && c.config.value.created.Some? && !KeyTooOld(c, expiry)
                      && (exists e :: e in ss[i].exits && c.config.value.created.value < e <= c.now)))
  {
    RunKeepsInv(ss, acts, i, expiry);
    var c := ss[i].c;
    var v := Grade(c, expiry, f);
    if !Unregistered(c) {
      NodeExactly(c, c.state.value.deviceId.value, f.nodeReply);
    }
    if v == DropIdentity(IdentityRejected) {
      IdentityRejectedMeansBurned(c, expiry, f);
      TooOldExactly(c, expiry);
      assert LastExit(c.pod).value in ss[i].exits;
    }
    hide NodeLost, NodeHealthy, KeyTooOld, NodeExpired, Inv, Run;
  }

  // ── key conservation ────────────────────────────────────────────────────────

  /** Every minted key was stored, was revoked again, is a known leak, or was minted by a
      call whose reply was lost. */
  predicate Conserved(l: Ledger) {
    && l.minted == l.stored + l.revoked + l.leaked + l.unseen
    && l.unseen * (l.stored + l.revoked + l.leaked) == {}
    && l.revoked * l.leaked == {}
  }

  lemma {:induction false} EnsureConserves(c: Cluster, l: Ledger, key: nat, f: EnsureFaults)
    requires Conserved(l) && key !in l.minted
    ensures Conserved(Ensured(c, l, key, f).1)
    ensures Ensured(c, l, key, f).1.unseen != l.unseen ==> f.mint.ReplyLost?
    ensures var l' := Ensured(c, l, key, f).1;
            key in l'.stored && key in l'.revoked <==>
            key in l'.minted && !f.mint.ReplyLost? && f.save.ReplyLost? && !f.revoke.Refused?
  {
  }

  lemma {:induction false} NothingUnseen(ss: seq<Sys>, acts: seq<Action>, i: nat, expiry: nat)
    requires Run(ss, acts, expiry) && i <= |acts|
    requires forall j | 0 <= j < |acts| && acts[j].EnsureRuns? :: !acts[j].faults.mint.ReplyLost?
    ensures ss[i].ledger.unseen == {}
  {
    if i > 0 {
      NothingUnseen(ss, acts, i - 1, expiry);
    }
  }

  /** In every run every minted key is accounted for, and the key in the Secret is a stored
      one; when no mint's reply is lost it was
      stored, revoked again, or is a leak the operator knows of. */
  lemma {:induction false} KeysConserved(ss: seq<Sys>, acts: seq<Action>, i: nat, expiry: nat)
    requires Run(ss, acts, expiry) && i <= |acts|
    ensures Conserved(ss[i].ledger) && KeyStored(ss[i])
    ensures (forall j | 0 <= j < |acts| && acts[j].EnsureRuns? :: !acts[j].faults.mint.ReplyLost?)
              ==> ss[i].ledger.minted == ss[i].ledger.stored + ss[i].ledger.revoked + ss[i].ledger.leaked
  {
    RunKeepsInv(ss, acts, i, expiry);
    if forall j | 0 <= j < |acts| && acts[j].EnsureRuns? :: !acts[j].faults.mint.ReplyLost? {
      NothingUnseen(ss, acts, i, expiry);
    }
  }

  /** After a reconcile that ends Ready, a proxy that has not joined holds a key inside
      its window. */
  lemma {:induction false} ReadyKeyIsInWindow(c: Cluster, l: Ledger, expiry: nat, f: RotateFaults, key: nat,
                                              g: EnsureFaults)
    requires DeviceId(c).None? && c.now <= I64_MAX
    requires c.config.Some? && c.config.value.created.Some? ==> I64_MIN <= c.config.value.created.value
    requires RotateOk(Grade(c, expiry, f), f)
    requires Ensured(Carried(c, Grade(c, expiry, f), f), l, key, g).2 == Ready
    ensures var after := Ensured(Carried(c, Grade(c, expiry, f), f), l, key, g).0;
            && after.config.Some? && after.config.value.key.Some?
            && !KeyWindowElapsed(after.config.value, expiry, after.now)
  {
  }

  // ── recovery ────────────────────────────────────────────────────────────────

  /** Rotating and then ensuring a key, with every call working. */
  function CleanReconcile(c: Cluster, l: Ledger, expiry: nat, key: nat): Cluster {
    var f := RotateFaults(false, NodeAnswered, false, false, Delivered, Delivered);
    var g := EnsureFaults(false, NoUserWanted, Delivered, Delivered, Delivered);
    Ensured(Carried(c, Grade(c, expiry, f), f), l, key, g).0
  }

  function FreshKey(c: Cluster, key: nat): Option<ConfigSecret> {
    Some(ConfigSecret(Some(key), Some(c.now)))
  }

  /** Headscale lists the node as present and unexpired, yet the proxy crash-loops offline. */
  predicate Stuck(c: Cluster) {
    && c.state.Some? && c.state.value.deviceId.Some? && c.state.value.deviceId.value in c.nodes
    && Unexpired(c.nodes[c.state.value.deviceId.value], c.now) && !c.nodes[c.state.value.deviceId.value].online
    && PodCrashLoops(c)
    && c.config.Some? && c.config.value.key.Some? && c.config.value.created.Some?
  }

  predicate Lost(c: Cluster) {
    c.state.Some? && c.state.value.deviceId.Some? &&
    (c.state.value.deviceId.value in c.nodes ==> !Unexpired(c.nodes[c.state.value.deviceId.value], c.now))
  }

  /** Every dead end is left, and no more is thrown away than it takes.  A lost registration
      starts over with a fresh key and no state.  A stuck proxy first gets a fresh key for
      the identity it has; while nothing exits after that key was minted, nothing changes,
      however often it is reconciled; once something has, the identity goes too. */
  lemma {:induction false} DeadEndsAreLeft(c: Cluster, l: Ledger, expiry: nat, key: nat)
    ensures var after := CleanReconcile(c, l, expiry, key);
            && (Lost(c) ==> after == c.(config := FreshKey(c, key), state := None))
            && (Stuck(c) ==>
                  var elapsed := KeyWindowElapsed(c.config.value, expiry, c.now);
                  after == if elapsed then c.(config := FreshKey(c, key))
                           else if Burned(c.config.value, c.pod) then c.(config := FreshKey(c, key), state := None)
                           else c)
            && (DeviceId(c).None? && c.config.Some? && KeyWindowElapsed(c.config.value, expiry, c.now) ==>
                  after == c.(config := FreshKey(c, key)))
  {
    if Stuck(c) {
      MaxExitIsLatest(c.pod.value);
    }
  }
}
