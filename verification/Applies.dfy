/** Whole reconciles of one proxy: retarget, rotate, ensure a key, record the instance.

    The question is whether the key that a reconcile leaves in place was minted in the
    instance the parent now wants.  Only the state Secret remembers the instance, and it is
    written after the key. */
module Applies {
  import opened Wrappers
  import opened Remote
  import opened ProxyKeys
  import Teardown

  /** `minter` remembers, for the theorems, which instance each key was minted in. */
  datatype Sys = Sys(c: Cluster, ledger: Ledger, minter: map<nat, string>)

  /** How one reconcile went: the retarget from `before` to `after`, then the faults of the
      later steps.  `record` is the fate of the write to the state Secret. */
  datatype Trace = Trace(
    before: Teardown.Site,
    after: Teardown.Site,
    reset: Teardown.RetargetFaults,
    resetOk: bool,
    rotate: RotateFaults,
    key: nat,
    ensure: EnsureFaults,
    record: Rpc)

  function StoredKey(c: Cluster): Option<nat> {
    if c.config.Some? then c.config.value.key else None
  }

  function RecordedRef(c: Cluster): Option<string> {
    if c.state.Some? then c.state.value.headscaleRef else None
  }

  predicate ValidTrace(s: Sys, wanted: string, t: Trace) {
    && t.before.state == s.c.state && t.before.config == s.c.config
    && Teardown.RetargetAttempt(t.before, wanted, t.reset, t.after, t.resetOk)
    && t.key !in s.ledger.minted
  }

  function AfterReset(c: Cluster, t: Trace): Cluster {
    c.(state := t.after.state, config := t.after.config)
  }

  /** The apply that records the instance leaves what the proxy wrote there alone. */
  function AfterRecord(c: Cluster, wanted: string, rpc: Rpc): Cluster {
    if rpc.Refused? then c else c.(state := Some(StateSecret(DeviceId(c), Some(wanted))))
  }

  /** One reconcile, and whether it got past `ensure_auth_key`. */
  function Applied(s: Sys, wanted: string, expiry: nat, t: Trace): (Sys, bool) {
    var c1 := AfterReset(s.c, t);
    if !t.resetOk then (s.(c := c1), false)
    else
      var v := Grade(c1, expiry, t.rotate);
      var c2 := Carried(c1, v, t.rotate);
      if !RotateOk(v, t.rotate) then (s.(c := c2), false)
      else
        var (c3, ledger, reply) := Ensured(c2, s.ledger, t.key, t.ensure);
        var minter := if ledger.minted == s.ledger.minted then s.minter else s.minter[t.key := wanted];
        if reply != Ready then (Sys(c3, ledger, minter), false)
        else (Sys(AfterRecord(c3, wanted, t.record), ledger, minter), true)
  }

  predicate KeysKnown(s: Sys) {
    s.ledger.minted == s.minter.Keys && (StoredKey(s.c).Some? ==> StoredKey(s.c).value in s.minter)
  }

  /** The stored key is from the wanted instance. */
  predicate KeyIsFrom(s: Sys, wanted: string) {
    StoredKey(s.c).Some? && StoredKey(s.c).value in s.minter && s.minter[StoredKey(s.c).value] == wanted
  }

  // ── one reconcile, exactly ──────────────────────────────────────────────────

  /** What a look at the cluster shows when rotation has no quarrel with the stored key: a
      proxy that has not joined is inside the key's window; one that has is present and
      unexpired, and is online, or not crash-looping, or has not yet burned a key that is
      still inside its window. */
  ghost predicate KeyAboveSuspicion(c: Cluster, expiry: nat, reply: NodeReply)
    requires c.config.Some?
  {
    var elapsed := KeyWindowElapsed(c.config.value, expiry, c.now);
    if Unregistered(c) then !elapsed
    else
      && !NodeLost(c, reply)
      && (NodeHealthy(c, reply) || !PodCrashLoops(c) || (!elapsed && !DiedOnKey(c)))
  }

  /** A key from elsewhere that nothing gives away: the state Secret names no other
      instance, and the cluster gives rotation no reason to drop the key. */
  ghost predicate StaleKeyStays(s: Sys, wanted: string, expiry: nat, reply: NodeReply) {
    && StoredKey(s.c).Some? && !KeyIsFrom(s, wanted)
    && (RecordedRef(s.c) == None || RecordedRef(s.c) == Some(wanted))
    && KeyAboveSuspicion(s.c, expiry, reply)
  }

  /** When every call of a rotation worked, the key is still there exactly if it was above
      suspicion. */
  lemma {:induction false} RotationKeepsIff(c: Cluster, expiry: nat, f: RotateFaults)
    requires c.config.Some? && RotateOk(Grade(c, expiry, f), f)
    ensures Carried(c, Grade(c, expiry, f), f).config ==
            if KeyAboveSuspicion(c, expiry, f.nodeReply) then c.config else None
  {
    if c.pod.Some? {
      MaxExitIsLatest(c.pod.value);
    }
    if !Unregistered(c) {
      NodeExactly(c, c.state.value.deviceId.value, f.nodeReply);
    }
    hide NodeLost, NodeHealthy, NodeExpired;
  }

  /** A retarget that succeeded either had nothing to do or left no key behind. */
  lemma {:induction false} ResetDropsForeignKey(s: Sys, wanted: string, t: Trace)
    requires ValidTrace(s, wanted, t) && t.resetOk
    ensures if RecordedRef(s.c) == None || RecordedRef(s.c) == Some(wanted) then AfterReset(s.c, t) == s.c
            else StoredKey(AfterReset(s.c, t)).None? && AfterReset(s.c, t).config.None?
  {
    assert Teardown.Retarget(t.before, wanted).None? <==> RecordedRef(s.c) == None || RecordedRef(s.c) == Some(wanted);
  }

  /** After a reconcile that got its key, the key is from the wanted instance unless a stale
      one stayed unnoticed, and that is the only exception. */
  lemma {:induction false} ReadyKeyExactly(s: Sys, wanted: string, expiry: nat, t: Trace)
    requires KeysKnown(s) && ValidTrace(s, wanted, t) && Applied(s, wanted, expiry, t).1
    ensures KeysKnown(Applied(s, wanted, expiry, t).0)
    ensures StoredKey(Applied(s, wanted, expiry, t).0.c).Some?
    ensures KeyIsFrom(Applied(s, wanted, expiry, t).0, wanted) <==> !StaleKeyStays(s, wanted, expiry, t.rotate.nodeReply)
  {
    ResetDropsForeignKey(s, wanted, t);
    var c1 := AfterReset(s.c, t);
    CarriedKey(c1, Grade(c1, expiry, t.rotate), t.rotate);
    if c1.config.Some? {
      RotationKeepsIff(c1, expiry, t.rotate);
    }
  }

  /** A healthy proxy with a key, whose instance is recorded or was not yet: a reconcile that can
      read what it asks for changes nothing but the record, which keeps the node. */
  lemma {:induction false} HealthyIsLeftAlone(s: Sys, wanted: string, expiry: nat, t: Trace)
    requires ValidTrace(s, wanted, t) && NodeHealthy(s.c, t.rotate.nodeReply)
    requires s.c.state.value.headscaleRef in {None, Some(wanted)}
    requires s.c.config.Some? && s.c.config.value.key.Some?
    requires !t.reset.stateGetFails && !t.rotate.stateGetFails && !t.ensure.configGetFails
    ensures Applied(s, wanted, expiry, t) ==
            (if t.record.Refused? then s
             else s.(c := s.c.(state := Some(StateSecret(s.c.state.value.deviceId, Some(wanted))))), true)
  {
    NodeExactly(s.c, s.c.state.value.deviceId.value, t.rotate.nodeReply);
    assert Teardown.Retarget(t.before, wanted).None?;
    hide NodeHealthy;
  }

  function Untouched(c: Cluster): Teardown.Site {
    Teardown.Site(c.state, c.config, {}, map[], false, false)
  }

  /** A reconcile with nothing to retarget in which every call works, but for the write that
      records the instance. */
  function PlainTrace(c: Cluster, key: nat, record: Rpc): Trace {
    Trace(Untouched(c), Untouched(c),
          Teardown.RetargetFaults(false, Teardown.Connects, Delivered, Delivered, Delivered), true,
          RotateFaults(false, NodeAnswered, false, false, Delivered, Delivered), key,
          EnsureFaults(false, NoUserWanted, Delivered, Delivered, Delivered), record)
  }

  /** The exception happens: a key is minted in one instance, recording the instance fails,
      and the parent is retargeted before the next reconcile. */
  lemma {:induction false} StaleKeyHappens(expiry: nat, other: string, wanted: string)
    returns (s: Sys, first: Trace, second: Trace)
    requires other != wanted
    ensures s == Sys(Cluster(0, None, None, map[], None), Ledger({}, {}, {}, {}, {}), map[])
    ensures ValidTrace(s, other, first) && first.record.Refused? && Applied(s, other, expiry, first).1
    ensures var s1 := Applied(s, other, expiry, first).0;
            && KeyIsFrom(s1, other)
            && ValidTrace(s1, wanted, second) && Applied(s1, wanted, expiry, second).1
            && !KeyIsFrom(Applied(s1, wanted, expiry, second).0, wanted)
  {
    s := Sys(Cluster(0, None, None, map[], None), Ledger({}, {}, {}, {}, {}), map[]);
    first := PlainTrace(s.c, 0, Refused);
    var s1 := Applied(s, other, expiry, first).0;
    assert s1.c == s.c.(config := Some(ConfigSecret(Some(0), Some(0))));
    second := PlainTrace(s1.c, 1, Delivered);
  }

  lemma {:induction false} CarriedKey(c: Cluster, v: Verdict, f: RotateFaults)
    ensures Carried(c, v, f).config == c.config || Carried(c, v, f).config == None
    ensures RecordedRef(Carried(c, v, f)) == RecordedRef(c) || Carried(c, v, f).config == None
  {
  }

  // ── runs ────────────────────────────────────────────────────────────────────

  datatype Action =
    | Reconcile(trace: Trace)
    | Retargeted(wanted: string)            // the parent's headscale-ref is edited
    | Registers(deviceId: Option<nat>)      // the proxy writes its node id
    | ConfigGone
    | Elsewhere(now: int, nodes: map<nat, HsNode>, pod: Option<seq<Container>>)

  datatype State = State(s: Sys, wanted: string)

  /** The state Secret records where the stored key is from, or it is from `wanted`. */
  predicate Safe(s: Sys, wanted: string) {
    KeysKnown(s) &&
    (StoredKey(s.c).Some? ==> KeyIsFrom(s, wanted) || RecordedRef(s.c) == Some(s.minter[StoredKey(s.c).value]))
  }

  /** A retarget is made only while the key's instance is recorded. */
  predicate Enabled(st: State, a: Action) {
    match a
    case Reconcile(t) => ValidTrace(st.s, st.wanted, t)
    case Retargeted(w) => Safe(st.s, w)
    case _ => true
  }

  function Next(st: State, a: Action, expiry: nat): State {
    var c := st.s.c;
    match a
    case Reconcile(t) => st.(s := Applied(st.s, st.wanted, expiry, t).0)
    case Retargeted(w) => st.(wanted := w)
    case Registers(id) =>
      if c.state.None? then st
      else st.(s := st.s.(c := c.(state := Some(c.state.value.(deviceId := id)))))
    case ConfigGone => st.(s := st.s.(c := c.(config := None)))
    case Elsewhere(now, nodes, pod) => st.(s := st.s.(c := c.(now := now, nodes := nodes, pod := pod)))
  }

  predicate Run(ss: seq<State>, acts: seq<Action>, expiry: nat) {
    && |ss| == |acts| + 1 && Safe(ss[0].s, ss[0].wanted)
    && (forall i | 0 <= i < |acts| :: Enabled(ss[i], acts[i]) && ss[i + 1] == Next(ss[i], acts[i], expiry))
  }

  /** What may come next in a run, and what it leaves. */
  ghost predicate MayFollow(st: State, a: Action, st': State, expiry: nat) {
    var c := st.s.c;
    match a
    case Reconcile(t) =>
      ValidTrace(st.s, st.wanted, t) && st' == State(Applied(st.s, st.wanted, expiry, t).0, st.wanted)
    case Retargeted(w) => Safe(st.s, w) && st' == State(st.s, w)
    case Registers(id) =>
      && c.state.Some?
      && st' == st.(s := st.s.(c := c.(state := Some(StateSecret(id, c.state.value.headscaleRef)))))
    case ConfigGone => st' == st.(s := st.s.(c := c.(config := None)))
    case Elsewhere(now, nodes, pod) => st' == st.(s := st.s.(c := Cluster(now, c.state, c.config, nodes, pod)))
  }

  /** Runs go on in every way they may. */
  lemma {:induction false} RunGoesOn(ss: seq<State>, acts: seq<Action>, a: Action, st': State, expiry: nat)
    requires Run(ss, acts, expiry) && MayFollow(ss[|acts|], a, st', expiry)
    ensures Run(ss + [st'], acts + [a], expiry)
  {
    assert Enabled(ss[|acts|], a) && st' == Next(ss[|acts|], a, expiry);
    hide Enabled, Next, Safe;
    forall i | 0 <= i < |acts + [a]|
      ensures Enabled((ss + [st'])[i], (acts + [a])[i])
      ensures (ss + [st'])[i + 1] == Next((ss + [st'])[i], (acts + [a])[i], expiry)
    {
    }
  }

  /** A failed retarget gives up the record of a key only after the key itself. */
  lemma {:induction false} ResetKeepsSafe(s: Sys, wanted: string, t: Trace)
    requires Safe(s, wanted) && ValidTrace(s, wanted, t)
    ensures Safe(s.(c := AfterReset(s.c, t)), wanted)
    ensures t.resetOk && StoredKey(AfterReset(s.c, t)).Some? ==> KeyIsFrom(s.(c := AfterReset(s.c, t)), wanted)
  {
    if t.resetOk {
      ResetDropsForeignKey(s, wanted, t);
    }
  }

  lemma {:induction false} RotateKeepsSafe(s: Sys, wanted: string, v: Verdict, f: RotateFaults)
    requires KeysKnown(s) && (StoredKey(s.c).Some? ==> KeyIsFrom(s, wanted))
    ensures var out := s.(c := Carried(s.c, v, f));
            KeysKnown(out) && (StoredKey(out.c).Some? ==> KeyIsFrom(out, wanted))
  {
    CarriedKey(s.c, v, f);
  }

  lemma {:induction false} EnsureKeepsSafe(s: Sys, wanted: string, key: nat, f: EnsureFaults)
    requires KeysKnown(s) && (StoredKey(s.c).Some? ==> KeyIsFrom(s, wanted)) && key !in s.ledger.minted
    ensures var (c, ledger, reply) := Ensured(s.c, s.ledger, key, f);
            var out := Sys(c, ledger, if ledger.minted == s.ledger.minted then s.minter else s.minter[key := wanted]);
            && KeysKnown(out) && (StoredKey(c).Some? ==> KeyIsFrom(out, wanted))
            && (reply == Ready ==> StoredKey(c).Some?)
  {
  }

  lemma {:induction false} ReconcileKeepsSafe(s: Sys, wanted: string, expiry: nat, t: Trace)
    requires Safe(s, wanted) && ValidTrace(s, wanted, t)
    ensures Safe(Applied(s, wanted, expiry, t).0, wanted)
    ensures Applied(s, wanted, expiry, t).1 ==> KeyIsFrom(Applied(s, wanted, expiry, t).0, wanted)
    ensures Applied(s, wanted, expiry, t).1 && !t.record.Refused? ==>
              RecordedRef(Applied(s, wanted, expiry, t).0.c) == Some(wanted)
  {
    ResetKeepsSafe(s, wanted, t);
    if t.resetOk {
      var s1 := s.(c := AfterReset(s.c, t));
      var v := Grade(s1.c, expiry, t.rotate);
      RotateKeepsSafe(s1, wanted, v, t.rotate);
      if RotateOk(v, t.rotate) {
        EnsureKeepsSafe(s1.(c := Carried(s1.c, v, t.rotate)), wanted, t.key, t.ensure);
      }
    }
  }

  lemma {:induction false} StepKeepsSafe(st: State, a: Action, expiry: nat)
    requires Safe(st.s, st.wanted) && Enabled(st, a)
    ensures Safe(Next(st, a, expiry).s, Next(st, a, expiry).wanted)
  {
    match a
    case Reconcile(t) => ReconcileKeepsSafe(st.s, st.wanted, expiry, t);
    case _ =>
  }

  lemma {:induction false} RunKeepsSafe(ss: seq<State>, acts: seq<Action>, i: nat, expiry: nat)
    requires Run(ss, acts, expiry) && i <= |acts|
    ensures Safe(ss[i].s, ss[i].wanted)
  {
    if i > 0 {
      RunKeepsSafe(ss, acts, i - 1, expiry);
      StepKeepsSafe(ss[i - 1], acts[i - 1], expiry);
    }
  }

  /** In every run in which the parent is retargeted only while the state Secret records
      where the stored key is from, every reconcile that gets its key holds one from the
      wanted instance; and one that also records the instance makes the next retarget safe,
      whatever it may be. */
  lemma {:induction false} KeysFollowTheParent(ss: seq<State>, acts: seq<Action>, i: nat, expiry: nat)
    requires Run(ss, acts, expiry) && i < |acts| && acts[i].Reconcile?
    requires Applied(ss[i].s, ss[i].wanted, expiry, acts[i].trace).1
    ensures KeyIsFrom(ss[i + 1].s, ss[i].wanted)
    ensures !acts[i].trace.record.Refused? ==> forall w :: Enabled(ss[i + 1], Retargeted(w))
  {
    RunKeepsSafe(ss, acts, i, expiry);
    ReconcileKeepsSafe(ss[i].s, ss[i].wanted, expiry, acts[i].trace);
  }
}
