/** Giving up an Ingress without losing another deployment's finalizer.

    A release clears the status, reads the object, drops its own finalizer from what it
    read, and patches the result back under the version it read. */
module Finalizers {
  import opened Ordering

  type Deployment = string   // identified by its finalizer

  /** The live object; every accepted write moves the version. */
  datatype Live = Live(version: nat, finalizers: seq<Deployment>)

  datatype Phase = Resting | Cleared | Read(version: nat, remaining: seq<Deployment>)

  datatype State = State(live: Live, phases: map<Deployment, Phase>)

  datatype Outcome = Accepted | Conflicted | Lost   // lost: never reached the server

  datatype Action =
    | ClearStatus(d: Deployment)
    | Get(d: Deployment)
    | Patch(d: Deployment, arrives: bool)
    | Add(d: Deployment)         // another reconcile adopts the object
    | Touch                      // any write that leaves the finalizers alone

  function PhaseOf(s: State, d: Deployment): Phase {
    if d in s.phases then s.phases[d] else Resting
  }

  predicate Enabled(s: State, a: Action) {
    match a
    case ClearStatus(_) => true   // a retry may start over from anywhere
    case Get(d) => PhaseOf(s, d).Cleared?
    case Patch(d, _) => PhaseOf(s, d).Read?
    case _ => true
  }

  /** The server's side of the guarded patch. */
  function PatchOutcome(s: State, d: Deployment, arrives: bool): Outcome
    requires PhaseOf(s, d).Read?
  {
    if !arrives then Lost else if PhaseOf(s, d).version == s.live.version then Accepted else Conflicted
  }

  function Next(s: State, a: Action): State
    requires Enabled(s, a)
  {
    match a
    case ClearStatus(d) => State(s.live.(version := s.live.version + 1), s.phases[d := Cleared])
    case Get(d) => s.(phases := s.phases[d := Read(s.live.version, Retain(s.live.finalizers, d))])
    case Patch(d, arrives) =>
      var done := s.phases[d := Resting];
      if PatchOutcome(s, d, arrives).Accepted?
      then State(Live(s.live.version + 1, PhaseOf(s, d).remaining), done)
      else s.(phases := done)
    case Add(d) =>
      if d in s.live.finalizers then s
      else s.(live := Live(s.live.version + 1, s.live.finalizers + [d]))
    case Touch => s.(live := s.live.(version := s.live.version + 1))
  }

  /** What a deployment has read is not newer than the object, and still accurate while the
      version is the same. */
  predicate Inv(s: State) {
    forall d | d in s.phases && s.phases[d].Read? ::
      && s.phases[d].version <= s.live.version
      && (s.phases[d].version == s.live.version ==> s.phases[d].remaining == Retain(s.live.finalizers, d))
  }

  lemma {:induction false} StepKeepsInv(s: State, a: Action)
    requires Inv(s) && Enabled(s, a)
    ensures Inv(Next(s, a))
  {
  }

  predicate Run(ss: seq<State>, acts: seq<Action>) {
    && |ss| == |acts| + 1 && ss[0].phases == map[]
    && (forall i | 0 <= i < |acts| :: Enabled(ss[i], acts[i]) && ss[i + 1] == Next(ss[i], acts[i]))
  }

  /** What may come next in a run, and what it makes of the object. */
  ghost predicate MayFollow(s: State, a: Action, live: Live) {
    match a
    case ClearStatus(_) => live == Live(s.live.version + 1, s.live.finalizers)
    case Get(d) => d in s.phases && s.phases[d].Cleared? && live == s.live
    case Patch(d, arrives) =>
      && d in s.phases && s.phases[d].Read?
      && live == (if arrives && s.phases[d].version == s.live.version
                  then Live(s.live.version + 1, s.phases[d].remaining) else s.live)
    case Add(d) => live == if d in s.live.finalizers then s.live else Live(s.live.version + 1, s.live.finalizers + [d])
    case Touch => live == Live(s.live.version + 1, s.live.finalizers)
  }

  /** Runs go on in every way they may. */
  lemma {:induction false} RunGoesOn(ss: seq<State>, acts: seq<Action>, a: Action, live: Live)
    requires Run(ss, acts) && MayFollow(ss[|acts|], a, live)
    ensures exists next: State :: next.live == live && Run(ss + [next], acts + [a])
  {
    assert Enabled(ss[|acts|], a);
    var next := Next(ss[|acts|], a);
    assert next.live == live;
    hide Enabled, Next;
    forall i | 0 <= i < |acts + [a]|
      ensures Enabled((ss + [next])[i], (acts + [a])[i])
      ensures (ss + [next])[i + 1] == Next((ss + [next])[i], (acts + [a])[i])
    {
    }
    assert Run(ss + [next], acts + [a]);
  }

  lemma {:induction false} RunKeepsInv(ss: seq<State>, acts: seq<Action>, i: nat)
    requires Run(ss, acts) && i <= |acts|
    ensures Inv(ss[i])
  {
    if i > 0 {
      RunKeepsInv(ss, acts, i - 1);
      StepKeepsInv(ss[i - 1], acts[i - 1]);
    }
  }

  /** In every interleaving an accepted patch takes exactly the deployment's own finalizer
      off the list as it stands at that moment; otherwise the object is unchanged, and an
      object that moved since it was read is answered with a conflict. */
  lemma {:induction false} PatchRemovesOnlyItsOwn(ss: seq<State>, acts: seq<Action>, i: nat, d: Deployment,
                                                  arrives: bool)
    requires Run(ss, acts) && i < |acts| && acts[i] == Patch(d, arrives)
    ensures PatchOutcome(ss[i], d, arrives).Accepted? ==>
              && ss[i + 1].live.finalizers == Retain(ss[i].live.finalizers, d)
              && d !in ss[i + 1].live.finalizers
              && KeepsOthers(ss[i].live.finalizers, d, ss[i + 1].live.finalizers)
    ensures PatchOutcome(ss[i], d, arrives).Accepted? <==> arrives && PhaseOf(ss[i], d).version == ss[i].live.version
    ensures !PatchOutcome(ss[i], d, arrives).Accepted? ==> ss[i + 1].live == ss[i].live
    ensures PatchOutcome(ss[i], d, arrives).Conflicted? <==> arrives && PhaseOf(ss[i], d).version < ss[i].live.version
  {
    RunKeepsInv(ss, acts, i);
    RetainKeepsOthers(ss[i].live.finalizers, d);
  }

  predicate Releases(a: Action, d: Deployment) {
    a.Patch? && a.d == d
  }

  lemma {:induction false} StepKeepsFinalizer(s: State, a: Action, d: Deployment)
    requires Inv(s) && Enabled(s, a) && !Releases(a, d)
    ensures multiset(Next(s, a).live.finalizers)[d] == multiset(s.live.finalizers)[d] ||
            (a == Add(d) && d !in s.live.finalizers)
  {
    match a
    case Patch(e, arrives) => RetainKeepsOthers(s.live.finalizers, e);
    case _ =>
  }

  /** So a deployment's finalizer stays, as often as it occurs, until the deployment itself
      patches it away, whatever the others do meanwhile. */
  lemma {:induction false} FinalizerNeverLost(ss: seq<State>, acts: seq<Action>, i: nat, j: nat, d: Deployment)
    requires Run(ss, acts) && i <= j <= |acts|
    requires d in ss[i].live.finalizers
    requires forall k | i <= k < j :: !Releases(acts[k], d)
    ensures multiset(ss[j].live.finalizers)[d] == multiset(ss[i].live.finalizers)[d]
    ensures d in ss[j].live.finalizers
  {
    if i < j {
      FinalizerNeverLost(ss, acts, i, j - 1, d);
      RunKeepsInv(ss, acts, j - 1);
      StepKeepsFinalizer(ss[j - 1], acts[j - 1], d);
    }
  }
}
