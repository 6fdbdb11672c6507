/** Removing a proxy's node from headscale: on teardown, and when the parent is pointed at
    another headscale instance. */
module Teardown {
  import opened Wrappers
  import opened Remote
  import opened ProxyKeys

  /** `instances` are the headscale instances with their registered nodes.  `orphaned` is
      set when a NodeOrphaned warning is handed to the event recorder; `unreachable` when
      connecting to the old instance was answered with 404. */
  datatype Site = Site(
    state: Option<StateSecret>,
    config: Option<ConfigSecret>,
    others: set<string>,
    instances: map<string, set<nat>>,
    orphaned: bool,
    unreachable: bool)

  datatype Connect = Connects | Answers404 | ConnectFails

  predicate Registered(s: Site, instance: string, node: nat) {
    instance in s.instances && node in s.instances[instance]
  }

  function Deregistered(s: Site, instance: string, node: nat): Site {
    if instance in s.instances
    then s.(instances := s.instances[instance := s.instances[instance] - {node}])
    else s
  }

  /** The node and the instance it is to be removed from, as the state Secret records. */
  function Recorded(s: Site, fallback: string): Option<(string, nat)> {
    if s.state.None? || s.state.value.deviceId.None? then None
    else
      var instance := if s.state.value.headscaleRef.Some? then s.state.value.headscaleRef.value else fallback;
      Some((instance, s.state.value.deviceId.value))
  }

  /** The instance and the node, if any, the state Secret still belongs to when the parent
      now wants `newRef`. */
  function Retarget(s: Site, newRef: string): Option<(string, Option<nat>)> {
    if s.state.Some? && s.state.value.headscaleRef.Some? && s.state.value.headscaleRef.value != newRef
    then Some((s.state.value.headscaleRef.value, s.state.value.deviceId))
    else None
  }

  // ── what one call may do ────────────────────────────────────────────────────

  datatype TeardownFaults = TeardownFaults(
    stateGetFails: bool,
    connect: Connect,
    deleteNode: Rpc,
    deleteState: Rpc,
    deleteConfig: Rpc,
    deleteOthers: set<string>)   // the other resources whose deletion works

  datatype RetargetFaults = RetargetFaults(
    stateGetFails: bool,
    connect: Connect,
    deleteNode: Rpc,
    deleteConfig: Rpc,
    deleteState: Rpc)

  predicate SameSecrets(s: Site, s': Site) {
    s'.state == s.state && s'.config == s.config && s'.others == s.others
  }

  /** What a deletion leaves of a Secret: nothing, unless it was refused. */
  predicate GoneUnlessRefused<T(==)>(before: Option<T>, after: Option<T>, rpc: Rpc) {
    after == if rpc.Refused? then before else None
  }

  /** The node has been taken out of the instance exactly if a call was made and carried out. */
  predicate NodeDeleted(s: Site, s': Site, instance: string, node: nat, called: bool, rpc: Rpc) {
    s'.instances == if called && !rpc.Refused? then Deregistered(s, instance, node).instances else s.instances
  }

  /** A teardown fails exactly when the state Secret could not be read or the recorded node
      not be deleted, and then every resource, and with it the node id, stays; the warning is
      given exactly when connecting failed.  Otherwise resources go as far as that works. */
  predicate TeardownAttempt(s: Site, fallback: string, f: TeardownFaults, s': Site, ok: bool) {
    var recorded := Recorded(s, fallback);
    var called := !f.stateGetFails && recorded.Some? && f.connect.Connects?;
    && (ok <==> !f.stateGetFails && (called ==> f.deleteNode.Delivered?))
    && (if ok
        then GoneUnlessRefused(s.state, s'.state, f.deleteState) && GoneUnlessRefused(s.config, s'.config, f.deleteConfig)
          && s'.others == s.others - f.deleteOthers
        else SameSecrets(s, s'))
    && (s'.orphaned <==> s.orphaned || (!f.stateGetFails && recorded.Some? && !f.connect.Connects?))
    && (if recorded.Some? then NodeDeleted(s, s', recorded.value.0, recorded.value.1, called, f.deleteNode)
        else s'.instances == s.instances)
    && s'.unreachable == s.unreachable
  }

  /** A retarget lets go of the Secrets once the node is deleted, there is none, or the old
      instance answered 404: the config Secret first, the state Secret only after that. */
  predicate RetargetAttempt(s: Site, newRef: string, f: RetargetFaults, s': Site, ok: bool) {
    && s'.others == s.others && s'.orphaned == s.orphaned
    && (match Retarget(s, newRef)
        case None => s' == s && (ok <==> !f.stateGetFails)
        case Some((oldRef, node)) =>
          var asked := !f.stateGetFails && node.Some?;
          var called := asked && f.connect.Connects?;
          var released := !f.stateGetFails &&
                          (node.None? || f.connect.Answers404? || (f.connect.Connects? && f.deleteNode.Delivered?));
          && (s'.unreachable <==> s.unreachable || (asked && f.connect.Answers404?))
          && (if node.Some? then NodeDeleted(s, s', oldRef, node.value, called, f.deleteNode)
              else s'.instances == s.instances)
          && (if released then GoneUnlessRefused(s.config, s'.config, f.deleteConfig) else s'.config == s.config)
          && (if released && f.deleteConfig.Delivered? then GoneUnlessRefused(s.state, s'.state, f.deleteState)
              else s'.state == s.state)
          && (ok <==> released && f.deleteConfig.Delivered? && f.deleteState.Delivered?))
  }

  // ── the two procedures ──────────────────────────────────────────────────────

  class ProxySite {
    var state: Option<StateSecret>
    var config: Option<ConfigSecret>
    var others: set<string>
    var instances: map<string, set<nat>>
    var orphaned: bool
    var unreachable: bool

    constructor (s: Site)
      ensures View() == s
    {
      state, config, others, instances, orphaned, unreachable :=
        s.state, s.config, s.others, s.instances, s.orphaned, s.unreachable;
    }

    function View(): Site
      reads this
    {
      Site(state, config, others, instances, orphaned, unreachable)
    }

    /** DeleteNode; a node that is not there counts as deleted. */
    method DeleteNode(instance: string, node: nat, rpc: Rpc) returns (ok: bool)
      modifies this`instances
      ensures View() == if rpc.Refused? then old(View()) else Deregistered(old(View()), instance, node)
      ensures ok == rpc.Delivered?
    {
      if !rpc.Refused? && instance in instances {
        instances := instances[instance := instances[instance] - {node}];
      }
      ok := rpc.Delivered?;
    }

    /** Best effort: every failure is swallowed. */
    method CleanupProxyResources(f: TeardownFaults)
      modifies this`state, this`config, this`others
      ensures state == if f.deleteState.Refused? then old(state) else None
      ensures config == if f.deleteConfig.Refused? then old(config) else None
      ensures others == old(others) - f.deleteOthers
    {
      others := others - f.deleteOthers;
      if !f.deleteConfig.Refused? {
        config := None;
      }
      if !f.deleteState.Refused? {
        state := None;
      }
    }

    method DeregisterAndCleanup(fallback: string, f: TeardownFaults) returns (ok: bool)
      modifies this
      ensures TeardownAttempt(old(View()), fallback, f, View(), ok)
      ensures ok && old(state).Some? && old(state).value.deviceId.Some? ==>
                var ref := old(state).value.headscaleRef;
                var instance := if ref.Some? then ref.value else fallback;
                if f.connect.Connects?
                then !(instance in instances && old(state).value.deviceId.value in instances[instance])
                else orphaned
    {
      if f.stateGetFails {
        return false;
      }
      match Recorded(View(), fallback) {
        case None =>
        case Some(r) =>
          if !f.connect.Connects? {
            orphaned := true;
          } else {
            ok := DeleteNode(r.0, r.1, f.deleteNode);
            if !ok {
              return false;
            }
          }
      }
      CleanupProxyResources(f);
      ok := true;
    }

    method ResetIfRetargeted(newRef: string, f: RetargetFaults) returns (ok: bool)
      modifies this
      ensures RetargetAttempt(old(View()), newRef, f, View(), ok)
      ensures ok ==> Retarget(View(), newRef).None?
    {
      if f.stateGetFails {
        return false;
      }
      match Retarget(View(), newRef) {
        case None => return true;
        case Some((oldRef, node)) =>
          if node.Some? {
            match f.connect {
              case Connects =>
                ok := DeleteNode(oldRef, node.value, f.deleteNode);
                if !ok {
                  return false;
                }
              case Answers404 => unreachable := true;
              case ConnectFails => return false;
            }
          }
      }
      if !f.deleteConfig.Refused? {
        config := None;
      }
      if !f.deleteConfig.Delivered? {
        return false;
      }
      if !f.deleteState.Refused? {
        state := None;
      }
      ok := f.deleteState.Delivered?;
    }
  }

  // ── retries ─────────────────────────────────────────────────────────────────

  predicate FewerNodes(s: Site, s': Site) {
    && s' == s.(instances := s'.instances)
    && (forall i | i in s'.instances :: i in s.instances && s'.instances[i] <= s.instances[i])
  }

  /** An attempt, or nodes disappearing on the headscale side. */
  datatype TeardownEvent = TearDown(faults: TeardownFaults, ok: bool) | NodesGo

  predicate TeardownStep(s: Site, e: TeardownEvent, s': Site, fallback: string) {
    match e
    case TearDown(f, ok) => TeardownAttempt(s, fallback, f, s', ok)
    case NodesGo => FewerNodes(s, s')
  }

  predicate TeardownRun(ss: seq<Site>, es: seq<TeardownEvent>, fallback: string) {
    && |ss| == |es| + 1
    && (forall i | 0 <= i < |es| :: TeardownStep(ss[i], es[i], ss[i + 1], fallback))
  }

  predicate Worked(e: TeardownEvent) {
    e.TearDown? && e.ok
  }

  /** Only the last event is an attempt that succeeded. */
  predicate RetriedUntilOk(es: seq<TeardownEvent>) {
    && es != [] && Worked(es[|es| - 1])
    && (forall i | 0 <= i < |es| - 1 :: !Worked(es[i]))
  }

  lemma {:induction false} FailureKeepsRecord(s: Site, e: TeardownEvent, s': Site, fallback: string)
    requires TeardownStep(s, e, s', fallback) && !Worked(e)
    ensures SameSecrets(s, s')
  {
  }

  lemma {:induction false} FailuresKeepRecord(ss: seq<Site>, es: seq<TeardownEvent>, i: nat, fallback: string)
    requires TeardownRun(ss, es, fallback) && i <= |es|
    requires forall j | 0 <= j < i :: !Worked(es[j])
    ensures SameSecrets(ss[0], ss[i])
  {
    if i > 0 {
      FailuresKeepRecord(ss, es, i - 1, fallback);
      FailureKeepsRecord(ss[i - 1], es[i - 1], ss[i], fallback);
    }
  }

  /** A teardown retried through any failures until it succeeds leaves no silent orphan.
      Until then no resource was deleted, and the attempt that succeeds deals with the node
      recorded at the start: having connected, it leaves it gone; and only not having
      connected it leaves it be, with the warning given. */
  lemma {:induction false} TeardownLeavesNoSilentOrphan(ss: seq<Site>, es: seq<TeardownEvent>, fallback: string)
    requires TeardownRun(ss, es, fallback) && RetriedUntilOk(es)
    ensures forall i | 0 <= i < |es| :: SameSecrets(ss[0], ss[i])
    ensures match ss[0].state
            case Some(StateSecret(Some(node), ref)) =>
              var instance := if ref.Some? then ref.value else fallback;
              if es[|es| - 1].faults.connect.Connects?
              then !(instance in ss[|es|].instances && node in ss[|es|].instances[instance])
              else ss[|es|].orphaned
            case _ => true
  {
    forall i | 0 <= i < |es|
      ensures SameSecrets(ss[0], ss[i])
    {
      FailuresKeepRecord(ss, es, i, fallback);
    }
    var last := |es| - 1;
    assert TeardownStep(ss[last], es[last], ss[last + 1], fallback);
    assert Recorded(ss[last], fallback) == Recorded(ss[0], fallback);
  }

  /** The warning is never given without cause: if it was, some attempt read the record and
      could not connect. */
  lemma {:induction false} WarningHasCause(ss: seq<Site>, es: seq<TeardownEvent>, i: nat, fallback: string)
    requires TeardownRun(ss, es, fallback) && i <= |es| && !ss[0].orphaned && ss[i].orphaned
    ensures exists k :: 0 <= k < i && es[k].TearDown? && !es[k].faults.connect.Connects? && es[k].ok
  {
    var k := i - 1;
    assert TeardownStep(ss[k], es[k], ss[i], fallback);
    if ss[k].orphaned {
      WarningHasCause(ss, es, k, fallback);
    }
  }

  datatype RetargetEvent = Reset(faults: RetargetFaults, ok: bool) | OldNodesGo

  predicate RetargetStep(s: Site, e: RetargetEvent, s': Site, newRef: string) {
    match e
    case Reset(f, ok) => RetargetAttempt(s, newRef, f, s', ok)
    case OldNodesGo => FewerNodes(s, s')
  }

  predicate RetargetRun(ss: seq<Site>, es: seq<RetargetEvent>, newRef: string) {
    && |ss| == |es| + 1
    && (forall i | 0 <= i < |es| :: RetargetStep(ss[i], es[i], ss[i + 1], newRef))
  }

  /** The old instance answered one of the first `i` attempts with 404. */
  predicate Answered404(es: seq<RetargetEvent>, i: nat) {
    exists k :: 0 <= k < i && k < |es| && es[k].Reset? && es[k].faults.connect.Answers404?
  }

  predicate NodeSettled(s: Site, es: seq<RetargetEvent>, i: nat, oldRef: string, node: Option<nat>) {
    node.None? || !Registered(s, oldRef, node.value) || Answered404(es, i)
  }

  /** Where a retarget can be: before the state Secret goes, or finished. */
  predicate RetargetProgress(s0: Site, s: Site, es: seq<RetargetEvent>, i: nat, oldRef: string, node: Option<nat>) {
    s.state == s0.state || (s.state == None && s.config == None && NodeSettled(s, es, i, oldRef, node))
  }

  lemma {:induction false} ResetSettlesNode(s: Site, e: RetargetEvent, s': Site, newRef: string, oldRef: string,
                                            node: Option<nat>)
    requires RetargetStep(s, e, s', newRef) && Retarget(s, newRef) == Some((oldRef, node))
    requires s'.state != s.state
    ensures s'.state == None && s'.config == None && e.Reset?
    ensures node.None? || !Registered(s', oldRef, node.value) || e.faults.connect.Answers404?
  {
  }

  lemma {:induction false} RetargetAdvances(ss: seq<Site>, es: seq<RetargetEvent>, i: nat, newRef: string,
                                            oldRef: string, node: Option<nat>)
    requires RetargetRun(ss, es, newRef) && i <= |es|
    requires Retarget(ss[0], newRef) == Some((oldRef, node))
    ensures RetargetProgress(ss[0], ss[i], es, i, oldRef, node)
  {
    if i > 0 {
      RetargetAdvances(ss, es, i - 1, newRef, oldRef, node);
      var s, e, s' := ss[i - 1], es[i - 1], ss[i];
      assert RetargetStep(s, e, s', newRef);
      if s.state == ss[0].state {
        if s'.state != s.state {
          ResetSettlesNode(s, e, s', newRef, oldRef, node);
        }
      } else {
        assert Answered404(es, i - 1) ==> Answered404(es, i);
      }
    }
  }

  /** A retarget retried until it succeeds ends with both Secrets gone, and the node gone
      from the old instance unless that instance answered an attempt with 404. */
  lemma {:induction false} RetargetLeavesNothingBehind(ss: seq<Site>, es: seq<RetargetEvent>, newRef: string,
                                                       oldRef: string, node: Option<nat>)
    requires RetargetRun(ss, es, newRef) && es != [] && es[|es| - 1].Reset? && es[|es| - 1].ok
    requires ss[0].state == Some(StateSecret(node, Some(oldRef))) && oldRef != newRef
    ensures var s := ss[|es|];
            && s.state == None && s.config == None
            && (node.None? || !(oldRef in s.instances && node.value in s.instances[oldRef]) || Answered404(es, |es|))
  {
    var last := |es| - 1;
    RetargetAdvances(ss, es, last, newRef, oldRef, node);
    RetargetAdvances(ss, es, |es|, newRef, oldRef, node);
    assert RetargetStep(ss[last], es[last], ss[last + 1], newRef);
  }

  // ── nothing else goes ───────────────────────────────────────────────────────

  /** Every node registered before is still registered, but for the one given. */
  ghost predicate OthersStay(s: Site, s': Site, instance: string, node: nat) {
    && s'.instances.Keys == s.instances.Keys
    && (forall i | i in s.instances :: s'.instances[i] <= s.instances[i])
    && (forall i, n | i in s.instances && n in s.instances[i] && !(i == instance && n == node) :: n in s'.instances[i])
  }

  /** A teardown takes no node but the recorded one from the recorded instance, or from the
      parent's when none is recorded, and none at all when no node is recorded. */
  lemma {:induction false} TeardownSparesOthers(s: Site, fallback: string, f: TeardownFaults, s': Site, ok: bool)
    requires TeardownAttempt(s, fallback, f, s', ok)
    ensures match s.state
            case Some(StateSecret(Some(node), ref)) =>
              OthersStay(s, s', if ref.Some? then ref.value else fallback, node)
            case _ => s'.instances == s.instances && s'.orphaned == s.orphaned
  {
  }

  /** A reset takes no node but the recorded one from the recorded instance; and it does
      nothing at all when no other instance is recorded. */
  lemma {:induction false} ResetSparesOthers(s: Site, newRef: string, f: RetargetFaults, s': Site, ok: bool)
    requires RetargetAttempt(s, newRef, f, s', ok)
    ensures match s.state
            case Some(StateSecret(node, Some(ref))) =>
              && (ref == newRef ==> s' == s)
              && (if node.Some? then OthersStay(s, s', ref, node.value) else s'.instances == s.instances)
            case _ => s' == s
  {
  }
}
