/** The pre-auth key and node identity of one proxy: when they are thrown away, when a new
    key is minted, and what becomes of every key. */
module ProxyKeys {
  import opened Wrappers
  import opened Remote

  const I64_MAX: int := 0x7fff_ffff_ffff_ffff
  const I64_MIN: int := -0x8000_0000_0000_0000

  function SaturatingAdd(a: int, b: int): int {
    if a + b > I64_MAX then I64_MAX else if a + b < I64_MIN then I64_MIN else a + b
  }

  /** `i64::try_from(secs).unwrap_or(i64::MAX)`. */
  function ExpirySecs(secs: nat): int {
    if secs <= I64_MAX then secs else I64_MAX
  }

  // ── what the operator sees ──────────────────────────────────────────────────

  /** The Secret holding the key.  `key` is `None` when the entry is missing or empty. */
  datatype ConfigSecret = ConfigSecret(key: Option<nat>, created: Option<int>)

  datatype StateSecret = StateSecret(deviceId: Option<nat>, headscaleRef: Option<string>)

  datatype HsNode = HsNode(expiry: Option<int>, online: bool)

  /** One container of the proxy pod: in CrashLoopBackOff or not, and its last exit. */
  datatype Container = Container(crashLoop: bool, lastExit: Option<int>)

  datatype Cluster = Cluster(
    now: int,
    state: Option<StateSecret>,
    config: Option<ConfigSecret>,
    nodes: map<nat, HsNode>,
    pod: Option<seq<Container>>)

  function DeviceId(c: Cluster): Option<nat> {
    if c.state.Some? then c.state.value.deviceId else None
  }

  function KeyWindowElapsed(config: ConfigSecret, expiry: nat, now: int): bool {
    config.created.Some? && SaturatingAdd(config.created.value, ExpirySecs(expiry)) < now
  }

  /** An expiry that is unset or zero means the node never expires. */
  predicate NodeExpired(n: HsNode, now: int) {
    n.expiry.Some? && 0 < n.expiry.value < now
  }

  predicate CrashLooping(pod: Option<seq<Container>>) {
    pod.Some? && exists c :: c in pod.value && c.crashLoop
  }

  function MaxExit(cs: seq<Container>): Option<int> {
    if cs == [] then None
    else
      match (cs[0].lastExit, MaxExit(cs[1..]))
      case (Some(a), Some(b)) => Some(if a >= b then a else b)
      case (Some(a), None) => Some(a)
      case (None, rest) => rest
  }

  function LastExit(pod: Option<seq<Container>>): Option<int> {
    if pod.Some? then MaxExit(pod.value) else None
  }

  lemma {:induction false} MaxExitIsLatest(cs: seq<Container>)
    ensures MaxExit(cs).Some? ==> exists c :: c in cs && c.lastExit == MaxExit(cs)
    ensures forall c | c in cs && c.lastExit.Some? :: MaxExit(cs).Some? && c.lastExit.value <= MaxExit(cs).value
  {
    if cs != [] {
      MaxExitIsLatest(cs[1..]);
      assert cs == [cs[0]] + cs[1..];
    }
  }

  /** Some container has exited since the key was minted. */
  predicate Burned(config: ConfigSecret, pod: Option<seq<Container>>) {
    config.created.Some? && pod.Some? &&
    exists k :: k in pod.value && k.lastExit.Some? && k.lastExit.value > config.created.value
  }

  /** The pod's own account: whether any container is in CrashLoopBackOff, and the latest
      exit of any. */
  method ProxyCrashState(pod: Option<seq<Container>>) returns (crashLooping: bool, lastExit: Option<int>)
    ensures crashLooping <==> pod.Some? && exists k :: k in pod.value && k.crashLoop
    ensures lastExit.Some? ==> pod.Some? && exists k :: k in pod.value && k.lastExit == lastExit
    ensures pod.Some? ==> forall k | k in pod.value && k.lastExit.Some? ::
              lastExit.Some? && k.lastExit.value <= lastExit.value
  {
    crashLooping, lastExit := false, None;
    if pod.None? {
      return;
    }
    for i := 0 to |pod.value|
      invariant crashLooping <==> exists k :: k in pod.value[..i] && k.crashLoop
      invariant lastExit.Some? ==> exists k :: k in pod.value[..i] && k.lastExit == lastExit
      invariant forall k | k in pod.value[..i] && k.lastExit.Some? ::
                  lastExit.Some? && k.lastExit.value <= lastExit.value
    {
      var c := pod.value[i];
      assert pod.value[..i + 1] == pod.value[..i] + [c];
      crashLooping := crashLooping || c.crashLoop;
      if c.lastExit.Some? && (lastExit.None? || lastExit.value < c.lastExit.value) {
        lastExit := c.lastExit;
      }
    }
    assert pod.value[..|pod.value|] == pod.value;
  }

  // ── rotate_stale_auth_key ───────────────────────────────────────────────────

  datatype NodeReply = NodeAnswered | NodeLookupFails | NodeMissingFromReply

  datatype RotateFaults = RotateFaults(
    stateGetFails: bool,
    nodeReply: NodeReply,
    configGetFails: bool,
    podGetFails: bool,
    deleteConfig: Rpc,
    deleteState: Rpc)

  datatype Reason = RegistrationLost | KeyRejected | IdentityRejected | KeyExpired

  /** What a reconcile decides about the Secrets. */
  datatype Verdict =
    | Keep
    | ReadFailed
    | DropKey(reason: Reason)        // delete the config Secret
    | DropIdentity(reason: Reason)   // delete the config Secret, then the state Secret

  /** `registration_refused`, for a node that is present, unexpired and offline. */
  function Refusal(c: Cluster, expiry: nat, f: RotateFaults): Verdict {
    if f.configGetFails then ReadFailed
    else if c.config.None? then Keep
    else if f.podGetFails then ReadFailed
    else if !CrashLooping(c.pod) then Keep
    else if KeyWindowElapsed(c.config.value, expiry, c.now) then DropKey(KeyRejected)
    else
      match (c.config.value.created, LastExit(c.pod))
      case (Some(minted), Some(exit)) => if exit > minted then DropIdentity(IdentityRejected) else Keep
      case _ => Keep
  }

  /** The grading as a decision table. */
  lemma {:induction false} RefusalMeaning(c: Cluster, expiry: nat, f: RotateFaults)
    ensures var asked := !f.configGetFails && !f.podGetFails && c.config.Some? && CrashLooping(c.pod);
            Refusal(c, expiry, f) ==
            if f.configGetFails || (c.config.Some? && f.podGetFails) then ReadFailed
            else if asked && KeyWindowElapsed(c.config.value, expiry, c.now) then DropKey(KeyRejected)
            else if asked && Burned(c.config.value, c.pod) then DropIdentity(IdentityRejected)
            else Keep
  {
    if c.pod.Some? {
      MaxExitIsLatest(c.pod.value);
    }
  }

  function Grade(c: Cluster, expiry: nat, f: RotateFaults): Verdict {
    if f.stateGetFails then ReadFailed
    else
      match DeviceId(c)
      case Some(id) =>
        if f.nodeReply.NodeLookupFails? then ReadFailed
        else if id !in c.nodes then DropIdentity(RegistrationLost)
        else if f.nodeReply.NodeMissingFromReply? then Refusal(c, expiry, f)
        else if NodeExpired(c.nodes[id], c.now) then DropIdentity(RegistrationLost)
        else if c.nodes[id].online then Keep
        else Refusal(c, expiry, f)
      case None =>
        if f.configGetFails then ReadFailed
        else if c.config.None? then Keep
        else if KeyWindowElapsed(c.config.value, expiry, c.now) then DropKey(KeyExpired)
        else Keep
  }

  /** Deletes that are refused change nothing; an error stops the sequence. */
  function Carried(c: Cluster, v: Verdict, f: RotateFaults): Cluster {
    var keyless := if f.deleteConfig.Refused? then c else c.(config := None);
    match v
    case DropKey(_) => keyless
    case DropIdentity(_) =>
      if f.deleteConfig.Delivered? && !f.deleteState.Refused? then keyless.(state := None) else keyless
    case _ => c
  }

  predicate RotateOk(v: Verdict, f: RotateFaults) {
    match v
    case Keep => true
    case ReadFailed => false
    case DropKey(_) => f.deleteConfig.Delivered?
    case DropIdentity(_) => f.deleteConfig.Delivered? && f.deleteState.Delivered?
  }

  // ── the rotation, on its own terms ──────────────────────────────────────────

  /** The node has no expiry, or one that means never, or one that has not passed. */
  predicate Unexpired(n: HsNode, now: int) {
    n.expiry.None? || n.expiry.value <= 0 || n.expiry.value >= now
  }

  predicate NamesNode(c: Cluster, id: nat) {
    c.state.Some? && c.state.value.deviceId == Some(id)
  }

  predicate Unregistered(c: Cluster) {
    c.state.None? || c.state.value.deviceId.None?
  }

  /** Headscale does not have the node, or shows it as expired. */
  ghost predicate NodeLost(c: Cluster, reply: NodeReply) {
    exists id :: NamesNode(c, id) && (id !in c.nodes || (reply.NodeAnswered? && !Unexpired(c.nodes[id], c.now)))
  }

  /** Headscale shows the node as unexpired and connected. */
  ghost predicate NodeHealthy(c: Cluster, reply: NodeReply) {
    exists id :: NamesNode(c, id) && id in c.nodes && reply.NodeAnswered? && Unexpired(c.nodes[id], c.now)
              && c.nodes[id].online
  }

  /** The key's lifetime, taken as an i64, has passed since its Secret was created. */
  predicate KeyTooOld(c: Cluster, expiry: nat) {
    c.config.Some? && c.config.value.created.Some? &&
    c.config.value.created.value + (if expiry <= 0x7fff_ffff_ffff_ffff then expiry else 0x7fff_ffff_ffff_ffff) < c.now
  }

  predicate PodCrashLoops(c: Cluster) {
    c.pod.Some? && exists k :: k in c.pod.value && k.crashLoop
  }

  /** Some container has exited since the key's Secret was created. */
  predicate DiedOnKey(c: Cluster) {
    c.config.Some? && c.config.value.created.Some? && c.pod.Some? &&
    exists k :: k in c.pod.value && k.lastExit.Some? && k.lastExit.value > c.config.value.created.value
  }

  /** Times are i64 readings. */
  predicate InRange(c: Cluster) {
    c.now <= 0x7fff_ffff_ffff_ffff &&
    (c.config.Some? && c.config.value.created.Some? ==> -0x8000_0000_0000_0000 <= c.config.value.created.value)
  }

  /** What is left when every call works. */
  ghost function LeftByRotation(c: Cluster, expiry: nat, reply: NodeReply): Cluster {
    if Unregistered(c) then if KeyTooOld(c, expiry) then c.(config := None) else c
    else if NodeLost(c, reply) then c.(config := None, state := None)
    else if NodeHealthy(c, reply) || c.config.None? || !PodCrashLoops(c) then c
    else if KeyTooOld(c, expiry) then c.(config := None)
    else if DiedOnKey(c) then c.(config := None, state := None)
    else c
  }

  /** Saturation never changes the verdict: no clock reading lies beyond i64. */
  lemma {:induction false} TooOldExactly(c: Cluster, expiry: nat)
    requires InRange(c) && c.config.Some?
    ensures KeyWindowElapsed(c.config.value, expiry, c.now) <==> KeyTooOld(c, expiry)
  {
  }

  lemma {:induction false} NodeExactly(c: Cluster, id: nat, reply: NodeReply)
    requires NamesNode(c, id)
    ensures NodeLost(c, reply) <==> id !in c.nodes || (reply.NodeAnswered? && NodeExpired(c.nodes[id], c.now))
    ensures NodeHealthy(c, reply) <==>
            id in c.nodes && reply.NodeAnswered? && !NodeExpired(c.nodes[id], c.now) && c.nodes[id].online
  {
  }

  /** A rotation in which every call works leaves what it is to leave. */
  lemma {:induction false} RotationExactly(c: Cluster, expiry: nat, f: RotateFaults)
    requires InRange(c) && !f.stateGetFails && !f.nodeReply.NodeLookupFails? && !f.configGetFails && !f.podGetFails
    requires f.deleteConfig.Delivered? && f.deleteState.Delivered?
    ensures RotateOk(Grade(c, expiry, f), f)
    ensures Carried(c, Grade(c, expiry, f), f) == LeftByRotation(c, expiry, f.nodeReply)
  {
    RefusalMeaning(c, expiry, f);
    if c.config.Some? {
      TooOldExactly(c, expiry);
    }
    if !Unregistered(c) {
      NodeExactly(c, c.state.value.deviceId.value, f.nodeReply);
    }
    hide KeyWindowElapsed, KeyTooOld, NodeExpired, Unexpired, NodeLost, NodeHealthy, Refusal;
  }

  /** When calls fail, nothing goes that would otherwise stay, and the state Secret goes only
      once the config Secret's deletion was reported; success means that just what was to go
      went. */
  lemma {:induction false} FailedRotationExactly(c: Cluster, expiry: nat, f: RotateFaults)
    requires InRange(c)
    ensures var c', ok := Carried(c, Grade(c, expiry, f), f), RotateOk(Grade(c, expiry, f), f);
            var left := LeftByRotation(c, expiry, f.nodeReply);
            && c' == c.(config := c'.config, state := c'.state)
            && (c'.config == c.config || (c'.config == None && left.config == None && !f.deleteConfig.Refused?))
            && (c'.state == c.state || (c'.state == None && left.state == None && f.deleteConfig.Delivered?
                                        && !f.deleteState.Refused?))
            && (ok ==> c' == left)
            && (f.stateGetFails || (!Unregistered(c) && f.nodeReply.NodeLookupFails?) ==> !ok && c' == c)
  {
    RefusalMeaning(c, expiry, f);
    if c.config.Some? {
      TooOldExactly(c, expiry);
    }
    if !Unregistered(c) {
      NodeExactly(c, c.state.value.deviceId.value, f.nodeReply);
    }
    hide KeyWindowElapsed, KeyTooOld, NodeExpired, Unexpired, NodeLost, NodeHealthy, Refusal;
  }

  // ── ensure_auth_key ─────────────────────────────────────────────────────────

  /** What became of the keys minted in headscale.  `unseen` are keys whose mint was
      carried out although the caller got an error. */
  datatype Ledger = Ledger(minted: set<nat>, stored: set<nat>, revoked: set<nat>, leaked: set<nat>, unseen: set<nat>)

  datatype UserLookup = NoUserWanted | UserFound | UserMissing | UserLookupFails

  datatype EnsureFaults = EnsureFaults(
    configGetFails: bool,
    user: UserLookup,
    mint: Rpc,
    save: Rpc,
    revoke: Rpc)

  datatype EnsureReply = Ready | WaitingForUser | EnsureFailed

  /** The result of trying to store the freshly minted `key`. */
  function Saved(c: Cluster, l: Ledger, key: nat, f: EnsureFaults): (Cluster, Ledger, EnsureReply) {
    var created := if c.config.Some? then c.config.value.created else Some(c.now);
    var l1 := l.(minted := l.minted + {key});
    var c1 := if f.save.Refused? then c else c.(config := Some(ConfigSecret(Some(key), created)));
    var l2 := if f.save.Refused? then l1 else l1.(stored := l1.stored + {key});
    if f.save.Delivered? then (c1, l2, Ready)
    else if f.revoke.Refused? then (c1, l2.(leaked := l2.leaked + {key}), EnsureFailed)
    else (c1, l2.(revoked := l2.revoked + {key}), EnsureFailed)
  }

  function Ensured(c: Cluster, l: Ledger, key: nat, f: EnsureFaults): (Cluster, Ledger, EnsureReply) {
    if f.configGetFails then (c, l, EnsureFailed)
    else if c.config.Some? && c.config.value.key.Some? then (c, l, Ready)
    else if f.user.UserLookupFails? then (c, l, EnsureFailed)
    else if f.user.UserMissing? then (c, l, WaitingForUser)
    else
      match f.mint
      case Refused => (c, l, EnsureFailed)
      case ReplyLost => (c, l.(minted := l.minted + {key}, unseen := l.unseen + {key}), EnsureFailed)
      case Delivered => Saved(c, l, key, f)
  }

  // ── ensuring a key, on its own terms ────────────────────────────────────────

  /** Nobody has stored a key, and the user the key is for is known, or none is needed. */
  predicate MayMint(c: Cluster, f: EnsureFaults) {
    && !f.configGetFails && (c.config.None? || c.config.value.key.None?)
    && (f.user.NoUserWanted? || f.user.UserFound?)
  }

  /** A stored key is kept.  Otherwise one is minted only for a known user, and is stored under
      the creation time of the Secret there was, or of now; the reply is Ready exactly if a
      key was there, or minting and storing it were both reported, and WaitingForUser exactly
      if the user is missing.  The ledger says what became of the key. */
  lemma {:induction false} EnsureExactly(c: Cluster, l: Ledger, key: nat, f: EnsureFaults)
    ensures var (c', l', reply) := Ensured(c, l, key, f);
            var stored := MayMint(c, f) && f.mint.Delivered? && !f.save.Refused?;
            && (reply == Ready <==>
                  !f.configGetFails && ((c.config.Some? && c.config.value.key.Some?)
                                        || (MayMint(c, f) && f.mint.Delivered? && f.save.Delivered?)))
            && (reply == WaitingForUser <==>
                  !f.configGetFails && (c.config.None? || c.config.value.key.None?) && f.user.UserMissing?)
            && c' == (if stored
                      then c.(config := Some(ConfigSecret(Some(key), if c.config.Some? then c.config.value.created
                                                                     else Some(c.now))))
                      else c)
            && l' == Ledger(
                       if MayMint(c, f) && !f.mint.Refused? then l.minted + {key} else l.minted,
                       if stored then l.stored + {key} else l.stored,
                       if MayMint(c, f) && f.mint.Delivered? && !f.save.Delivered? && !f.revoke.Refused?
                       then l.revoked + {key} else l.revoked,
                       if MayMint(c, f) && f.mint.Delivered? && !f.save.Delivered? && f.revoke.Refused?
                       then l.leaked + {key} else l.leaked,
                       if MayMint(c, f) && f.mint.ReplyLost? then l.unseen + {key} else l.unseen)
  {
  }

  // ── the two operations in place ─────────────────────────────────────────────

  class Proxy {
    var now: int
    var state: Option<StateSecret>
    var config: Option<ConfigSecret>
    var nodes: map<nat, HsNode>
    var pod: Option<seq<Container>>
    var ledger: Ledger

    constructor (c: Cluster, ledger: Ledger)
      ensures View() == c && this.ledger == ledger
    {
      now, state, config, nodes, pod := c.now, c.state, c.config, c.nodes, c.pod;
      this.ledger := ledger;
    }

    function View(): Cluster
      reads this
    {
      Cluster(now, state, config, nodes, pod)
    }

    method DeleteConfig(rpc: Rpc) returns (ok: bool)
      modifies this`config
      ensures config == if rpc.Refused? then old(config) else None
      ensures ok == rpc.Delivered?
    {
      if !rpc.Refused? {
        config := None;
      }
      ok := rpc.Delivered?;
    }

    method DeleteState(rpc: Rpc) returns (ok: bool)
      modifies this`state
      ensures state == if rpc.Refused? then old(state) else None
      ensures ok == rpc.Delivered?
    {
      if !rpc.Refused? {
        state := None;
      }
      ok := rpc.Delivered?;
    }

    /** Asks the pod and the key's age whether headscale is refusing the registration.  A new
        key is due exactly when the proxy crash-loops on one past its window; the identity
        goes exactly when it crash-loops on one inside its window that it has burned. */
    method RegistrationRefused(expiry: nat, f: RotateFaults) returns (v: Verdict)
      ensures v == Refusal(View(), expiry, f)
      ensures v == ReadFailed <==> f.configGetFails || (config.Some? && f.podGetFails)
      ensures v == DropKey(KeyRejected) <==>
                && !f.configGetFails && !f.podGetFails && config.Some? && CrashLooping(pod)
                && KeyWindowElapsed(config.value, expiry, now)
      ensures v == DropIdentity(IdentityRejected) <==>
                && !f.configGetFails && !f.podGetFails && config.Some? && CrashLooping(pod)
                && !KeyWindowElapsed(config.value, expiry, now) && Burned(config.value, pod)
      ensures v in {Keep, ReadFailed, DropKey(KeyRejected), DropIdentity(IdentityRejected)}
    {
      RefusalMeaning(View(), expiry, f);
      if f.configGetFails {
        return ReadFailed;
      }
      if config.None? {
        return Keep;
      }
      if f.podGetFails {
        return ReadFailed;
      }
      var crashLooping, lastExit := ProxyCrashState(pod);
      if !crashLooping {
        return Keep;
      }
      if KeyWindowElapsed(config.value, expiry, now) {
        return DropKey(KeyRejected);
      }
      var minted := config.value.created;
      if minted.Some? && lastExit.Some? && lastExit.value > minted.value {
        return DropIdentity(IdentityRejected);
      }
      return Keep;
    }

    /** Deletes the Secrets of a proxy whose key can never work again. */
    method RotateStaleAuthKey(expiry: nat, f: RotateFaults) returns (ok: bool)
      modifies this`config, this`state
      ensures var v := Grade(old(View()), expiry, f);
              View() == Carried(old(View()), v, f) && ok == RotateOk(v, f)
      ensures ok && InRange(old(View())) ==> View() == LeftByRotation(old(View()), expiry, f.nodeReply)
    {
      if InRange(View()) {
        FailedRotationExactly(View(), expiry, f);
      }
      hide LeftByRotation;
      if f.stateGetFails {
        return false;
      }
      var device := if state.Some? then state.value.deviceId else None;
      if device.Some? {
        if f.nodeReply.NodeLookupFails? {
          return false;
        }
        var lost := device.value !in nodes ||
                    (f.nodeReply.NodeAnswered? && NodeExpired(nodes[device.value], now));
        var online := device.value in nodes && f.nodeReply.NodeAnswered? && nodes[device.value].online;
        if !lost {
          if online {
            return true;
          }
          var v := RegistrationRefused(expiry, f);
          match v {
            case Keep => return true;
            case ReadFailed => return false;
            case DropKey(_) =>
              ok := DeleteConfig(f.deleteConfig);
              return;
            case DropIdentity(_) =>
          }
        }
        ok := DeleteConfig(f.deleteConfig);
        if ok {
          ok := DeleteState(f.deleteState);
        }
        return;
      }
      if f.configGetFails {
        return false;
      }
      if config.None? || !KeyWindowElapsed(config.value, expiry, now) {
        return true;
      }
      ok := DeleteConfig(f.deleteConfig);
    }

    /** Mints a key unless one is stored; a key that cannot be stored is revoked again. */
    method EnsureAuthKey(key: nat, f: EnsureFaults) returns (reply: EnsureReply)
      modifies this`config, this`ledger
      ensures (View(), ledger, reply) == Ensured(old(View()), old(ledger), key, f)
    {
      if f.configGetFails {
        return EnsureFailed;
      }
      if config.Some? && config.value.key.Some? {
        return Ready;
      }
      match f.user {
        case UserLookupFails => return EnsureFailed;
        case UserMissing => return WaitingForUser;
        case _ =>
      }
      if f.mint.Refused? {
        return EnsureFailed;
      }
      ledger := ledger.(minted := ledger.minted + {key});
      if f.mint.ReplyLost? {
        ledger := ledger.(unseen := ledger.unseen + {key});
        return EnsureFailed;
      }
      if !f.save.Refused? {
        config := Some(ConfigSecret(Some(key), if config.Some? then config.value.created else Some(now)));
        ledger := ledger.(stored := ledger.stored + {key});
      }
      if f.save.Delivered? {
        return Ready;
      }
      if f.revoke.Refused? {
        ledger := ledger.(leaked := ledger.leaked + {key});
      } else {
        ledger := ledger.(revoked := ledger.revoked + {key});
      }
      return EnsureFailed;
    }
  }
}
