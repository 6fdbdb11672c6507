/** The operator side's policy writer: inline policy, live groups, Ingress grants. */
module OperatorPolicy {
  import opened Wrappers
  import opened Json
  import opened PolicyMap
  import opened PolicyEditing
  import opened Remote
  import opened ScimPolicy
  import opened Ordering

  /** One entry of an Ingress's `access` list. */
  datatype Access = Access(sources: seq<string>, capabilities: Option<Json>)

  /** An Ingress as the policy sync sees it.  `access` is `None` when its annotations do
      not parse; `proxyBase` is the proxy name derived from its namespace and name. */
  datatype Ingress = Ingress(ns: string, name: string, proxyBase: string, access: Option<seq<Access>>)

  function AutoTag(ing: Ingress): string {
    "tag:hm-" + ing.proxyBase
  }

  const HEADMASTER_TAG: string := "tag:headmaster"

  predicate IngressLe(a: Ingress, b: Ingress) {
    KeyLe((a.ns, a.name), (b.ns, b.name))
  }

  /** Namespace and name identify an Ingress. */
  predicate DistinctIngresses(ings: seq<Ingress>) {
    forall i, j :: 0 <= i < |ings| && 0 <= j < |ings| && ings[i].ns == ings[j].ns && ings[i].name == ings[j].name
      ==> ings[i] == ings[j]
  }

  predicate ValidIngress(ing: Ingress) {
    ing.access.Some? ==>
      forall a | a in ing.access.value :: a.capabilities.Some? ==> WellFormed(a.capabilities.value)
  }

  /** Sources that name a group nobody has synced yet hold the whole grant back. */
  predicate Waiting(a: Access, known: set<string>) {
    exists s :: s in a.sources && StaleName(s, known)
  }

  /** The grant written for one access entry of an Ingress with tag `tag`. */
  function GrantJson(a: Access, tag: string): Json {
    var third :=
      if a.capabilities.Some? then Member("app", a.capabilities.value)
      else Member("ip", Arr([Str("*:*")]));
    Obj([Member("src", Arr(RenderStrings(a.sources))), Member("dst", Arr([Str(tag)])), third])
  }

  datatype Addition = Addition(grant: Json, tag: string)

  function AccessAdditions(access: seq<Access>, tag: string, known: set<string>): seq<Addition> {
    if access == [] then []
    else
      (if Waiting(access[0], known) then [] else [Addition(GrantJson(access[0], tag), tag)])
      + AccessAdditions(access[1..], tag, known)
  }

  function IngressAdditions(ing: Ingress, known: set<string>): seq<Addition> {
    match ing.access
    case Some(access) => AccessAdditions(access, AutoTag(ing), known)
    case None => []
  }

  /** The additions of an already sorted Ingress list, in order. */
  function Additions(ings: seq<Ingress>, known: set<string>): seq<Addition> {
    if ings == [] then [] else IngressAdditions(ings[0], known) + Additions(ings[1..], known)
  }

  function SortedIngresses(ings: seq<Ingress>): seq<Ingress> {
    Sort(ings, IngressLe)
  }

  /** Each addition declares its tag, then appends its grant. */
  function WithAdditions(m: Fields, adds: seq<Addition>): Fields {
    if adds == [] then m
    else
      var last := adds[|adds| - 1];
      WithGrants(
        WithTagOwner(WithAdditions(m, adds[..|adds| - 1]), last.tag, [HEADMASTER_TAG]),
        [Denote(last.grant)])
  }

  function Merged(m: Fields, ings: seq<Ingress>): Fields {
    WithAdditions(m, Additions(SortedIngresses(ings), KnownGroups(m)))
  }

  /** What one operator sync wants the live policy to become, given an inline policy. */
  function OperatorDesired(inlinePolicy: Fields, live: Fields, scimEnabled: bool, ings: seq<Ingress>): Fields {
    var base := if scimEnabled then WithGroupsOf(inlinePolicy, live) else inlinePolicy;
    Merged(WithTagOwner(base, HEADMASTER_TAG, []), ings)
  }

  // ── collecting the additions ────────────────────────────────────────────────

  lemma {:induction false} AdditionsAppend(a: seq<Ingress>, b: seq<Ingress>, known: set<string>)
    ensures Additions(a + b, known) == Additions(a, known) + Additions(b, known)
  {
    if a == [] {
      assert a + b == b;
    } else {
      assert (a + b)[1..] == a[1..] + b;
      AdditionsAppend(a[1..], b, known);
    }
  }

  lemma {:induction false} AccessAdditionsAppend(a: seq<Access>, b: seq<Access>, tag: string, known: set<string>)
    ensures AccessAdditions(a + b, tag, known) == AccessAdditions(a, tag, known) + AccessAdditions(b, tag, known)
  {
    if a == [] {
      assert a + b == b;
    } else {
      assert (a + b)[1..] == a[1..] + b;
      AccessAdditionsAppend(a[1..], b, tag, known);
    }
  }

  predicate ValidAddition(add: Addition) {
    WellFormed(add.grant)
  }

  lemma {:induction false} ThreeMembers(ms: seq<Member>)
    requires |ms| == 3
    requires ms[0].key != ms[1].key && ms[0].key != ms[2].key && ms[1].key != ms[2].key
    requires WellFormed(ms[0].value) && WellFormed(ms[1].value) && WellFormed(ms[2].value)
    ensures GoodMembers(ms)
    ensures DenoteMembers(ms) == map[ms[0].key := Denote(ms[0].value), ms[1].key := Denote(ms[1].value),
                                     ms[2].key := Denote(ms[2].value)]
  {
    var two, one := ms[1..], ms[2..];
    assert two[1..] == one && one[1..] == [];
    assert DenoteMembers(one) == map[ms[2].key := Denote(ms[2].value)];
    assert DenoteMembers(two) == DenoteMembers(one)[ms[1].key := Denote(ms[1].value)];
    assert GoodMembers(one) && GoodMembers(two);
  }

  lemma {:induction false} GrantKeysDiffer()
    ensures "src" != "dst" && "src" != "app" && "src" != "ip" && "dst" != "app" && "dst" != "ip"
  {
    assert "src"[0] != "dst"[0] && "src"[0] != "app"[0] && "dst"[0] != "app"[0] && |"ip"| == 2;
  }

  /** The third entry of a grant: capabilities under `app`, or all ports under `ip`. */
  function ThirdKey(a: Access): string {
    if a.capabilities.Some? then "app" else "ip"
  }

  function ThirdValue(a: Access): Value {
    if a.capabilities.Some? then Denote(a.capabilities.value) else VArr([VStr("*:*")])
  }

  /** A written grant, read back: the sources, the tag, and `app` or `ip`. */
  lemma {:induction false} GrantMeaning(a: Access, tag: string)
    requires a.capabilities.Some? ==> WellFormed(a.capabilities.value)
    ensures WellFormed(GrantJson(a, tag))
    ensures Denote(GrantJson(a, tag)) == VObj(map[
              "src" := VArr(Strings(a.sources)),
              "dst" := VArr([VStr(tag)]),
              ThirdKey(a) := ThirdValue(a)])
  {
    RenderStringsMeaning(a.sources);
    OneElement(Str(tag));
    OneElement(Str("*:*"));
    GrantKeysDiffer();
    ThreeMembers(GrantJson(a, tag).members);
  }

  method MissingSource(a: Access, known: set<string>) returns (waiting: bool)
    ensures waiting == Waiting(a, known)
  {
    for k := 0 to |a.sources|
      invariant forall i | 0 <= i < k :: !StaleName(a.sources[i], known)
    {
      if StaleName(a.sources[k], known) {
        return true;
      }
    }
    return false;
  }

  /** The accumulation loop of `merge_ingress_grants`. */
  method CollectAdditions(ings: seq<Ingress>, known: set<string>) returns (adds: seq<Addition>)
    requires forall ing | ing in ings :: ValidIngress(ing)
    ensures adds == Additions(ings, known)
    ensures forall add | add in adds :: ValidAddition(add)
  {
    adds := [];
    for k := 0 to |ings|
      invariant adds == Additions(ings[..k], known)
      invariant forall add | add in adds :: ValidAddition(add)
    {
      var ing := ings[k];
      assert ValidIngress(ing);
      AdditionsAppend(ings[..k], [ing], known);
      assert ings[..k + 1] == ings[..k] + [ing];
      assert Additions([ing], known) == IngressAdditions(ing, known) + Additions([ing][1..], known);
      if ing.access.Some? {
        var more := CollectAccess(ing.access.value, AutoTag(ing), known);
        adds := adds + more;
      }
    }
    assert ings[..|ings|] == ings;
  }

  method CollectAccess(access: seq<Access>, tag: string, known: set<string>) returns (adds: seq<Addition>)
    requires forall a | a in access :: a.capabilities.Some? ==> WellFormed(a.capabilities.value)
    ensures adds == AccessAdditions(access, tag, known)
    ensures forall add | add in adds :: ValidAddition(add)
  {
    adds := [];
    for k := 0 to |access|
      invariant adds == AccessAdditions(access[..k], tag, known)
      invariant forall add | add in adds :: ValidAddition(add)
    {
      var a := access[k];
      assert a in access;
      AccessAdditionsAppend(access[..k], [a], tag, known);
      assert access[..k + 1] == access[..k] + [a];
      assert [a][1..] == [];
      var waiting := MissingSource(a, known);
      if !waiting {
        GrantMeaning(a, tag);
        adds := adds + [Addition(GrantJson(a, tag), tag)];
      }
    }
    assert access[..|access|] == access;
  }

  /** The second loop: declare each addition's tag, then append its grant. */
  method ApplyAdditions(editor: PolicyEditor, adds: seq<Addition>)
    requires editor.Valid() && editor.root.Some? && editor.root.value.Obj?
    requires forall add | add in adds :: ValidAddition(add)
    modifies editor
    ensures editor.Valid() && editor.root.Some? && editor.root.value.Obj?
    ensures editor.Meaning() == WithAdditions(old(editor.Meaning()), adds)
  {
    ghost var start := editor.Meaning();
    for k := 0 to |adds|
      invariant editor.Valid() && editor.root.Some? && editor.root.value.Obj?
      invariant editor.Meaning() == WithAdditions(start, adds[..k])
    {
      assert ValidAddition(adds[k]);
      editor.SetTagOwner(adds[k].tag, [HEADMASTER_TAG]);
      editor.AppendGrants([adds[k].grant]);
      assert DenoteAll([adds[k].grant]) == [Denote(adds[k].grant)];
      assert adds[..k + 1][..k] == adds[..k];
    }
    assert adds[..|adds|] == adds;
  }

  /** `merge_ingress_grants`, on the editor the policy text parses to. */
  method MergeIngressGrants(editor: PolicyEditor, ings: seq<Ingress>)
    requires editor.Valid() && editor.root.Some? && editor.root.value.Obj?
    requires forall ing | ing in ings :: ValidIngress(ing)
    modifies editor
    ensures editor.Valid() && editor.root.Some? && editor.root.value.Obj?
    ensures editor.Meaning() == Merged(old(editor.Meaning()), ings)
  {
    var known := editor.KnownGroupNames();
    var ordered := SortedIngresses(ings);
    MultisetMembers(ings, ordered);
    var adds := CollectAdditions(ordered, known);
    ApplyAdditions(editor, adds);
  }

  // ── the sync ────────────────────────────────────────────────────────────────

  datatype Spec = NoPolicy | Inline(text: PolicyText)

  /** An operator sync with an inline policy that ran to the end. */
  ghost predicate OperatorSynced(before: PolicyText, inlineText: PolicyText, scimEnabled: bool, ings: seq<Ingress>,
                                 after: PolicyText, wrote: bool)
  {
    && ParsedRoot(inlineText).Some?
    && ValidText(after)
    && (var desired := OperatorDesired(LiveFields(inlineText), CopiedFrom(inlineText, before), scimEnabled, ings);
        && after.Document? && Reads(after, desired)
        && (wrote <==> !(before.Document? && Reads(before, desired)))
        && (!wrote ==> after == before))
  }

  /** The policy whose groups are copied: the live one, or, when that does not parse,
      the inline one itself, whose groups then stay. */
  ghost function CopiedFrom(inlineText: PolicyText, live: PolicyText): Fields
    requires ParsedRoot(inlineText).Some?
  {
    if ParsedRoot(live).Some? then LiveFields(live) else LiveFields(inlineText)
  }

  lemma {:induction false} CopyOwnGroups(m: Fields)
    ensures WithGroupsOf(m, m) == m
  {
  }

  /** Builds the policy to write: the inline one, with the live groups when SCIM owns
      them, the operator's own tag, and the Ingress grants. */
  method BuildEffective(inlineText: PolicyText, current: PolicyText, scimEnabled: bool, ings: seq<Ingress>)
    returns (effective: Json)
    requires ValidText(current) && ValidText(inlineText) && ParsedRoot(inlineText).Some?
    requires forall ing | ing in ings :: ValidIngress(ing)
    ensures WellFormed(effective) && effective.Obj?
    ensures DenoteMembers(effective.members)
         == OperatorDesired(LiveFields(inlineText), CopiedFrom(inlineText, current), scimEnabled, ings)
  {
    var editor := new PolicyEditor(ParsedRoot(inlineText).value);
    CopyOwnGroups(editor.Meaning());
    if scimEnabled && ParsedRoot(current).Some? {
      var currentEditor := new PolicyEditor(ParsedRoot(current).value);
      editor.CopyGroupsFrom(currentEditor);
    }
    editor.SetTagOwner(HEADMASTER_TAG, []);
    MergeIngressGrants(editor, ings);
    effective := editor.root.value;
  }

  /** The inline policy does not parse. */
  predicate BadSpec(spec: Spec) {
    spec.Inline? && ParsedRoot(spec.text).None?
  }

  /** The live policy is, to the operator's eye, what it wants it to be. */
  ghost predicate AsWanted(live: PolicyText, spec: Spec, scimEnabled: bool, ings: seq<Ingress>, text: PolicyText)
    requires !BadSpec(spec)
  {
    match spec
    case NoPolicy => text == Empty
    case Inline(inlineText) =>
      text.Document? &&
      Reads(text, OperatorDesired(LiveFields(inlineText), CopiedFrom(inlineText, live), scimEnabled, ings))
  }

  /** How an operator sync ends: it fails exactly when connecting failed, the inline policy
      does not parse, or SetPolicy was called and did not report success.  SetPolicy is
      called exactly when the live policy is not the wanted one, and unless it is refused the
      policy is then the wanted one. */
  ghost predicate OperatorOutcome(before: PolicyText, spec: Spec, scimEnabled: bool, ings: seq<Ingress>,
                                  connectFails: bool, rpc: Rpc, after: PolicyText, ok: bool, wrote: bool)
  {
    if connectFails || BadSpec(spec) then !ok && !wrote && after == before
    else
      && (wrote <==> !AsWanted(before, spec, scimEnabled, ings, before))
      && (ok <==> wrote ==> rpc.Delivered?)
      && (if !wrote || rpc.Refused? then after == before else AsWanted(before, spec, scimEnabled, ings, after))
  }

  /** A sync with an inline policy that ended well is one that ran to the end. */
  lemma {:induction false} OutcomeIsSync(before: PolicyText, spec: Spec, scimEnabled: bool, ings: seq<Ingress>,
                                         connectFails: bool, rpc: Rpc, after: PolicyText, ok: bool, wrote: bool)
    requires OperatorOutcome(before, spec, scimEnabled, ings, connectFails, rpc, after, ok, wrote)
    requires spec.Inline? && ValidText(before) && ValidText(after) && (ok || (wrote && rpc.ReplyLost?))
    ensures OperatorSynced(before, spec.text, scimEnabled, ings, after, wrote)
  {
  }

  /** `sync_policy`: `connectFails` covers connecting and GetPolicy. */
  method SyncPolicy(cell: PolicyCell, spec: Spec, scimEnabled: bool, ings: seq<Ingress>, connectFails: bool, rpc: Rpc)
    returns (ok: bool, wrote: bool)
    requires ValidText(cell.policy) && (spec.Inline? ==> ValidText(spec.text))
    requires forall ing | ing in ings :: ValidIngress(ing)
    modifies cell
    ensures ValidText(cell.policy)
    ensures OperatorOutcome(old(cell.policy), spec, scimEnabled, ings, connectFails, rpc, cell.policy, ok, wrote)
  {
    wrote := false;
    if connectFails {
      return false, false;
    }
    var current := cell.policy;
    if spec.NoPolicy? {
      if current == Empty {
        return true, false;
      }
      wrote := true;
      ok := cell.SetPolicy(Empty, rpc);
      return;
    }
    if ParsedRoot(spec.text).None? {
      return false, false;
    }
    var effective := BuildEffective(spec.text, current, scimEnabled, ings);
    if current.Document? {
      ComparisonDecidesMeaning(current.json, effective);
    }
    if SameText(current, Document(effective)) {
      return true, false;
    }
    wrote := true;
    ok := cell.SetPolicy(Document(effective), rpc);
  }
}
