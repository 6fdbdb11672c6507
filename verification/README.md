# Headmaster: a verified model of its state machines

Headmaster is a Kubernetes operator and a SCIM sidecar for headscale. Both write the same
headscale ACL policy, and both keep state of their own in step with it through partial
failures and retries. This project models those parts in Dafny and proves what they promise.

`dafny verify dfyconfig.toml` checks the whole project.

## How it is laid out

Four parts, each a few modules.

1. **The policy and its two writers.** `Json` has policies as syntax trees (object members in
   the order written) and as what they denote (objects unordered, as section 1 of RFC 8259 has
   them); the comparison that guards every `SetPolicy` is shown to decide equality of meaning.
   `PolicyMap` defines what each edit means on unordered maps. `PolicyEditing` is the in-place
   editor, refining those definitions. `ScimPolicy` and `OperatorPolicy` are the two writers as
   get, compute and set steps on one policy cell. `Convergence` is about the two together, and
   `WriterFight` about when they do not settle. `Effective` tells the operator's policy entry by
   entry.
2. **The SCIM service over its mapping file.** `CrashFs` is the file with crashes between any
   two steps of a flush, `Storage` the mapping in memory and its rollbacks, `Directory` the
   records and their rendering into groups, `ScimService` the handlers. `Retry`, `Upserts` and
   `Deletion` are about requests repeated through failures, restarts and changes in headscale,
   `Progress` about what it takes for one to succeed, and `Requests` tells what each does on the
   fields of requests and records.
   `ScimConcurrent` interleaves any number of handlers.
3. **The proxy's key and node identity.** `ProxyKeys` has the rotation verdict and the two
   procedures in place, `KeyRuns` the runs against an environment, `Teardown` deregistration and
   retargeting, `Applies` whole reconciles: retarget, rotate, ensure, record.
4. **Order-sensitive transforms.** `DnsRewrites`, `ServeRoutes` and `Finalizers`.

`Wrappers`, `Remote` and `Ordering` are shared: optional values, outcomes of remote calls
(delivered, refused, or carried out with the reply lost), string order, stable sorting and
dropping elements.

No proof leans on automatic induction: every lemma switches it off and recurses where it needs
to.

Failures are parameters. Every remote call, flush step and node expiry may turn out in any way
its fault record allows, and the theorems hold for all of them. Handlers and procedures are
class methods whose contracts are relations or functions on the whole state; theorems about
runs speak of those relations and functions, and so of the methods. What these definitions
compute is stated once more without them, on the fields of records, policies, Secrets and Services
(the lemmas ending in `Exactly` and the module `Requests`), and runs are shown to go on in every
way they may (`RunGoesOn`). The interleaving of handlers
has finer steps of its own; `ScimConcurrent` proves that they are the handlers' locked sections
and, with nothing in between, their reconcile.

## What came out differently from the comments

- The two writers settle exactly when every `group:` member of the inline policy's grants names
  a SCIM group (`Convergence.JointConvergence`). Otherwise each undoes the other's write in every
  round of any number of rounds (`WriterFight.FightNeverEnds`); one inline grant for a group SCIM
  does not know is enough (`WriterFight.FightHappens`). Without an inline policy they settle only
  if there are no SCIM groups (`Convergence.NoPolicyFixpoint`).
- A `delete_user` repeated until it is answered is sure to leave the policy in sync exactly when
  the user is in no group, or has no token there for being inactive or without identifier: after
  a failed reconcile the retry finds no record, answers 404 and never reconciles
  (`Deletion.DeleteRetrySyncsIff`). The headscale account the record identified is gone by then
  either way (`Deletion.RecordOutlivesAccount`). A `delete_group` that removed the record and then
  failed is out of sync after every 404, unless it was only SetPolicy's reply that was lost
  (`Deletion.GroupDeleteStrands`).
- "Every minted key is stored, revoked or leaked" needs the reply of the mint itself: a
  `CreatePreAuthKey` carried out with its reply lost leaves a key nobody knows of
  (`KeyRuns.KeysConserved` counts these apart). And when saving the Secret was carried out but
  reported as failed, the compensating delete leaves a Secret holding a revoked key
  (`KeyRuns.EnsureConserves` says exactly when).
- A flush that reports success is durable exactly when the path of the mapping file names a
  directory, or the file held the data already: for a bare file name the directory is never
  synced, and a crash can undo the rename (`CrashFs.FlushDurableIff`, `CrashFs.RenameCanBeLost`).
- After a retarget the stored key is from the new instance except in one case: the key is from
  elsewhere, the state Secret names no other instance, and the cluster gives rotation no reason
  to drop the key (`Applies.ReadyKeyExactly`). It takes no more than one failed write to the
  state Secret (`Applies.StaleKeyHappens`).
- The rotation bound uses one second more than the key's lifetime, because the window is
  compared with `<`; that makes it slightly stronger than elapsed time over lifetime. It holds from
  the first key on; over a later stretch of a run there can be one rotation more
  (`KeyRuns.RotationBoundBetween`). Saturating
  at the largest i64 never changes the verdict (`KeyRuns.WindowIsExact`).

## Model

| member | source | states |
|---|---|---|
| Json.ComparisonDecidesMeaning | headscale-client/src/policy.rs:258-289 | the recursive comparison, with its one-sided walk over object keys, answers true exactly when both texts denote the same value |
| Json.MembersEqualIsInclusion | headscale-client/src/policy.rs:275-285 | the key loop alone decides inclusion of the left object in the right one; with equal sizes that is equality |
| PolicyEditing.SameTextExactly | headscale-client/src/policy.rs:249-256 | two texts compare equal exactly when they denote the same value or, when one is no value, are the same but for white space around them |
| Json.ComparisonIsEquivalence | headscale-client/src/policy.rs:249-289 | the comparison is reflexive, symmetric and transitive |
| PolicyEditing.PolicyEditor.SetGroups | headscale-client/src/policy.rs:32-65 | `groups` is replaced as a whole, or removed when there are none, a repeated name being written as often as it is given; with distinct names every other entry keeps its meaning, whatever the root was |
| PolicyEditing.PolicyEditor.CopyGroupsFrom | headscale-client/src/policy.rs:71-92 | afterwards `groups` is the other policy's, present or absent, and nothing else differs |
| PolicyEditing.PolicyEditor.KnownGroupNames | headscale-client/src/policy.rs:94-106 | exactly the keys of the `groups` object |
| PolicyEditing.PolicyEditor.SetTagOwner | headscale-client/src/policy.rs:112-126 | existing owners stay as a prefix, owners missing at the start are appended in order, a tag that was absent is declared |
| PolicyEditing.PolicyEditor.AppendGrants | headscale-client/src/policy.rs:130-139 | declared grants stay as a prefix; an empty list changes nothing |
| PolicyEditing.PolicyEditor.RemoveFromSide | headscale-client/src/policy.rs:219-239 | removing node by node leaves the side without every string equal to the value, and all other nodes and grants as they were |
| PolicyEditing.RemoveEqual | headscale-client/src/policy.rs:227-239 | the removal loop is the filter on the elements |
| PolicyEditing.PolicyEditor.RemoveNode | headscale-client/src/policy.rs:202-204 | the grant at that position is detached and the others keep their order |
| PolicyMap.PruneGrantEffect | scim/src/policy.rs:60-80 | a kept grant loses exactly its stale names from array sides; every other entry, and a side that is no array, is untouched |
| PolicyMap.GrantGoesExactly | scim/src/policy.rs:60-88 | a grant is taken away if and only if one of its sides is an array with at least one string, all of whose strings begin with `group:` and name no SCIM group |
| PolicyMap.PruningExactly | scim/src/policy.rs:57-89 | what stays of the grants is those that lose no side, in order, each with the names of unknown groups filtered out of its array sides, in order, and nothing else changed |
| PolicyMap.ScimWantsExactly | scim/src/policy.rs:41-99 | told entry by entry: `groups` holds each group under `group:` and its name with its tokens, or is absent without groups; the grants are pruned to those names; every other entry is the live one |
| PolicyMap.FreshMembers | scim/src/policy.rs:63-68 | what remains of a side is what was there and is not a stale group name; elements that are not strings stay |
| PolicyMap.PruneGrantFixed | scim/src/policy.rs:60-87 | a grant survives unchanged if and only if neither side names a stale group |
| PolicyMap.PruningIsIdempotent | scim/src/policy.rs:60-89 | a second pruning run changes nothing |
| ScimPolicy.PruneSideAt | scim/src/policy.rs:63-68 | the loop over a snapshot of names removes exactly the stale ones from that side of that grant |
| ScimPolicy.PruneGrantAt | scim/src/policy.rs:60-88 | the grant is detached exactly when one of its array sides had strings and all of them name unknown groups; otherwise it becomes its pruned form; nothing else moves |
| ScimPolicy.PruneAllGrants | scim/src/policy.rs:57-89 | the nested in-place loops, detaching grants as they go, refine the one-line filter over the grants; the grants that stay are those that lose no side, trimmed and in order, and other entries are untouched |
| ScimPolicy.SetGroupMembership | scim/src/policy.rs:41-99 | SetPolicy is called exactly when the policy was read and parsed and is not the wanted one; it fails exactly when reading, parsing or that call failed; after success, or a reply lost, the live policy is entry by entry what `PolicyMap.ScimWantsExactly` describes |
| OperatorPolicy.GrantMeaning | operator/src/controllers/headscale_instance/policy.rs:191-219 | a written grant denotes the sources, the tag as only destination, and the capabilities or all ports |
| OperatorPolicy.CollectAdditions | operator/src/controllers/headscale_instance/policy.rs:142-224 | the accumulation loop yields the additions of the Ingresses in order, waiting grants left out |
| OperatorPolicy.MergeIngressGrants | operator/src/controllers/headscale_instance/policy.rs:132-234 | the merged policy is the old one with every addition's tag declared and its grant appended, in sorted order |
| OperatorPolicy.SyncPolicy | operator/src/controllers/headscale_instance/policy.rs:39-124 | SetPolicy is called exactly when connecting worked, the inline policy parses or is absent, and the live policy is not the effective one (empty without an inline policy); it fails exactly for one of these causes or when that call did; the live policy is then the effective one unless nothing was written |
| OperatorPolicy.OutcomeIsSync | operator/src/controllers/headscale_instance/policy.rs:70-123 | a sync with an inline policy that succeeds, or whose reply alone was lost, ran to the end |
| Effective.AddedExactly | operator/src/controllers/headscale_instance/policy.rs:142-224 | the grants added are, in order, those of the access entries none of whose sources names an unknown group: sources, the tag `tag:hm-` of the Ingress, and its capabilities or all ports |
| Effective.OperatorWantsExactly | operator/src/controllers/headscale_instance/policy.rs:70-105 | told entry by entry: `groups` is the live one when SCIM owns it; the inline grants come first, then those of the Ingresses by namespace and name; each tag of an added grant is owned by tag:headmaster besides its inline owners, tag:headmaster is declared, and no other tag or entry changes |
| Effective.SyncExactly | operator/src/controllers/headscale_instance/policy.rs:39-124 | that is the policy a sync leaves, with the inline groups kept where the live policy does not parse; the sync fails exactly when connecting did, the inline policy does not parse, or a SetPolicy was due and not reported to have worked |
| Effective.EmptiedExactly | operator/src/controllers/headscale_instance/policy.rs:57-67 | without an inline policy the live one ends empty, SetPolicy being called exactly when it was not empty |
| Convergence.MergeIgnoresOrder | operator/src/controllers/headscale_instance/policy.rs:139-142 | the merge gives the same policy for every permutation of the Ingress list |
| Convergence.AdditionsExtend | operator/src/controllers/headscale_instance/policy.rs:226-234 | the user's grants stay an untouched prefix; only `grants` and `tagOwners` change |
| Convergence.AdditionsDeclareTags | operator/src/controllers/headscale_instance/policy.rs:230-233 | every added destination tag is declared with tag:headmaster as owner and no owner is lost |
| Convergence.AdditionsComplete | operator/src/controllers/headscale_instance/policy.rs:144-223 | a grant is added if and only if it comes from an access entry, none of whose `group:` sources is unknown |
| Convergence.OperatorResult | operator/src/controllers/headscale_instance/policy.rs:70-105 | the result has the groups of the live policy when SCIM owns them, the inline grants first, and then grants that pruning would not touch |
| Convergence.OperatorSyncIsIdempotent | operator/src/controllers/headscale_instance/policy.rs:70-123 | after one sync with the same inputs the next one writes nothing, from any live policy |
| Convergence.ScimFixedPoint | scim/src/policy.rs:52-93 | with `groups` as rendered, SCIM changes nothing if and only if no grant names an unknown group |
| Convergence.JointConvergence | operator/src/controllers/headscale_instance/policy.rs:70-123 | one SCIM reconcile and one operator sync take any policy to a state where the operator rests and `groups` is SCIM's rendering; SCIM rests too if and only if the inline grants name only SCIM groups |
| Convergence.NeverWritesAgain | scim/src/policy.rs:91-93 | from a joint fixpoint no schedule of turns of either writer ever calls SetPolicy again |
| Convergence.WritersFight | scim/src/policy.rs:57-99 | when the condition fails, a round writes twice and returns to the policy it started from |
| WriterFight.FightNeverEnds | scim/src/policy.rs:57-99 | so does every round of any number of rounds |
| WriterFight.FightHappens | operator/src/controllers/headscale_instance/policy.rs:70-123 | one inline grant for an unknown group gives such a fight |
| Convergence.NoPolicyFixpoint | operator/src/controllers/headscale_instance/policy.rs:57-67 | SCIM leaves the emptied policy alone if and only if it has no groups |
| CrashFs.FlushIsCrashAtomic | scim/src/storage.rs:179-198 | after a crash between any two steps the file loads, as the previous mapping or the new one: the previous up to the rename, the new one once the directory was synced |
| CrashFs.FlushDurableIff | scim/src/storage.rs:194-197 | a flush that returned Ok survives every crash if and only if the path has a directory part, or the file held the same data before |
| CrashFs.RenameCanBeLost | scim/src/storage.rs:190-197 | until the directory is synced, and without a directory part even after Ok, some crash leaves the previous mapping |
| CrashFs.UnsyncedRenameCanLoseAll | scim/src/storage.rs:183-193 | renaming the temporary file before it is synced can leave a file that does not load |
| CrashFs.RestartFindsVersion | scim/src/storage.rs:61-71 | a process that comes back, after a crash of the machine or of itself alone, reads a complete version that was possible before, and no new ones become possible |
| CrashFs.HistoryLoads | scim/src/storage.rs:61-71 | through any sequence of complete, failed and interrupted flushes and crashes the file loads, never as anything older than the last flush that synced its directory |
| Storage.Mapping.Load | scim/src/storage.rs:61-71 | an error exactly when the file cannot be read or holds no complete mapping; otherwise memory starts as what the file holds, or empty when there is none |
| Storage.Mapping.Flush | scim/src/storage.rs:179-198 | the steps reached are those of the crash model, in that order, with the data in memory; the last one syncs the directory only if the path names one |
| Storage.Mapping.SetUser | scim/src/storage.rs:88-97 | the record is stored in memory even if the flush fails; nothing else changes |
| Storage.Mapping.SetGroup | scim/src/storage.rs:156-164 | likewise for a group |
| Storage.Mapping.RemoveUser | scim/src/storage.rs:99-108 | removed on success, restored on failure, no flush for an unknown id |
| Storage.Mapping.RemoveGroup | scim/src/storage.rs:166-175 | likewise for a group |
| Storage.Mapping.RemoveUserAndFromGroups | scim/src/storage.rs:113-140 | one flush removes the user and every mention; on failure both maps are exactly as before, member order and repetitions included |
| Storage.RestoreMembers | scim/src/storage.rs:129-137 | putting the saved member lists back undoes the stripping exactly |
| Ordering.RetainKeepsOthers | scim/src/storage.rs:125-127 | retaining keeps exactly the other elements, each as often and in the order it had |
| Ordering.KeyLeIsDictionary | operator/src/controllers/external_service/dns.rs:117-117 | namespaced objects are ordered as in a dictionary, by namespace and then by name |
| Directory.RenderingDistinct | scim/src/services.rs:495-535 | distinct group names give distinct policy groups |
| Directory.RenderingNames | scim/src/services.rs:495-535 | the rendering has an entry for exactly the stored groups, and in each, in order, the tokens of the members that are known, active and have the configured identifier: the email, the name and `@`, or the issuer, `/`, the external id and `@` |
| Directory.TokenIff | scim/src/services.rs:495-535 | a token is rendered if and only if some member of the list is active and stands for it |
| Directory.TokensWithout | scim/src/services.rs:495-535 | without a user, a member list's tokens are those of its other members, in order; they are fewer exactly when the user was on the list and had a token |
| Directory.RenderingFrame | scim/src/services.rs:254-273 | a user in no group cannot affect the rendering, which is why put_user may skip the reconcile |
| ScimService.Service.Reconcile | scim/src/services.rs:495-535 | only the policy may change, as a sync of the current rendering ends with the faults at hand; after success it names exactly the stored groups, and in each its active, identifiable members |
| ScimService.Service.Expire | scim/src/services.rs:540-590 | on success every node of the account that is still there is expired; nodes of other accounts and all owners stay, no node appears or comes back from expiry; nothing happens without an identifier or a node list |
| ScimService.ExpiryExactly | scim/src/services.rs:540-590 | whose nodes are expired is told by owner and record: same email, name, or provider id; those whose call was not refused are expired or gone, all others untouched, and it succeeds exactly when every such call did |
| Retry.ExpiryEffect | scim/src/services.rs:540-590 | whichever calls fail, nodes already expired or gone stay so, and success for the account's key leaves none of its nodes unexpired |
| ScimService.Service.PutUser | scim/src/services.rs:177-276 | validation, expiry under the old identifier, storing and reconciling happen in that order and stop at the first failure; a success that deactivates leaves none of the old record's nodes unexpired |
| ScimService.Service.CreateUser | scim/src/services.rs:119-175 | an upsert by name on the first record in id order, then always a reconcile |
| ScimService.Service.CreateGroup | scim/src/services.rs:341-397 | likewise for groups; member ids are stored as they come |
| ScimService.Service.PutGroup | scim/src/services.rs:399-442 | 404, then conflict, then store and reconcile |
| ScimService.Service.DeleteHeadscaleUser | scim/src/services.rs:594-622 | the account listed first that is the record's goes, and no other, unless the call is refused; without identifier or account nothing is deleted and that is success, without a list nothing is and that is failure |
| ScimService.DeletionExactly | scim/src/services.rs:594-622 | whose account goes is told by owner and record: the first listed with the same email, name, or provider id |
| ScimService.Service.DeleteUser | scim/src/services.rs:278-311 | the account is deleted while the record is still stored, then the mapping, then the policy |
| ScimService.Service.DeleteGroup | scim/src/services.rs:444-457 | the record goes first, then the policy is rebuilt |
| ScimService.UpsertKeepsNames | scim/src/services.rs:359-388 | an upsert by name keeps group names pairwise distinct |
| ScimService.RenameKeepsNames | scim/src/services.rs:403-436 | so does a rename that passed the conflict check |
| Retry.PutUserRetrySync | scim/src/services.rs:254-273 | from a state in sync, put_user retried with the same body through failures, restarts and node changes until it succeeds ends in sync, whether or not the last attempt reconciled |
| Retry.PutUserRetryExpires | scim/src/services.rs:202-231 | when such a retry asks for `active = false`, or with expiry on change for another name or first email than the record has in that mode, every node of the record's account at the start is expired or gone at the end |
| Retry.PutUserSparesNodes | scim/src/services.rs:213-231 | a put_user that asks for none of this leaves every node alone |
| Progress.ReconcileSucceedsIff | scim/src/policy.rs:41-99 | a reconcile succeeds if and only if the policy was read and parses and a write, if one was due, was reported to have worked |
| Progress.CleanPutUser | scim/src/services.rs:177-276 | a valid put_user for a known user that meets no fault succeeds, from any state whose policy parses |
| Progress.CleanCreateUser | scim/src/services.rs:119-175 | so does a valid create_user |
| Progress.CleanCreateGroup | scim/src/services.rs:341-397 | so does a valid create_group |
| Progress.CleanPutGroup | scim/src/services.rs:399-442 | so does a valid put_group for a known group under a free name |
| Progress.CleanDeleteUser | scim/src/services.rs:278-311 | so does a delete_user for a known user |
| Progress.CleanDeleteGroup | scim/src/services.rs:444-457 | so does a delete_group for a known group |
| Progress.RetryEndsAtFirstCleanAttempt | scim/src/services.rs:202-231 | however a put_user has been failing, through restarts and node changes, the first attempt that meets no fault succeeds |
| Upserts.CreateRetriesMakeNoSecondRecord | scim/src/services.rs:114-118 | retrying create_user through failures and restarts never makes a second record of that name |
| Requests.RefusedExactly | scim/src/services.rs:119-457 | a request is answered 400, 404 or 409 exactly when a field it must have is missing, the record is unknown, or a rename takes the name of another group; nothing changes then |
| Requests.PutUserStores | scim/src/services.rs:233-252 | a successful put_user has stored the fields asked for under that id, and changed no other record |
| Requests.CreateUserStores | scim/src/services.rs:136-170 | a successful create_user has stored the fields under the first id with that name in id order, answered as updated, or under a fresh one, answered as created, and changed no other record |
| Requests.CreateGroupStores | scim/src/services.rs:357-388 | likewise for groups, member ids as they come |
| Requests.PutGroupStores | scim/src/services.rs:403-436 | a successful put_group has stored the fields asked for under that id, and changed no other record |
| Requests.AnsweredIsDurable | scim/src/storage.rs:179-198 | whatever a handler answered with success is what any later start finds, after any crash, if the mapping's path names a directory |
| Requests.AnsweredIsShown | scim/src/services.rs:254-273 | a success of any handler ends with a policy that names exactly the stored groups and their members, except that a put_user of an active user in no group leaves the policy alone |
| Requests.SilentPutUser | scim/src/services.rs:254-273 | such a put_user that asks for no expiry succeeds exactly when the flush does, whatever else fails |
| Deletion.DeletedUserIsGone | scim/src/services.rs:278-311 | success means no record, no mention in any group, the other members of each group kept in order under its name and identifier, and a policy in sync |
| Deletion.DeletedGroupIsGone | scim/src/services.rs:444-457 | success means exactly that group is gone and the policy is in sync |
| Deletion.RecordOutlivesAccount | scim/src/services.rs:281-296 | through any attempts, restarts and changes to other accounts, none that the key matches being listed ahead, the record is never missing while the account it identified is there; so after success or a 404 the account is gone |
| Deletion.OvertakenAccountStays | scim/src/services.rs:594-622 | of two accounts the key matches, the one listed later is still there after a delete that worked |
| Deletion.RendersAlikeIff | scim/src/services.rs:495-535 | removing a user leaves every rendered group alone if and only if they had no token in any: in no group, unknown, inactive, or without identifier |
| Deletion.DeleteRetrySyncsIff | scim/src/services.rs:278-311 | a delete retried until answered is sure to end in sync if and only if the user had no token in any group |
| Deletion.GroupDeleteStrands | scim/src/services.rs:444-457 | a delete_group that removed the record and failed is answered with 404 from then on, and is in sync if and only if the policy could be read and it was SetPolicy's reply that was lost |
| Deletion.GroupDeleteCanStrand | scim/src/services.rs:444-457 | from any state in sync a refused SetPolicy leads there |
| ScimConcurrent.PutUserLocks | scim/src/services.rs:233-252 | put_user changes the mapping by its one locked change or not at all |
| ScimConcurrent.CreateUserLocks | scim/src/services.rs:152-170 | so does create_user |
| ScimConcurrent.CreateGroupLocks | scim/src/services.rs:357-388 | create_group makes exactly its locked change, if the request is valid |
| ScimConcurrent.PutGroupLocks | scim/src/services.rs:403-436 | put_group makes exactly its locked change, which is none for an unknown group or a taken name |
| ScimConcurrent.DeleteUserLocks | scim/src/services.rs:298-304 | delete_user removes the user everywhere or changes nothing |
| ScimConcurrent.DeleteGroupLocks | scim/src/services.rs:446-455 | delete_group removes the record or changes nothing |
| ScimConcurrent.FourStepsReconcile | scim/src/services.rs:495-535 | snapshot, lock, fetch and finish with nothing in between are the reconcile of the sequential handlers |
| ScimConcurrent.ApplyKeepsNames | scim/src/services.rs:357-388 | every locked section keeps group names distinct |
| ScimConcurrent.EveryInterleaving | scim/src/policy.rs:45-97 | in every interleaving names stay distinct, each write carries the rendering of a mapping state that existed, with distinct group names, and the writes form one chain in which each starts from what the previous one left |
| ScimConcurrent.FinishShowsSnapshot | scim/src/services.rs:495-535 | a reconcile that takes effect leaves its snapshot's rendering; the policy shows the current mapping if and only if the two render alike, as when nothing changed in between |
| ProxyKeys.ProxyCrashState | operator/src/controllers/proxy/auth_key.rs:301-345 | crash-looping if any container is; the exit reported is one that happened and none is later; a missing pod is neither |
| ProxyKeys.Proxy.RegistrationRefused | operator/src/controllers/proxy/auth_key.rs:248-277 | a new key is due exactly when the proxy crash-loops on a key past its window, the identity goes exactly when it crash-loops on one inside its window and some container exited after minting; failed reads are errors, all else is left alone |
| ProxyKeys.MaxExitIsLatest | operator/src/controllers/proxy/auth_key.rs:330-341 | the reported exit is one that happened and none is later |
| ProxyKeys.Proxy.RotateStaleAuthKey | operator/src/controllers/proxy/auth_key.rs:66-189 | the Secrets deleted are those of the verdict, the config Secret before the state Secret, stopping at the first failed delete; after success exactly what `ProxyKeys.RotationExactly` describes is left |
| ProxyKeys.RotationExactly | operator/src/controllers/proxy/auth_key.rs:82-189 | told on the Secrets, the node, the pod and the clock: with every call working nothing goes while the node is connected and its expiry is unset, not positive, or not past; both Secrets go when the node is gone or expired; otherwise the key goes once too old, and both when the crash-looping proxy died on it |
| ProxyKeys.FailedRotationExactly | operator/src/controllers/proxy/auth_key.rs:82-189 | when calls fail nothing goes that would otherwise stay, the state Secret only after the config Secret's deletion was reported; success means that just what was to go went |
| ProxyKeys.Proxy.EnsureAuthKey | operator/src/controllers/proxy/auth_key.rs:369-467 | a stored key is kept; otherwise a key is minted, stored, and revoked again if storing failed, and the ledger says which |
| ProxyKeys.EnsureExactly | operator/src/controllers/proxy/auth_key.rs:369-467 | the reply, the Secret with its creation time, and each part of the ledger, told by what was stored, whether the user is known, and which calls worked |
| KeyRuns.WindowIsExact | operator/src/controllers/proxy/auth_key.rs:202-212 | the saturating window test equals the exact one for every clock reading |
| KeyRuns.CountersCount | operator/src/controllers/proxy/auth_key.rs:82-189 | the rotations and exits bounded are those the run shows: config Secrets gone in a rotation whose node was not lost, and container exits |
| KeyRuns.RotationBound | operator/src/controllers/proxy/auth_key.rs:82-189 | in every run rotations, lost registrations aside, number at most the container exits plus elapsed time over the key's lifetime |
| KeyRuns.RotationBoundBetween | operator/src/controllers/proxy/auth_key.rs:82-189 | over any stretch of a run they number at most one more than its exits plus its length over the key's lifetime |
| KeyRuns.Escalation | operator/src/controllers/proxy/auth_key.rs:97-146 | in every run, at every rotation, a healthy node loses nothing, an unregistered proxy keeps its state, and a node that is not lost loses its state only when the crash-looping proxy exited after the minting of its key, still inside its window |
| KeyRuns.DeadEndsAreLeft | operator/src/controllers/proxy/auth_key.rs:214-277 | each dead end is left in one reconcile and no more is thrown away than it takes: a new key first, the identity only once that key was burned, nothing while it has not had its chance |
| KeyRuns.EnsureConserves | operator/src/controllers/proxy/auth_key.rs:433-464 | one call keeps the ledger balanced; a key is both stored and revoked exactly when its save succeeded with the reply lost and the revocation went through |
| KeyRuns.KeysConserved | operator/src/controllers/proxy/auth_key.rs:369-467 | in every run each minted key was stored, revoked, leaked or minted with its reply lost, and the Secret's key is a stored one |
| KeyRuns.ReadyKeyIsInWindow | operator/src/controllers/proxy/auth_key.rs:163-189 | after a reconcile that ends Ready an unregistered proxy's key is inside its window |
| Teardown.ProxySite.DeregisterAndCleanup | operator/src/controllers/proxy/support.rs:31-113 | it fails exactly when the state Secret could not be read or the recorded node not be deleted, and then every resource stays; the warning is given exactly when connecting failed; otherwise each resource is gone whose deletion was not refused |
| Teardown.ProxySite.ResetIfRetargeted | operator/src/controllers/proxy/support.rs:121-162 | the Secrets are let go only once the node is deleted, there is none, or connecting was answered with 404, the config Secret before the state Secret; it fails exactly when one of these calls did; success leaves nothing recorded of another instance |
| Teardown.TeardownLeavesNoSilentOrphan | operator/src/controllers/proxy/support.rs:31-113 | a teardown retried until it succeeds deletes nothing before; the attempt that succeeds leaves the node recorded at the start gone from the recorded instance, or the parent's when none is recorded, if it connected, and the warning given if it did not |
| Teardown.WarningHasCause | operator/src/controllers/proxy/support.rs:64-78 | the warning is never given unless some attempt could not connect |
| Teardown.TeardownSparesOthers | operator/src/controllers/proxy/support.rs:31-113 | no node but the recorded one goes, from the recorded instance or, when none is recorded, the parent's; without a recorded node none does |
| Teardown.RetargetLeavesNothingBehind | operator/src/controllers/proxy/support.rs:115-162 | a retarget retried until it succeeds leaves neither Secret, and the node is gone from the old instance unless connecting was answered with 404 in one of the attempts |
| Teardown.ResetSparesOthers | operator/src/controllers/proxy/support.rs:121-162 | no node but the recorded one goes, from the recorded instance; nothing at all happens unless another instance than the wanted one is recorded |
| Applies.RotationKeepsIff | operator/src/controllers/proxy/auth_key.rs:82-189 | a rotation in which every call worked leaves the key if and only if the cluster shows no reason to drop it: inside the window before joining; afterwards present, unexpired, and online, not crash-looping, or not yet burned inside the window |
| Applies.ReadyKeyExactly | operator/src/controllers/ingress/reconcile.rs:537-617 | after a reconcile that got its key, that key is from the wanted instance unless it was from elsewhere, the state Secret named no other instance and the cluster showed no reason to drop it; and not otherwise |
| Applies.StaleKeyHappens | operator/src/controllers/ingress/reconcile.rs:537-617 | a key minted in one instance whose recording fails stays after a retarget to any other |
| Applies.HealthyIsLeftAlone | operator/src/controllers/ingress/reconcile.rs:537-617 | a healthy proxy with a key, of the wanted instance or none recorded, loses nothing in a reconcile; only the instance is recorded, next to the node id it has |
| Applies.KeysFollowTheParent | operator/src/controllers/ingress/reconcile.rs:537-617 | in every run in which the parent is retargeted only while the key's instance is recorded, every reconcile that gets its key holds one from the wanted instance, and recording it makes any next retarget safe |
| Finalizers.PatchRemovesOnlyItsOwn | operator/src/controllers/ingress/reconcile.rs:793-810 | in every interleaving an accepted patch takes exactly the deployment's own finalizer off the list as it then is; it conflicts exactly when the object moved since it was read |
| Finalizers.FinalizerNeverLost | operator/src/controllers/ingress/reconcile.rs:756-812 | a deployment's finalizer stays until that deployment patches it away |
| DnsRewrites.Select | operator/src/controllers/external_service/dns.rs:119-137 | the loop over sorted candidates gives each FQDN to its first candidate and reports the others with the winner |
| DnsRewrites.CollectRewrites | operator/src/controllers/external_service/dns.rs:92-140 | the output is a right selection of the candidates |
| DnsRewrites.SelectionIsRight | operator/src/controllers/external_service/dns.rs:88-140 | the rewrites are sorted, one per FQDN, and go to the least owner by namespace and name; winners and duplicates partition the candidates and each duplicate names the true winner |
| DnsRewrites.RewritesExactly | operator/src/controllers/external_service/dns.rs:88-140 | told on the Services: an FQDN leads to the proxy service, in the operator's namespace, of the egress Service of this operator's, not being deleted, that claims it and comes first by namespace and name |
| DnsRewrites.DuplicatesExactly | operator/src/controllers/external_service/dns.rs:119-137 | reported are exactly the other Services that claim it, each with the one that comes first |
| DnsRewrites.SelectionIgnoresOrder | operator/src/controllers/external_service/dns.rs:117-117 | the result is the same for every order of the Services |
| ServeRoutes.CollectIngressRoutes | operator/src/controllers/ingress/serve.rs:30-74 | no rules is an error; otherwise the resolvable rules' routes, stably sorted by descending path length |
| ServeRoutes.BuildHandlers | operator/src/controllers/ingress/serve.rs:121-130 | the loop builds the insertion-ordered handler table |
| ServeRoutes.SortStable | operator/src/controllers/ingress/serve.rs:72-72 | sorting keeps the order of routes for the same path |
| ServeRoutes.HandlersContents | operator/src/controllers/ingress/serve.rs:121-130 | the table holds each declared path, with the URL of its last route |
| ServeRoutes.FirstMatchIsLongestPrefix | operator/src/controllers/ingress/serve.rs:48-138 | for every request path the first handler that prefixes it is the longest declared prefix and serves the last resolvable rule with that path; there is none exactly when no declared path prefixes the request |
| ServeRoutes.ServedExactly | operator/src/controllers/ingress/serve.rs:30-138 | told on the rules: a request is served from the backend of the last resolvable rule with the longest path that prefixes it, `/` where a rule has none, and not at all exactly when there is no such rule |

## Left out

- PolicyEditing.PolicyEditor.CopyGroupsFrom: the block comments that the source carries over with the copied bytes are not modelled, only the value they stand in.
- ScimPolicy.SetGroupMembership: the groups handed over have distinct names, as every rendering has (`Directory.RenderingDistinct`); a list with a repeated name would write an object with a repeated key.
- Concrete syntax: comments, white space and HuJSON parsing. A text is empty, white space, only comments, not parseable, or a JSON value; a copied `groups` value is the value it denotes, not its bytes.
- Objects with a repeated key: every policy text read is taken to have distinct keys in each object.
- Record timestamps (`updated_at`), and comments attached to group members.
- Listing and reading users and groups, filters and response bodies.
- The operator's notification to SCIM after a write; a SCIM reconcile may happen at any time instead.
- Operator writes between the fetch and the write of one SCIM reconcile: the interleaving model has SCIM handlers only, and joint convergence is about syncs that do not overlap.
- Restarts in the interleaving of SCIM handlers; they are part of the retry theorems instead.
- Retry.PutUserRetryExpires: nodes may vanish, expire or appear between attempts, but a node is taken not to come back from expiry and not to change owner.
- Deletion.RecordOutlivesAccount: accounts may come and go between attempts, but an account is taken not to change its identifiers; with several matching accounts only the first listed is tracked, as the code deletes only that one, and no matching account may come to be listed ahead of it (`Deletion.OvertakenAccountStays`).
- Events as text and whether their publication worked: NodeOrphaned is one flag, set when the warning is handed to the recorder.
- KeyRuns.RotationBound: one clock reading per reconcile, the same clock for Secrets and containers, and nothing changing in the middle of a call; rotations for lost registrations are not counted.
- KeyRuns.EnsureConserves: the user lookup is one outcome, and tags, expiry and flags of the minted key are not modelled.
- Teardown.ProxySite.CleanupProxyResources: resources other than the two Secrets are one set of names deleted best-effort.
- Applies.KeysFollowTheParent: the reconcile is a composition of the procedures' contracts, not one method; the steps before and after (network Service, config map, RBAC, StatefulSet, tags) are left out.
- The branch of the external Service reconciler that releases a configuration and cannot find its node's instance.
- Finalizers.PatchRemovesOnlyItsOwn: `release_ingress` is a state machine over its calls, so that others can act in between; the `claimed-by` annotation and objects without a resource version are left out.
- Ingress tags: `tag:hm-` followed by a proxy base name given with the Ingress; hashing and truncation of names are left out.
- ServeRoutes.CollectIngressRoutes: path length is counted in characters, not bytes, which orders the prefixes of one request the same way; resolving a named port is one optional backend per rule.
- `build_override`, application capabilities in handlers, and status patches, which would only add easy members.
- `serde_val_to_cst`: capabilities are taken as the JSON value they are converted to.
- `create_dir_all` before a flush, and serialisation errors, which fail before the first step.
- Manifest builders, webhooks, health checks, authentication, routing and metrics.
