# Keydra IAM provider — verified model

This project models the AWS IAM provider of Keydra, a secret-rotation
framework. Given a secret descriptor `{key: <IAM user>, config: {tags, groups, policies}}`
the provider:

- makes sure the IAM user exists with the tag `managedby=keydra` plus the configured tags;
- retires a stale access key: with more than one key it deletes a chosen
  candidate, and it marks a single remaining key Inactive;
- reconciles the user's group memberships and managed-policy attachments
  with the configured sets;
- issues a fresh access key and returns `{provider: "iam", key, secret}`.

Beside `rotate` the provider offers `validate_spec` (descriptor checks),
`redact_result` (masks the secret for logging), `distribute` (always
refused) and `has_creds` (always false).

The IAM service is an abstract account state. `IamClient.Client` is a class
whose fields are the account's users and the cached account id. For each
user it holds tags, access keys, groups and attached policy ARNs. Every
service call the provider makes is a small method on that state. The rules
of the provider are pure functions in their own modules:

- `KeySelection`: which key to retire.
- `KeyLifecycle`: the key list after a rotation.
- `Reconcile`: set reconciliation.
- `PolicyArns`: policy ARNs.
- `Provisioning`: expected tags and user creation.
- `Results`: result shaping and redaction.
- `Validation`: descriptor validation.

The class methods are proved to end in the states these functions describe.
Lemmas state what the functions promise.

Modelling choices:

- A key's `LastUsedDate` is an `Option<int>`, with `None` when the key was
  never used. It is stored in the key record, which stands for the
  per-key `get_access_key_last_used` call.
- Keys are a sequence in listing order, which is the iteration order of
  `keys_by_id`. `Client.Valid()` keeps their ids distinct.
- The new key's id and secret come from the service, so they are a
  parameter of `Rotate` (`cred`). Its id is required to be unused.
- The identity service refuses a third access key per user (`MaxKeys = 2`).
  `CreateAccessKey` models that refusal as `KeyLimitExceeded`, which fails
  the rotation, as a `ClientError` does in `rotate`.
- Failures of the listing calls and of single add/remove/attach/detach
  calls are a parameter (`Faults`). They follow the source's
  catch-and-skip handling.
- `tag_user` follows the identity service: a given key overwrites the tag
  with that key, and tags with other keys stay (`Provisioning.TagUser`).
  A user holding a tag outside the expected list therefore never compares
  equal at line 155 and is re-tagged on every rotation.
- `Rotate` takes a typed `Config`: tags a list of key/value pairs, groups a
  list or a single name, policies a list of names. This is not the set of
  descriptors `validate_spec` accepts. `validate_spec` lets falsy options of
  another type through, such as `None` or `0`, which `Config` cannot hold
  (empty lists, empty tags and `groups: ""` it can hold).
  `validate_spec` also rejects a truthy scalar `groups`, which `Config` can
  hold. `validate_spec` works on dynamically typed values (`PyValues.Value`).

## Model

| member | source | states |
|---|---|---|
| `KeySelection.Pick` | src/keydra/providers/aws_iam.py:71-107 | the candidate as a function of the keys in iteration order: the first non-Active key, else the key that survives the strict-earlier challenges; pinned down by the lemmas below |
| `KeySelection.PickBestCandidate` | src/keydra/providers/aws_iam.py:71-107 | the selection loop computes `Pick(keys)`; for non-empty keys the candidate is one of the keys, and for no keys there is none; reason `inactive` exactly when the chosen key is not Active; `initial_option` only for the first key; `last_used` only for a key used strictly before the first key |
| `KeySelection.PickIsMember` | src/keydra/providers/aws_iam.py:74-107 | for a non-empty key list the candidate is never `None` and is a member of the keys |
| `KeySelection.PickEmpty` | src/keydra/providers/aws_iam.py:74-75 | with no keys there is no candidate |
| `KeySelection.InactiveWins` | src/keydra/providers/aws_iam.py:82-86 | if some key is not Active, the first such key in iteration order is chosen, whatever the timestamps |
| `KeySelection.FirstNeverUsedIsPicked` | src/keydra/providers/aws_iam.py:88-93 | all keys Active and the first key never used: the first key is returned |
| `KeySelection.OldestUsedIsPicked` | src/keydra/providers/aws_iam.py:88-98 | all keys Active and the first key used: the chosen key is the first of the least recently used keys; only a strictly earlier time displaces the candidate, never-used keys are never preferred, and ties keep the key seen first |
| `KeySelection.FirstOldestUnique` | src/keydra/providers/aws_iam.py:95-98 | the first least recently used key is unique, so the rule above determines the key |
| `KeyLifecycle.RetireKeys` | src/keydra/providers/aws_iam.py:299-318 | the keys after the delete step (more than one key: drop the candidate) and the deactivation of a single remaining key; its cases are the `Rotate…Keys` lemmas |
| `KeyLifecycle.RotateKeys` | src/keydra/providers/aws_iam.py:299-327 | retirement followed by creation of the new key, or the key-limit error; its cases are the `Rotate…Keys` lemmas |
| `KeyLifecycle.WithoutKeyMembers` | src/keydra/providers/aws_iam.py:308 | `pop` of a key id keeps exactly the keys with other ids |
| `KeyLifecycle.WithoutKeyLength` | src/keydra/providers/aws_iam.py:303-308 | deleting a present key from keys with distinct ids removes exactly one key |
| `KeyLifecycle.WithoutKeyDistinct` | src/keydra/providers/aws_iam.py:303-308 | deleting a key keeps the ids distinct |
| `KeyLifecycle.SetStatus` | src/keydra/providers/aws_iam.py:131-140 | updating a key's status changes that key's status and no other key |
| `KeyLifecycle.DeactivateSingle` | src/keydra/providers/aws_iam.py:311-318 | when exactly one key remains, that key becomes Inactive |
| `KeyLifecycle.RotateNoKeys` | src/keydra/providers/aws_iam.py:299-327 | 0 prior keys: nothing is deleted or deactivated and exactly one new key is created |
| `KeyLifecycle.RotateOneKey` | src/keydra/providers/aws_iam.py:311-327 | 1 prior key: it becomes Inactive and a new key joins it, 2 keys |
| `KeyLifecycle.RotateTwoKeys` | src/keydra/providers/aws_iam.py:299-327 | 2 prior keys: the candidate is deleted, the survivor becomes Inactive, a new key is added, 2 keys |
| `KeyLifecycle.RotateTwoKeysDeletesInactive` | src/keydra/providers/aws_iam.py:82-86 | 2 prior keys with one not Active: that key is deleted regardless of timestamps, and the other becomes Inactive |
| `KeyLifecycle.RotateManyKeys` | src/keydra/providers/aws_iam.py:299-318 | more than 2 prior keys: one key is deleted, no survivor changes status, and the key limit fails the creation |
| `KeyLifecycle.RotateKeepsOneActive` | src/keydra/providers/aws_iam.py:299-327 | from at most 2 keys a rotation succeeds and leaves at most 2 keys with distinct ids, of which only the new one is Active |
| `KeyLifecycle.RotateKeysDistinct` | src/keydra/providers/aws_iam.py:299-327 | retiring keys adds no id, so a new key with an unused id keeps ids distinct |
| `KeyLifecycle.RotateTwice` | src/keydra/providers/aws_iam.py:299-327 | across two rotations the keys settle to the first new key Inactive and the second new key Active |
| `Reconcile.RightfulGroups` | src/keydra/providers/aws_iam.py:175-178 | the wanted group set from a list or a single name; characterised by `RightfulGroupsSpec` |
| `Reconcile.Reconciled` | src/keydra/providers/aws_iam.py:194-231 | the held set after every removal and addition not refused; characterised by `ReconciledIsWanted` and `ReconciledBounds` |
| `Reconcile.ReconcileStep` | src/keydra/providers/aws_iam.py:181-192 | a failed listing leaves the held set as it was, otherwise the set is `Reconciled` |
| `Reconcile.ChangesAreSymmetricDifference` | src/keydra/providers/aws_iam.py:194-231 | removals are exactly `current - rightful`, additions `rightful - current`; they are disjoint and touch nothing in the intersection |
| `Reconcile.ReconciledIsWanted` | src/keydra/providers/aws_iam.py:194-231 | when no single change fails, the final set equals the wanted set |
| `Reconcile.ReconciledBounds` | src/keydra/providers/aws_iam.py:196-231 | whatever fails, held-and-wanted items stay; an item with a refused change keeps its former membership, and every other item ends as wanted |
| `Reconcile.RightfulGroupsSpec` | src/keydra/providers/aws_iam.py:175-178 | a non-list `groups` value stands for a one-element set; a list stands for the set of its elements |
| `Reconcile.AddThenRemove` | src/keydra/providers/aws_iam.py:282-288 | attaching first and detaching afterwards ends in the same set as the reverse order |
| `Reconcile.OnePerTargetLength` | src/keydra/providers/aws_iam.py:196-231 | a log that never calls an item twice has exactly as many calls as items |
| `Reconcile.ReconcileLogJoin` | src/keydra/providers/aws_iam.py:196-231 | the removal calls and the addition calls, in either order, are one call for each item of the symmetric difference, each refused exactly for the failing items |
| `Reconcile.ReconcileCallCount` | src/keydra/providers/aws_iam.py:194-231 | a whole reconciliation makes `|current - wanted| + |wanted - current|` calls |
| `Reconcile.TargetsConcat` | src/keydra/providers/aws_iam.py:196-231 | the names changed by two runs of calls are the union of each run's names |
| `PolicyArns.PolicyArn` | src/keydra/providers/aws_iam.py:233-234 | `arn:aws:iam::<account>:policy/<name>`; its inverse is `PolicyNameOf` |
| `PolicyArns.ExpectedArns` | src/keydra/providers/aws_iam.py:263-264 | the ARN of every configured name; characterised by `ExpectedArnsMembers` and `ExpectedArnsCount` |
| `PolicyArns.PolicyNameOf` | src/keydra/providers/aws_iam.py:233-234 | a name read back from an ARN rebuilds that ARN |
| `PolicyArns.PolicyArnRoundTrip` | src/keydra/providers/aws_iam.py:233-234 | `arn:aws:iam::<account>:policy/<name>` gives back `<name>` |
| `PolicyArns.PolicyArnInjective` | src/keydra/providers/aws_iam.py:233-234 | distinct policy names give distinct ARNs |
| `PolicyArns.ExpectedArnsMembers` | src/keydra/providers/aws_iam.py:263-264 | an ARN is expected exactly when it is an ARN of the account naming a configured policy |
| `PolicyArns.ExpectedArnsCount` | src/keydra/providers/aws_iam.py:263-264 | there are as many expected ARNs as configured policy names |
| `Provisioning.ExpectedTags` | src/keydra/providers/aws_iam.py:143-150 | `managedby=keydra` followed by the configured tags; `BuildExpectedTags` is the loop that builds it |
| `Provisioning.TagUser` | src/keydra/providers/aws_iam.py:156-157 | the user's tags after `tag_user`; characterised by `TagUserMembers` |
| `Provisioning.ProvisionedUsers` | src/keydra/providers/aws_iam.py:152-170 | the account after provisioning; characterised by `ProvisionedSpec` and `ProvisionIdempotent` |
| `Provisioning.BuildExpectedTags` | src/keydra/providers/aws_iam.py:143-150 | the expected tags are `managedby=keydra` followed by each configured tag in order |
| `Provisioning.TagUserMembers` | src/keydra/providers/aws_iam.py:155-157 | after tagging, the user holds a tag exactly when it is one of the given tags, or an old tag whose key is not given |
| `Provisioning.TagUserOfExpected` | src/keydra/providers/aws_iam.py:155-157 | tagging a user that holds exactly the given tags changes nothing |
| `Provisioning.TagUserIdempotent` | src/keydra/providers/aws_iam.py:155-157 | tagging twice with the same tags is tagging once |
| `Provisioning.ProvisionedSpec` | src/keydra/providers/aws_iam.py:152-170 | afterwards the user exists; a created user has exactly the expected tags and nothing else; an existing user has its tags merged with the expected ones and keeps its keys, groups and policies; no other user changes |
| `Provisioning.ProvisionIdempotent` | src/keydra/providers/aws_iam.py:152-159 | provisioning twice ends in the same state as provisioning once; the second call does nothing exactly when the user had no tag whose key is outside the expected list, and re-tags otherwise |
| `Results.ExplainSecret` | src/keydra/providers/aws_iam.py:23-28 | the result names provider `iam`, the new key id and its secret |
| `Results.Redacted` | src/keydra/providers/aws_iam.py:336-340 | the result after redaction, or the `TypeError` Python raises when `value` does not support `in`, or contains `secret` without supporting item assignment; characterised by the `Redact…` lemmas |
| `Results.RedactMasksOnlySecret` | src/keydra/providers/aws_iam.py:336-340 | with `value.secret` present, only that field becomes `***`; every other field of `value` and of the result is unchanged |
| `Results.RedactWithoutSecret` | src/keydra/providers/aws_iam.py:336-340 | a result without `value`, or whose dictionary `value` has no `secret`, is returned unchanged |
| `Results.RedactIdempotent` | src/keydra/providers/aws_iam.py:336-340 | redacting a redacted result changes nothing |
| `Results.RedactExplainedSecret` | src/keydra/providers/aws_iam.py:23-28 | redacting a rotation result hides the secret and keeps provider and key id |
| `Results.ResultEnvelope.Redact` | src/keydra/providers/aws_iam.py:336-340 | the in-place redaction leaves the envelope as `Redacted` describes; when it raises, nothing was written |
| `Results.Distribute` | src/keydra/providers/aws_iam.py:332-333 | distribution always fails with "IAM does not support distribution" |
| `Results.HasCreds` | src/keydra/providers/aws_iam.py:367-369 | the provider needs no external credentials |
| `Validation.FirstWrongType` | src/keydra/providers/aws_iam.py:353-356 | the type scan reports nothing exactly when every option is absent, falsy or of its type; otherwise it reports the first failing option |
| `Validation.FirstWrongTypeOfAllowed` | src/keydra/providers/aws_iam.py:351-356 | the options are checked in the order tags (dict), groups (list), policies (list) |
| `Validation.ValidateSpec` | src/keydra/providers/aws_iam.py:343-365 | the verdict in the source's order: base check, no `config`, type scan, unknown keys; characterised by `ValidateSpecAccepts` and the lemmas beside it |
| `Validation.ValidateSpecAccepts` | src/keydra/providers/aws_iam.py:343-365 | accepted exactly when the base check passes and any `config` is a dict of well-typed, recognised options; the boolean returned is true exactly then |
| `Validation.NoConfigIsGood` | src/keydra/providers/aws_iam.py:348-349 | without `config` the answer is `(True, 'All good!')` |
| `Validation.TypeCheckBeforeUnknownKeys` | src/keydra/providers/aws_iam.py:353-363 | a truthy `tags` that is not a dict, or a truthy `groups`/`policies` that is not a list, is reported before any unknown key |
| `Validation.UnknownOptionsReported` | src/keydra/providers/aws_iam.py:358-363 | with well-typed options, exactly the keys outside `{tags, groups, policies}` are reported |
| `IamClient.Client.constructor` | src/keydra/providers/aws_iam.py:32-37 | a new client starts with an empty account-id cache and no lookups made |
| `IamClient.Client.GetAwsAccountId` | src/keydra/providers/aws_iam.py:39-44 | returns the caller's account id; the identity-token service is asked exactly when the cache is empty (a ghost lookup counter grows by one then and otherwise not), and `Valid()` ties the counter to the cache, so the id is fetched at most once in the client's life |
| `IamClient.Client.MakePolicyArn` | src/keydra/providers/aws_iam.py:233-234 | the ARN of the named policy in the caller's account, through the cache: one lookup only when the cache was empty |
| `IamClient.Client.MakePolicyArns` | src/keydra/providers/aws_iam.py:263-264 | the expected ARN set; the account id is fetched once when there is at least one name and the cache is empty, and never otherwise |
| `IamClient.Client.CreateUserIfNotAvailable` | src/keydra/providers/aws_iam.py:142-172 | the account ends as `ProvisionedUsers` describes: created with the expected tags, tagged with a merge when the tag list differs in any way, or kept |
| `IamClient.Client.DeleteAccessKey` | src/keydra/providers/aws_iam.py:123-129 | the key is deleted and nothing else changes |
| `IamClient.Client.UpdateAccessKey` | src/keydra/providers/aws_iam.py:131-140 | the key's status is set and nothing else changes |
| `IamClient.Client.CreateAccessKey` | src/keydra/providers/aws_iam.py:109-121 | a new Active, never-used key is appended, or the service's key limit refuses it and nothing changes |
| `IamClient.Client.ChangeMembership` | src/keydra/providers/aws_iam.py:236-258 | one add/remove (attach/detach): a refused call is skipped and changes nothing |
| `IamClient.Client.ApplyChanges` | src/keydra/providers/aws_iam.py:196-231 | the account ends with the action applied to every item except the refused ones; the log (`CallLog`) names exactly the items, never one twice, and each entry's success is exactly "not refused" |
| `IamClient.Client.UpdateUserGroupMembership` | src/keydra/providers/aws_iam.py:174-231 | the groups end as `ReconcileStep` describes; the log (`ReconcileLog`) is one remove call for each group in `current - rightful` and one add call for each in `rightful - current`; list failure changes nothing and makes no call |
| `IamClient.Client.UpdateUserPolicies` | src/keydra/providers/aws_iam.py:260-288 | attachments end as `ReconcileStep` over the expected ARN set; the log (`ReconcileLog`) is one attach call for each ARN in `expected - current` and one detach call for each in `current - expected`; list failure changes no attachment and makes no call; at most one account-id lookup, only with a policy configured and an empty cache |
| `IamClient.Client.RetireUserKeys` | src/keydra/providers/aws_iam.py:296-318 | the user's keys end as `RetireKeys` of the listed keys |
| `IamClient.Client.PrepareUser` | src/keydra/providers/aws_iam.py:293-318 | provisioning followed by key retirement |
| `IamClient.Client.ReconcileMemberships` | src/keydra/providers/aws_iam.py:320-325 | groups and policies end as `ReconciledUser` describes |
| `IamClient.Client.Rotate` | src/keydra/providers/aws_iam.py:290-330 | only the descriptor's user changes, to `RotatedUser`; the result is `RotationOutcome`; with policies configured the cache ends filled, otherwise it is untouched; the account id is looked up only when policies are configured and the cache was empty, and then once |
| `IamClient.RotatedUser` | src/keydra/providers/aws_iam.py:290-327 | the descriptor's user after a whole rotation: provisioned, keys retired, groups and policies reconciled, and the new key added unless the key limit refuses it |
| `IamClient.RotationOutcome` | src/keydra/providers/aws_iam.py:290-330 | the explained new credential, or the creation error raised as the rotation's failure |
| `RotationProperties.RotationWithoutFaults` | src/keydra/providers/aws_iam.py:290-327 | without failures, from at most 2 keys: success with the new credential; tags are the expected ones merged into the user's own, so a tag is held exactly when it is expected or an old tag whose key is not expected; exactly the configured groups and policy ARNs; only the new key Active |
| `RotationProperties.FreshAccountRotation` | src/keydra/providers/aws_iam.py:290-327 | a fresh account with group `g1` and policy `p1` gets a user tagged `managedby=keydra`, in `g1`, with `p1` attached and one new key |

## Left out

- The boto3 and STS calls are not modelled as network I/O. Each is an operation on the abstract account state.
- Logging through `LOGGER` is left out; it has no effect on behaviour.
- The `exponential_backoff_retry(3)` decorator is left out because it re-runs the whole call. The `ClientError` to `RotationException` wrapping appears only as `RotationError`.
- Failures of the other service calls are not modelled:
  - errors from `get_user` other than a missing user;
  - errors from `create_user` and `tag_user`;
  - errors from the key list, delete and update calls;
  - errors from `get_access_key_last_used` (lines 78-80);
  - errors from `get_caller_identity` (lines 41-42). Such a failure would abort the rotation as `RotationException` after the keys were retired and the groups reconciled.
- `BaseProvider.validate_spec` is not part of this model. Its verdict is an input of `Validation.ValidateSpec`.
- Real datetimes are replaced by integers, and the key's `CreateDate` is dropped.
- The `UserName` field of key records is dropped. The keys listed for a user belong to that user.
- IamClient.Client.constructor: the `session` argument (lines 32-36) is dropped, and the model has one account, `callerAccount`. IAM calls go through the given session, but `_get_aws_account_id` asks the default session's STS client (lines 41-42). With a non-default session the policy ARNs can name another account than the one holding the user. Then every attach is refused and every current policy is detached, which the model can express only as faults.
- Concurrent first use of the account-id cache is not modelled. The model is sequential.
- Listings are taken whole. The source reads only the first page of `list_groups_for_user`, `list_attached_user_policies` and `list_access_keys`.
- IamClient.Client.CreateUserIfNotAvailable: the merged tag list puts the untouched old tags first and the given ones after. The service's listing order is not specified, and line 155 compares lists, so that order is a modelling choice.
- Provisioning.ProvisionIdempotent: its `Kept` direction (no old tag outside the expected keys, so the second pass does nothing) rests on the merge order chosen for `TagUser`. If the service lists merged tags in another order, line 155 can differ on every run. The re-tag direction holds in any order.
- Provisioning.TagUser: compares tag keys exactly, while IAM treats user tag keys case-insensitively.
- RotationProperties.RotationWithoutFaults: a configured tag with key `managedby` puts two `managedby` tags in the expected list (lines 143-150). IAM refuses a tag list with a repeated key, so the source ends such a rotation in `RotationException`. The model has no such refusal and reports success.
- IamClient.Client.Rotate: takes a typed configuration. Source behaviours on oddly typed `config` values are not modelled:
  - falsy options that `validate_spec` accepts: `policies: None` or `0` make `frozenset` raise `TypeError` at lines 324-325, outside the `ClientError` handler; `groups: None` or `0` becomes a one-element group set of a non-name;
  - a string `policies` becomes a set of characters;
  - a truthy non-dict `tags` raises `AttributeError` at line 149 (a falsy one is skipped at line 148);
  - non-string group names are passed on.
- Validation.Outcome: the message for unknown options omits Python's rendering of the set of names. `Validation.Verdict.Unsupported` carries that set instead.
- Validation.ValidateSpec: a `config` that is not a dict makes the source raise `AttributeError`. The model reports this as the verdict `ConfigNotADict`.
- The validator rejects a truthy scalar `groups` value, yet group reconciliation accepts one. Both behaviours are modelled as the code has them.
