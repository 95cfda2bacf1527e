/**
 * The IAM provider's client over an abstract account state: the users with
 * their tags, access keys, groups and attached policies, and the lazily
 * cached account id. Each identity-service call is a small method on that
 * state; `Rotate` runs the rotation of the provider and is proved to end in
 * the state that the pure modules describe.
 */
module IamClient {
  import opened Wrappers
  import opened IamTypes
  import opened KeySelection
  import opened KeyLifecycle
  import opened Reconcile
  import opened PolicyArns
  import opened Provisioning
  import opened Results

  class Client {
    /** The account's users, by name. */
    var users: map<string, User>
    /** The account-id cache; empty until first needed. */
    var accountId: Option<string>
    /** How many times the identity-token service was asked for the account id. */
    ghost var accountLookups: nat
    /** The account the ambient credentials belong to (what the identity-token service reports). */
    const callerAccount: string

    ghost predicate Valid()
      reads this
    {
      && (accountId.Some? ==> accountId.value == callerAccount)
      && accountLookups == (if accountId.Some? then 1 else 0)
      && forall n :: n in users ==> DistinctIds(users[n].keys)
    }

    constructor (users: map<string, User>, callerAccount: string)
      requires forall n :: n in users ==> DistinctIds(users[n].keys)
      ensures Valid()
      ensures this.users == users && this.callerAccount == callerAccount && accountId == None
      ensures accountLookups == 0
    {
      this.users := users;
      this.callerAccount := callerAccount;
      accountId := None;
      accountLookups := 0;
    }

    /**
     * The account id, fetched on first use and cached afterwards: the
     * identity-token service is asked only when the cache is empty, so at
     * most once in the client's life (`Valid`).
     */
    method GetAwsAccountId() returns (id: string)
      requires Valid()
      modifies this`accountId, this`accountLookups
      ensures Valid()
      ensures id == callerAccount && accountId == Some(callerAccount)
      ensures accountLookups == old(accountLookups) + (if old(accountId).None? then 1 else 0)
    {
      if accountId.None? {
        accountId := Some(callerAccount);
        accountLookups := accountLookups + 1;
      }
      id := accountId.value;
    }

    /** The ARN of the managed policy `name` in the caller's account. */
    method MakePolicyArn(name: string) returns (arn: string)
      requires Valid()
      modifies this`accountId, this`accountLookups
      ensures Valid()
      ensures arn == PolicyArn(callerAccount, name) && accountId == Some(callerAccount)
      ensures accountLookups == old(accountLookups) + (if old(accountId).None? then 1 else 0)
    {
      var account := GetAwsAccountId();
      arn := PolicyArn(account, name);
    }

    /**
     * Creates the user with the expected tags when absent, or tags it with
     * the expected list when its tags differ from that list.
     */
    method CreateUserIfNotAvailable(name: string, options: Config) returns (action: ProvisionAction)
      requires Valid()
      modifies this`users
      ensures Valid()
      ensures users == ProvisionedUsers(old(users), name, ExpectedTags(options.tags))
      ensures action == ProvisionActionOf(old(users), name, ExpectedTags(options.tags))
    {
      var expected := BuildExpectedTags(options.tags);
      if name in users {
        if users[name].tags != expected {
          users := users[name := users[name].(tags := TagUser(users[name].tags, expected))];
          action := Retagged;
        } else {
          action := Kept;
        }
      } else {
        users := users[name := NewUser(expected)];
        action := Created;
      }
    }

    /** Deletes the access key `id` of `user`. */
    method DeleteAccessKey(user: string, id: string)
      requires Valid() && user in users
      modifies this`users
      ensures Valid()
      ensures users == old(users)[user := old(users)[user].(keys := WithoutKey(old(users)[user].keys, id))]
    {
      WithoutKeyDistinct(users[user].keys, id);
      users := users[user := users[user].(keys := WithoutKey(users[user].keys, id))];
    }

    /** Sets the status of the access key `id` of `user`. */
    method UpdateAccessKey(user: string, id: string, active: bool)
      requires Valid() && user in users
      modifies this`users
      ensures Valid()
      ensures users == old(users)[user := old(users)[user].(keys :=
        SetStatus(old(users)[user].keys, id, if active then Active else Inactive))]
    {
      var status := if active then Active else Inactive;
      var keys := SetStatus(users[user].keys, id, status);
      assert forall i :: 0 <= i < |keys| ==> keys[i].id == users[user].keys[i].id;
      users := users[user := users[user].(keys := keys)];
    }

    /** Creates a new access key for `user`; the service refuses beyond `MaxKeys` keys. */
    method CreateAccessKey(user: string, cred: Credential) returns (r: Result<Credential, RotationError>)
      requires Valid() && user in users && !HasKey(users[user].keys, cred.accessKeyId)
      modifies this`users
      ensures Valid()
      ensures CreateKey(old(users)[user].keys, cred).Failure? ==>
        r == Failure(CreateKey(old(users)[user].keys, cred).error) && users == old(users)
      ensures CreateKey(old(users)[user].keys, cred).Success? ==>
        r == Success(cred) && users == old(users)[user := old(users)[user].(keys := CreateKey(old(users)[user].keys, cred).value)]
    {
      var keys := users[user].keys;
      if |keys| >= MaxKeys {
        r := Failure(KeyLimitExceeded);
      } else {
        var created := keys + [NewKey(cred)];
        forall i, j | 0 <= i < j < |created| ensures created[i].id != created[j].id {
          assert j == |keys| && created[i] == keys[i];
        }
        users := users[user := users[user].(keys := created)];
        r := Success(cred);
      }
    }
 
    /** Adds or removes one membership (group or policy); a refused call is skipped. */
    method ChangeMembership(user: string, m: Membership, item: string, action: Action, failing: set<string>)
      returns (ok: bool)
      requires Valid() && user in users
      modifies this`users
      ensures Valid()
      ensures ok == (item !in failing)
      ensures users == old(users)[user := WithHeld(old(users)[user], m, Applied(Held(old(users)[user], m), {item}, action, failing))]
    {
      ok := item !in failing;
      var held := Held(users[user], m);
      var next := if !ok then held else if action == Add then held + {item} else held - {item};
      assert next == Applied(held, {item}, action, failing);
      users := users[user := WithHeld(users[user], m, next)];
    }

    /**
     * Attempts `action` on every item, one call each, each failure skipped;
     * the log holds one entry per item.
     */
    method ApplyChanges(user: string, m: Membership, items: set<string>, action: Action, failing: set<string>)
      returns (log: seq<Change>)
      requires Valid() && user in users
      modifies this`users
      ensures Valid()
      ensures users == old(users)[user := WithHeld(old(users)[user], m, Applied(Held(old(users)[user], m), items, action, failing))]
      ensures CallLog(log, items, action, failing)
    {
      ghost var u := users[user];
      var held := Held(u, m);
      log := [];
      var todo := items;
      ghost var done: set<string> := {};
      assert Applied(held, done, action, failing) == held;
      assert WithHeld(u, m, held) == u;
      while todo != {}
        invariant done + todo == items && done !! todo
        invariant Valid() && user in users
        invariant users == old(users)[user := WithHeld(u, m, Applied(held, done, action, failing))]
        invariant CallLog(log, done, action, failing)
        decreases todo
      {
        var x :| x in todo;
        var ok := ChangeMembership(user, m, x, action, failing);
        AppliedStep(held, done, x, action, failing);
        CallLogStep(log, done, x, action, ok, failing);
        log := log + [Change(x, action, ok)];
        todo := todo - {x};
        done := done + {x};
      }
    }

    /**
     * Group reconciliation: removes the memberships not wanted, then adds
     * the wanted ones not held, each call independently; the log records
     * every attempted change. When the groups cannot be listed, nothing happens.
     */
    method UpdateUserGroupMembership(user: string, groups: GroupsSpec, faults: Faults) returns (log: seq<Change>)
      requires Valid()
      modifies this`users
      ensures Valid()
      ensures user !in old(users) || faults.listGroupsFails ==> users == old(users) && log == []
      ensures user in old(users) ==> users == old(users)[user := old(users)[user].(groups :=
        ReconcileStep(old(users)[user].groups, RightfulGroups(groups), faults.listGroupsFails, faults.failingGroups))]
      ensures user in old(users) && !faults.listGroupsFails ==>
        ReconcileLog(log, old(users)[user].groups, RightfulGroups(groups), faults.failingGroups)
    {
      log := [];
      if user !in users || faults.listGroupsFails {
        assert user in users ==> users[user := users[user].(groups := users[user].groups)] == users;
        return;
      }
      var rightful := RightfulGroups(groups);
      var current := users[user].groups;
      var failing := faults.failingGroups;
      var removed := ApplyChanges(user, GroupMembership, Removals(current, rightful), Remove, failing);
      var added := ApplyChanges(user, GroupMembership, Additions(current, rightful), Add, failing);
      log := removed + added;
      ReconcileLogJoin(removed, added, current, rightful, failing);
    }
 
    /** The ARN of every configured policy name; the account id is fetched with the first. */
    method MakePolicyArns(names: set<string>) returns (arns: set<string>)
      requires Valid()
      modifies this`accountId, this`accountLookups
      ensures Valid()
      ensures arns == ExpectedArns(callerAccount, names)
      ensures accountId == if names == {} then old(accountId) else Some(callerAccount)
      ensures accountLookups == old(accountLookups) + (if old(accountId).None? && names != {} then 1 else 0)
    {
      arns := {};
      var todo := names;
      while todo != {}
        invariant todo <= names
        invariant Valid()
        invariant arns == ExpectedArns(callerAccount, names - todo)
        invariant accountId == if todo == names then old(accountId) else Some(callerAccount)
        decreases todo
      {
        var p :| p in todo;
        var arn := MakePolicyArn(p);
        assert ExpectedArns(callerAccount, names - (todo - {p}))
            == ExpectedArns(callerAccount, names - todo) + {arn};
        arns := arns + {arn};
        todo := todo - {p};
      }
      assert names - todo == names;
    }

    /**
     * Policy reconciliation: builds the expected ARN set (fetching the account
     * id on the first name), then attaches the expected ARNs not attached and
     * detaches the attached ones not expected, each call independently. When
     * the attached policies cannot be listed, no attachment changes.
     */
    method UpdateUserPolicies(user: string, expectedPolicies: set<string>, faults: Faults) returns (log: seq<Change>)
      requires Valid()
      modifies this`users, this`accountId, this`accountLookups
      ensures Valid()
      ensures accountId == if expectedPolicies == {} then old(accountId) else Some(callerAccount)
      ensures accountLookups == old(accountLookups) + (if old(accountId).None? && expectedPolicies != {} then 1 else 0)
      ensures user !in old(users) || faults.listPoliciesFails ==> users == old(users) && log == []
      ensures user in old(users) ==> users == old(users)[user := old(users)[user].(policies :=
        ReconcileStep(old(users)[user].policies, ExpectedArns(callerAccount, expectedPolicies),
                      faults.listPoliciesFails, faults.failingPolicies))]
      ensures user in old(users) && !faults.listPoliciesFails ==>
        ReconcileLog(log, old(users)[user].policies, ExpectedArns(callerAccount, expectedPolicies), faults.failingPolicies)
    {
      var arns := MakePolicyArns(expectedPolicies);
      log := [];
      if user !in users || faults.listPoliciesFails {
        assert user in users ==> users[user := users[user].(policies := users[user].policies)] == users;
        return;
      }
      var current := users[user].policies;
      var failing := faults.failingPolicies;
      var attached := ApplyChanges(user, PolicyAttachment, Additions(current, arns), Add, failing);
      var detached := ApplyChanges(user, PolicyAttachment, Removals(current, arns), Remove, failing);
      log := attached + detached;
      ReconcileLogJoin(detached, attached, current, arns, failing);
      AddThenRemove(current, arns, failing);
    }
 
    /**
     * The key part of a rotation for the existing user `name`: with more than
     * one key the chosen candidate is deleted; a single key that then remains
     * is made Inactive.
     */
    method RetireUserKeys(name: string)
      requires Valid() && name in users
      modifies this`users
      ensures Valid()
      ensures users == old(users)[name := old(users)[name].(keys := RetireKeys(old(users)[name].keys))]
    {
      ghost var u0 := users[name];
      var keys := users[name].keys;
      if |keys| > 1 {
        var candidate, _ := PickBestCandidate(keys);
        if candidate.Some? {
          DeleteAccessKey(name, candidate.value.id);
          keys := WithoutKey(keys, candidate.value.id);
        }
      }
      assert keys == AfterDelete(u0.keys) && users[name].keys == keys;
      if |keys| == 1 {
        // the remaining key becomes inactive, so it is the last one to go
        UpdateAccessKey(name, keys[0].id, false);
        DeactivateSingle(keys);
      }
      assert users[name] == u0.(keys := RetireKeys(u0.keys));
    }

    /** Group and policy reconciliation for the existing user `name`. */
    method ReconcileMemberships(name: string, config: Config, faults: Faults)
      requires Valid() && name in users
      modifies this`users, this`accountId, this`accountLookups
      ensures Valid()
      ensures users == old(users)[name := ReconciledUser(old(users)[name], config, callerAccount, faults)]
      ensures accountId == if config.policies == [] then old(accountId) else Some(callerAccount)
      ensures accountLookups == old(accountLookups) + (if old(accountId).None? && config.policies != [] then 1 else 0)
    {
      ghost var u0 := users[name];
      var _ := UpdateUserGroupMembership(name, config.groups, faults);
      ghost var u1 := users[name];
      var policies := PolicyNames(config);
      assert policies == {} <==> config.policies == [] by {
        if config.policies != [] {
          assert config.policies[0] in policies;
        }
      }
      var _ := UpdateUserPolicies(name, policies, faults);
      assert users[name] == u1.(policies := ReconcileStep(u0.policies, ExpectedArns(callerAccount, policies),
                                                        faults.listPoliciesFails, faults.failingPolicies));
    }

    /** Provisioning of the user `secret.key` followed by the retirement of its keys. */
    method PrepareUser(secret: Secret)
      requires Valid()
      modifies this`users
      ensures Valid()
      ensures users == old(users)[secret.key :=
        ProvisionedUser(old(users), secret).(keys := RetireKeys(ProvisionedUser(old(users), secret).keys))]
    {
      var name := secret.key;
      var _ := CreateUserIfNotAvailable(name, secret.config);
      ProvisionedSpec(old(users), name, ExpectedTags(secret.config.tags));
      ghost var u0 := users[name];
      assert u0 == ProvisionedUser(old(users), secret);
      assert users == old(users)[name := u0];
      RetireUserKeys(name);
    }

    /**
     * One rotation for the descriptor `secret`: provision the user, retire
     * keys, reconcile groups and policies, and create the new key `cred`
     * (whose id the service picks unused). Only the user `secret.key`
     * changes; a refused key creation fails the rotation with the earlier
     * changes in place.
     */
    method Rotate(secret: Secret, cred: Credential, faults: Faults) returns (r: Result<RotationResult, RotationError>)
      requires Valid()
      requires secret.key in users ==> !HasKey(users[secret.key].keys, cred.accessKeyId)
      modifies this
      ensures Valid()
      ensures users == old(users)[secret.key := RotatedUser(old(users), secret, cred, callerAccount, faults)]
      ensures r == RotationOutcome(old(users), secret, cred)
      ensures accountId == if secret.config.policies == [] then old(accountId) else Some(callerAccount)
      ensures accountLookups == old(accountLookups) + (if old(accountId).None? && secret.config.policies != [] then 1 else 0)
    {
      var name := secret.key;
      ghost var u0 := ProvisionedUser(old(users), secret);
      PrepareUser(secret);
      ghost var u1 := u0.(keys := RetireKeys(u0.keys));
      ReconcileMemberships(name, secret.config, faults);
      ghost var u2 := ReconciledUser(u1, secret.config, callerAccount, faults);
      assert users == old(users)[name := u2];
      RotateKeysDistinct(u0.keys, cred);
      var created := CreateAccessKey(name, cred);
      if created.Success? {
        r := Success(ExplainSecret(created.value));
        assert RotateKeys(u0.keys, cred) == CreateKey(u1.keys, cred);
        assert users[name] == RotatedUser(old(users), secret, cred, callerAccount, faults);
      } else {
        r := Failure(created.error);
        assert users[name] == RotatedUser(old(users), secret, cred, callerAccount, faults);
      }
    }
  }

  /** The user `secret.key` right after provisioning. */
  function ProvisionedUser(users: map<string, User>, secret: Secret): User
  {
    ProvisionedSpec(users, secret.key, ExpectedTags(secret.config.tags));
    ProvisionedUsers(users, secret.key, ExpectedTags(secret.config.tags))[secret.key]
  }

  /** The configured policy names as a set. */
  function PolicyNames(config: Config): set<string>
  {
    set p | p in config.policies
  }

  /** The user after group and policy reconciliation. */
  function ReconciledUser(u: User, config: Config, account: string, faults: Faults): User
  {
    u.(groups := ReconcileStep(u.groups, RightfulGroups(config.groups), faults.listGroupsFails, faults.failingGroups),
       policies := ReconcileStep(u.policies, ExpectedArns(account, PolicyNames(config)),
                                 faults.listPoliciesFails, faults.failingPolicies))
  }

  /** The user `secret.key` after a whole rotation, successful or not. */
  function RotatedUser(users: map<string, User>, secret: Secret, cred: Credential, account: string, faults: Faults): User
  {
    var u0 := ProvisionedUser(users, secret);
    var keys := match RotateKeys(u0.keys, cred)
      case Success(ks) => ks
      case Failure(_) => RetireKeys(u0.keys);
    ReconciledUser(u0, secret.config, account, faults).(keys := keys)
  }

  /** What a rotation returns. */
  function RotationOutcome(users: map<string, User>, secret: Secret, cred: Credential): Result<RotationResult, RotationError>
  {
    match RotateKeys(ProvisionedUser(users, secret).keys, cred)
    case Success(_) => Success(ExplainSecret(cred))
    case Failure(e) => Failure(e)
  }
}

/** Properties of whole rotations, stated on the functions `Client.Rotate` is proved to follow. */
module RotationProperties {
  import opened Wrappers
  import opened IamTypes
  import opened KeyLifecycle
  import opened Reconcile
  import opened PolicyArns
  import opened Provisioning
  import opened IamClient

  /**
   * When no reconciliation call fails and the user held at most `MaxKeys`
   * keys, a rotation succeeds with the new credential and leaves the user
   * with the expected tags merged into its own, exactly the configured groups and policies, and
   * at most `MaxKeys` keys of which only the new one is Active.
   */
  lemma RotationWithoutFaults(users: map<string, User>, secret: Secret, cred: Credential, account: string)
    requires secret.key in users ==>
      |users[secret.key].keys| <= MaxKeys && DistinctIds(users[secret.key].keys)
      && !HasKey(users[secret.key].keys, cred.accessKeyId)
    ensures RotationOutcome(users, secret, cred) == Success(RotationResult("iam", cred.accessKeyId, cred.secretAccessKey))
    ensures var u := RotatedUser(users, secret, cred, account, NoFaults);
      && u.tags == (if secret.key in users then TagUser(users[secret.key].tags, ExpectedTags(secret.config.tags))
                    else ExpectedTags(secret.config.tags))
      && (forall t :: t in u.tags <==>
            (t in ExpectedTags(secret.config.tags)
             || (secret.key in users && t in users[secret.key].tags && t.key !in TagKeys(ExpectedTags(secret.config.tags)))))
      && u.groups == RightfulGroups(secret.config.groups)
      && u.policies == ExpectedArns(account, PolicyNames(secret.config))
      && 1 <= |u.keys| <= MaxKeys && DistinctIds(u.keys)
      && u.keys[|u.keys| - 1] == NewKey(cred)
      && forall i :: 0 <= i < |u.keys| - 1 ==> u.keys[i].status == Inactive
  {
    var u0 := ProvisionedUser(users, secret);
    ProvisionedSpec(users, secret.key, ExpectedTags(secret.config.tags));
    if secret.key in users {
      TagUserMembers(users[secret.key].tags, ExpectedTags(secret.config.tags));
    }
    RotateKeepsOneActive(u0.keys, cred);
    ReconciledIsWanted(u0.groups, RightfulGroups(secret.config.groups), {});
    ReconciledIsWanted(u0.policies, ExpectedArns(account, PolicyNames(secret.config)), {});
  }

  /**
   * On an account without the user, a descriptor with group `g1` and policy
   * `p1` creates the user tagged `managedby=keydra`, in group `g1`, with the
   * policy attached and one new key.
   */
  lemma FreshAccountRotation(cred: Credential, account: string)
    ensures var secret := Secret("svc-a", Config([], GroupList(["g1"]), ["p1"]));
      && RotationOutcome(map[], secret, cred) == Success(RotationResult("iam", cred.accessKeyId, cred.secretAccessKey))
      && RotatedUser(map[], secret, cred, account, NoFaults)
         == User([ManagedByTag], [NewKey(cred)], {"g1"}, {"arn:aws:iam::" + account + ":policy/p1"})
  {
    var secret := Secret("svc-a", Config([], GroupList(["g1"]), ["p1"]));
    var empty: seq<(string, string)> := [];
    assert ExpectedTags(empty) == [ManagedByTag];
    assert PolicyNames(secret.config) == {"p1"};
    assert ExpectedArns(account, {"p1"}) == {PolicyArn(account, "p1")};
    assert RightfulGroups(secret.config.groups) == {"g1"};
    var u0 := ProvisionedUser(map[], secret);
    assert u0 == NewUser([ManagedByTag]);
    RotateNoKeys(cred);
    ReconciledIsWanted({}, {"g1"}, {});
    ReconciledIsWanted({}, {PolicyArn(account, "p1")}, {});
    assert PolicyArn(account, "p1") == "arn:aws:iam::" + account + ":policy/p1";
  }
}
