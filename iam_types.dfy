/**
 * The abstract IAM account state that the provider reads and changes,
 * and the descriptor and result shapes it exchanges with its caller.
 */
module IamTypes {
  import opened Wrappers

  /** Status of an access key as the identity service reports it. */
  datatype Status = Active | Inactive

  /**
   * One access-key record. `lastUsed` is the key's last-used time as an
   * abstract, totally ordered integer; `None` when the key was never used.
   */
  datatype AccessKey = AccessKey(id: string, status: Status, lastUsed: Option<int>)

  /** A user tag. */
  datatype Tag = Tag(key: string, value: string)

  /** What the account holds for one IAM user. */
  datatype User = User(tags: seq<Tag>, keys: seq<AccessKey>, groups: set<string>, policies: set<string>)

  /** The credential pair the service returns when it creates an access key. */
  datatype Credential = Credential(accessKeyId: string, secretAccessKey: string)

  /** The `groups` option: a list of names, or a single scalar name. */
  datatype GroupsSpec = GroupList(names: seq<string>) | SingleGroup(name: string)

  /**
   * The `config` block of a secret descriptor as `rotate` reads it: the
   * tags as key/value pairs in the mapping's iteration order, the groups as
   * a list or a single name, the policy names as a list. An absent block,
   * or an absent option, is the empty value.
   */
  datatype Config = Config(tags: seq<(string, string)>, groups: GroupsSpec, policies: seq<string>)

  /** A secret descriptor: the IAM user name and its configuration. */
  datatype Secret = Secret(key: string, config: Config)

  /**
   * Which calls of the identity service fail during one reconciliation:
   * the listing of the user's groups or attached policies, and the single
   * add/remove (attach/detach) calls for the names (ARNs) given.
   */
  datatype Faults = Faults(
    listGroupsFails: bool, failingGroups: set<string>,
    listPoliciesFails: bool, failingPolicies: set<string>)

  const NoFaults := Faults(false, {}, false, {})

  /** What `rotate` returns: the provider name, the new key id and its secret. */
  datatype RotationResult = RotationResult(provider: string, key: string, secret: string)

  /** Why a rotation failed. */
  datatype RotationError = KeyLimitExceeded

  /** The number of access keys the identity service lets one user hold. */
  const MaxKeys := 2

  /** True when no two keys in `keys` share an id (they come from a dict keyed by id). */
  predicate DistinctIds(keys: seq<AccessKey>)
  {
    forall i, j :: 0 <= i < j < |keys| ==> keys[i].id != keys[j].id
  }

  /** True when some key of `keys` has id `id`. */
  predicate HasKey(keys: seq<AccessKey>, id: string)
  {
    exists i :: 0 <= i < |keys| && keys[i].id == id
  }
}
