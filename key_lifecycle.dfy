/**
 * The key lifecycle of one rotation, on the user's key list: retire the
 * chosen candidate when there is more than one key, deactivate the single
 * key that then remains, and create a new key. `IamClient.Client.Rotate`
 * performs these steps on the account state and is proved to end in
 * `RotateKeys`; the lemmas here state the key counts and statuses.
 */
module KeyLifecycle {
  import opened Wrappers
  import opened IamTypes
  import opened KeySelection

  /** The key list with the key `id` deleted (`keys_by_id.pop(id)`). */
  function WithoutKey(keys: seq<AccessKey>, id: string): seq<AccessKey>
  {
    if keys == [] then []
    else if keys[0].id == id then WithoutKey(keys[1..], id)
    else [keys[0]] + WithoutKey(keys[1..], id)
  }

  function Deactivated(k: AccessKey): AccessKey
  {
    k.(status := Inactive)
  }

  /** A freshly created key: Active and never used. */
  function NewKey(cred: Credential): AccessKey
  {
    AccessKey(cred.accessKeyId, Active, None)
  }

  /** The key list after deleting the candidate when more than one key exists. */
  function AfterDelete(keys: seq<AccessKey>): seq<AccessKey>
  {
    if |keys| > 1 && Pick(keys).Some? then WithoutKey(keys, Pick(keys).value.id) else keys
  }

  /** The key list after the delete step and the deactivation of a single remaining key. */
  function RetireKeys(keys: seq<AccessKey>): seq<AccessKey>
  {
    var rest := AfterDelete(keys);
    if |rest| == 1 then [Deactivated(rest[0])] else rest
  }

  /** Key creation as the identity service performs it, with its per-user key limit. */
  function CreateKey(keys: seq<AccessKey>, cred: Credential): Result<seq<AccessKey>, RotationError>
  {
    if |keys| >= MaxKeys then Failure(KeyLimitExceeded) else Success(keys + [NewKey(cred)])
  }

  /** The user's keys after a whole rotation, or the rotation error. */
  function RotateKeys(keys: seq<AccessKey>, cred: Credential): Result<seq<AccessKey>, RotationError>
  {
    CreateKey(RetireKeys(keys), cred)
  }

  lemma RestDistinct(keys: seq<AccessKey>)
    requires keys != [] && DistinctIds(keys)
    ensures DistinctIds(keys[1..])
  {
    var rest := keys[1..];
    forall i, j | 0 <= i < j < |rest| ensures rest[i].id != rest[j].id {
      assert rest[i] == keys[i + 1] && rest[j] == keys[j + 1];
    }
  }

  lemma HasKeyRest(keys: seq<AccessKey>, id: string)
    requires keys != []
    ensures HasKey(keys, id) <==> keys[0].id == id || HasKey(keys[1..], id)
  {
    var rest := keys[1..];
    if HasKey(keys, id) && keys[0].id != id {
      var i :| 0 <= i < |keys| && keys[i].id == id;
      assert rest[i - 1] == keys[i];
    }
    if HasKey(rest, id) {
      var i :| 0 <= i < |rest| && rest[i].id == id;
      assert keys[i + 1] == rest[i];
    }
  }

  lemma FirstIdNotInRest(keys: seq<AccessKey>, k: AccessKey)
    requires keys != [] && DistinctIds(keys) && k in keys[1..]
    ensures k.id != keys[0].id
  {
    var m :| 0 <= m < |keys[1..]| && keys[1..][m] == k;
    assert keys[m + 1] == k;
  }

  /** Deleting `id` keeps exactly the keys whose id differs. */
  lemma {:induction false} WithoutKeyMembers(keys: seq<AccessKey>, id: string)
    ensures forall k :: k in WithoutKey(keys, id) <==> k in keys && k.id != id
  {
    if keys != [] {
      WithoutKeyMembers(keys[1..], id);
      assert keys == [keys[0]] + keys[1..];
    }
  }

  /** Deleting a key that is not there changes nothing. */
  lemma {:induction false} WithoutAbsentKey(keys: seq<AccessKey>, id: string)
    requires !HasKey(keys, id)
    ensures WithoutKey(keys, id) == keys
  {
    if keys != [] {
      HasKeyRest(keys, id);
      WithoutAbsentKey(keys[1..], id);
      assert keys == [keys[0]] + keys[1..];
    }
  }

  /** Deleting a present key from keys with distinct ids removes exactly one key. */
  lemma {:induction false} WithoutKeyLength(keys: seq<AccessKey>, id: string)
    requires DistinctIds(keys) && HasKey(keys, id)
    ensures |WithoutKey(keys, id)| == |keys| - 1
  {
    HasKeyRest(keys, id);
    RestDistinct(keys);
    if keys[0].id == id {
      WithoutAbsentKey(keys[1..], id);
    } else {
      WithoutKeyLength(keys[1..], id);
    }
  }

  lemma ConsDistinct(x: AccessKey, s: seq<AccessKey>)
    requires DistinctIds(s) && forall k :: k in s ==> k.id != x.id
    ensures DistinctIds([x] + s)
  {
    var w := [x] + s;
    forall i, j | 0 <= i < j < |w| ensures w[i].id != w[j].id {
      assert w[j] == s[j - 1];
      if 0 < i {
        assert w[i] == s[i - 1];
      }
    }
  }

  /** Deleting a key keeps the ids distinct. */
  lemma {:induction false} WithoutKeyDistinct(keys: seq<AccessKey>, id: string)
    requires DistinctIds(keys)
    ensures DistinctIds(WithoutKey(keys, id))
  {
    if keys != [] {
      var rest := keys[1..];
      RestDistinct(keys);
      WithoutKeyDistinct(rest, id);
      if keys[0].id != id {
        var wr := WithoutKey(rest, id);
        WithoutKeyMembers(rest, id);
        forall k | k in wr ensures k.id != keys[0].id {
          FirstIdNotInRest(keys, k);
        }
        ConsDistinct(keys[0], wr);
      }
    }
  }

  /** With no prior key nothing is deleted or deactivated and one key is created. */
  lemma RotateNoKeys(cred: Credential)
    ensures RotateKeys([], cred) == Success([NewKey(cred)])
  {
    var none: seq<AccessKey> := [];
    assert none + [NewKey(cred)] == [NewKey(cred)];
  }

  /** With one prior key that key becomes Inactive and a new key joins it. */
  lemma RotateOneKey(k: AccessKey, cred: Credential)
    ensures Pick([k]) == Some(k)
    ensures RotateKeys([k], cred) == Success([Deactivated(k), NewKey(cred)])
  {
    assert [k][1..] == [];
    assert Challenge(k, k) == k;
    assert PickFrom(Some(k), []) == Some(k);
    assert Pick([k]) == PickFrom(Some(k), [k][1..]) || k.status != Active;
    assert [Deactivated(k)] + [NewKey(cred)] == [Deactivated(k), NewKey(cred)];
  }

  /**
   * With two prior keys the candidate is deleted, the other key becomes
   * Inactive and a new key is added: two keys again.
   */
  lemma RotateTwoKeys(keys: seq<AccessKey>, cred: Credential)
    requires |keys| == 2 && DistinctIds(keys)
    ensures Pick(keys) == Some(keys[0]) || Pick(keys) == Some(keys[1])
    ensures var survivor := if Pick(keys) == Some(keys[0]) then keys[1] else keys[0];
      RotateKeys(keys, cred) == Success([Deactivated(survivor), NewKey(cred)])
  {
    PickIsMember(keys);
    var c := Pick(keys).value;
    assert c == keys[0] || c == keys[1];
    assert keys[1..] == [keys[1]] && keys[1..][1..] == [];
    var none: seq<AccessKey> := [];
    assert WithoutKey(none, c.id) == [];
    assert [keys[1]][1..] == none;
    if c == keys[0] {
      assert keys[1].id != c.id;
      assert WithoutKey([keys[1]], c.id) == [keys[1]] + WithoutKey(none, c.id);
      assert WithoutKey(keys, c.id) == WithoutKey([keys[1]], c.id);
      assert WithoutKey(keys, c.id) == [keys[1]];
    } else {
      assert keys[0].id != c.id;
      assert WithoutKey([keys[1]], c.id) == WithoutKey(none, c.id);
      assert WithoutKey(keys, c.id) == [keys[0]] + WithoutKey([keys[1]], c.id);
      assert WithoutKey(keys, c.id) == [keys[0]];
    }
    var survivor := if c == keys[0] then keys[1] else keys[0];
    assert RetireKeys(keys) == [Deactivated(survivor)];
    assert [Deactivated(survivor)] + [NewKey(cred)] == [Deactivated(survivor), NewKey(cred)];
  }

  /**
   * With two prior keys of which one is not Active, the first such key is
   * deleted whatever the timestamps, and the other becomes Inactive.
   */
  lemma RotateTwoKeysDeletesInactive(keys: seq<AccessKey>, k: int, cred: Credential)
    requires |keys| == 2 && DistinctIds(keys)
    requires 0 <= k < 2 && keys[k].status != Active
    requires forall i :: 0 <= i < k ==> keys[i].status == Active
    ensures RotateKeys(keys, cred) == Success([Deactivated(keys[1 - k]), NewKey(cred)])
  {
    InactiveWins(keys, k);
    RotateTwoKeys(keys, cred);
  }

  /**
   * With more than two prior keys the candidate is deleted, no surviving key
   * changes status, and the key limit makes the creation fail.
   */
  lemma RotateManyKeys(keys: seq<AccessKey>, cred: Credential)
    requires |keys| > 2 && DistinctIds(keys)
    ensures Pick(keys).Some? && Pick(keys).value in keys
    ensures RetireKeys(keys) == WithoutKey(keys, Pick(keys).value.id)
    ensures |RetireKeys(keys)| == |keys| - 1
    ensures RotateKeys(keys, cred) == Failure(KeyLimitExceeded)
  {
    PickIsMember(keys);
    var c := Pick(keys).value;
    var i :| 0 <= i < |keys| && keys[i] == c;
    assert HasKey(keys, c.id);
    WithoutKeyLength(keys, c.id);
  }

  /**
   * From at most `MaxKeys` keys with distinct ids, and a new id not in use,
   * rotation succeeds and leaves at most `MaxKeys` keys with distinct ids, of
   * which exactly the new one, the last, is Active.
   */
  lemma RotateKeepsOneActive(keys: seq<AccessKey>, cred: Credential)
    requires |keys| <= MaxKeys && DistinctIds(keys) && !HasKey(keys, cred.accessKeyId)
    ensures RotateKeys(keys, cred).Success?
    ensures var r := RotateKeys(keys, cred).value;
      && 1 <= |r| <= MaxKeys && DistinctIds(r)
      && r[|r| - 1] == NewKey(cred)
      && forall i :: 0 <= i < |r| - 1 ==> r[i].status == Inactive
  {
    if |keys| == 1 {
      RotateOneKey(keys[0], cred);
      assert keys == [keys[0]];
    } else if |keys| == 2 {
      RotateTwoKeys(keys, cred);
    }
  }

  /** The key list after the status of key `id` was set to `status` (`update_access_key`). */
  function SetStatus(keys: seq<AccessKey>, id: string, status: Status): (r: seq<AccessKey>)
    ensures |r| == |keys|
    ensures forall i :: 0 <= i < |keys| ==> r[i] == if keys[i].id == id then keys[i].(status := status) else keys[i]
  {
    seq(|keys|, i requires 0 <= i < |keys| => if keys[i].id == id then keys[i].(status := status) else keys[i])
  }

  /** Deactivating the only key is `Deactivated` of that key. */
  lemma DeactivateSingle(keys: seq<AccessKey>)
    requires |keys| == 1
    ensures SetStatus(keys, keys[0].id, Inactive) == [Deactivated(keys[0])]
  {
  }

  /**
   * Retiring keeps ids distinct and introduces no id, so a new key with an
   * unused id keeps all ids of the user distinct.
   */
  lemma RotateKeysDistinct(keys: seq<AccessKey>, cred: Credential)
    requires DistinctIds(keys) && !HasKey(keys, cred.accessKeyId)
    ensures DistinctIds(RetireKeys(keys))
    ensures forall id :: HasKey(RetireKeys(keys), id) ==> HasKey(keys, id)
    ensures RotateKeys(keys, cred).Success? ==> DistinctIds(RotateKeys(keys, cred).value)
  {
    var rest := AfterDelete(keys);
    if |keys| > 1 && Pick(keys).Some? {
      WithoutKeyDistinct(keys, Pick(keys).value.id);
      WithoutKeyMembers(keys, Pick(keys).value.id);
    }
    assert DistinctIds(rest);
    forall id | HasKey(rest, id) ensures HasKey(keys, id) {
      var i :| 0 <= i < |rest| && rest[i].id == id;
      assert rest[i] in keys;
      var j :| 0 <= j < |keys| && keys[j] == rest[i];
    }
    var retired := RetireKeys(keys);
    forall id | HasKey(retired, id) ensures HasKey(rest, id) {
      var i :| 0 <= i < |retired| && retired[i].id == id;
      if |rest| == 1 { assert rest[0].id == id; }
    }
    if RotateKeys(keys, cred).Success? {
      var r := RotateKeys(keys, cred).value;
      assert r == retired + [NewKey(cred)];
      forall i, j | 0 <= i < j < |r| ensures r[i].id != r[j].id {
        assert |retired| < MaxKeys && j == |r| - 1;
        assert r[i] == retired[i] && HasKey(retired, r[i].id);
      }
    }
  }

  /**
   * Across rotations the keys settle: whatever at most `MaxKeys` keys a
   * user starts with, two rotations leave the first new key Inactive and
   * the second new key Active, and nothing else.
   */
  lemma RotateTwice(keys: seq<AccessKey>, c1: Credential, c2: Credential)
    requires |keys| <= MaxKeys && DistinctIds(keys)
    requires !HasKey(keys, c1.accessKeyId) && !HasKey(keys, c2.accessKeyId) && c1.accessKeyId != c2.accessKeyId
    ensures RotateKeys(keys, c1).Success?
    ensures RotateKeys(RotateKeys(keys, c1).value, c2) == Success([Deactivated(NewKey(c1)), NewKey(c2)])
  {
    RotateKeepsOneActive(keys, c1);
    var once := RotateKeys(keys, c1).value;
    if |once| == 1 {
      assert once == [NewKey(c1)];
      RotateOneKey(NewKey(c1), c2);
    } else {
      assert |once| == 2 && once[1] == NewKey(c1) && once[0].status == Inactive;
      InactiveWins(once, 0);
      RotateTwoKeys(once, c2);
    }
  }
}
