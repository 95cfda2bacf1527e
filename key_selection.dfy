/**
 * Choosing which access key to retire (`_pick_best_candidate`).
 *
 * `Pick` is the selection as a function of the keys in iteration order;
 * the lemmas state what it picks, and `PickBestCandidate` is the loop of
 * the source, proved to compute `Pick`.
 */
module KeySelection {
  import opened Wrappers
  import opened IamTypes

  /** The diagnostic tag recorded with the chosen key. */
  datatype Reason = InactiveKey | InitialOption | LastUsed

  /**
   * The candidate after `key` has been compared with `cand`: `key` wins only
   * when both were used and `key` was used strictly earlier.
   */
  function Challenge(cand: AccessKey, key: AccessKey): AccessKey
  {
    if key.lastUsed.Some? && cand.lastUsed.Some? && key.lastUsed.value < cand.lastUsed.value
    then key else cand
  }

  /** The candidate that results from walking `keys` starting from `cand`. */
  function PickFrom(cand: Option<AccessKey>, keys: seq<AccessKey>): Option<AccessKey>
    decreases |keys|
  {
    if keys == [] then cand
    else if keys[0].status != Active then Some(keys[0])
    else PickFrom(Some(Challenge(if cand.None? then keys[0] else cand.value, keys[0])), keys[1..])
  }

  /** The key the provider retires among `keys`, taken in iteration order. */
  function Pick(keys: seq<AccessKey>): Option<AccessKey>
  {
    PickFrom(None, keys)
  }

  predicate AllActive(keys: seq<AccessKey>)
  {
    forall i :: 0 <= i < |keys| ==> keys[i].status == Active
  }

  /**
   * `keys[j]` was used, no key was used earlier, and every key before it
   * was used strictly later: the first of the least recently used keys.
   */
  predicate IsFirstOldest(keys: seq<AccessKey>, j: int)
  {
    && 0 <= j < |keys|
    && keys[j].lastUsed.Some?
    && forall i :: 0 <= i < |keys| && keys[i].lastUsed.Some? ==>
         && keys[j].lastUsed.value <= keys[i].lastUsed.value
         && (i < j ==> keys[j].lastUsed.value < keys[i].lastUsed.value)
  }

  lemma {:induction false} PickFromMember(cand: Option<AccessKey>, keys: seq<AccessKey>)
    ensures cand.Some? || keys != [] ==> PickFrom(cand, keys).Some?
    ensures PickFrom(cand, keys) == cand || PickFrom(cand, keys).value in keys
    decreases |keys|
  {
    if keys != [] && keys[0].status == Active {
      var next := Challenge(if cand.None? then keys[0] else cand.value, keys[0]);
      PickFromMember(Some(next), keys[1..]);
      var r := PickFrom(Some(next), keys[1..]);
      assert r == Some(next) || r.value in keys[1..];
    }
  }

  /** For a non-empty key list the candidate exists and is one of the keys. */
  lemma PickIsMember(keys: seq<AccessKey>)
    requires keys != []
    ensures Pick(keys).Some? && Pick(keys).value in keys
  {
    PickFromMember(None, keys);
  }

  /** The empty key list has no candidate. */
  lemma PickEmpty()
    ensures Pick([]) == None
  {
  }

  lemma {:induction false} InactiveWinsFrom(cand: Option<AccessKey>, keys: seq<AccessKey>, k: int)
    requires 0 <= k < |keys| && keys[k].status != Active
    requires forall i :: 0 <= i < k ==> keys[i].status == Active
    ensures PickFrom(cand, keys) == Some(keys[k])
    decreases |keys|
  {
    if k > 0 {
      var next := Challenge(if cand.None? then keys[0] else cand.value, keys[0]);
      InactiveWinsFrom(Some(next), keys[1..], k - 1);
    }
  }

  /**
   * When some key is not Active, the first such key in iteration order is
   * chosen, whatever the timestamps.
   */
  lemma InactiveWins(keys: seq<AccessKey>, k: int)
    requires 0 <= k < |keys| && keys[k].status != Active
    requires forall i :: 0 <= i < k ==> keys[i].status == Active
    ensures Pick(keys) == Some(keys[k])
  {
    InactiveWinsFrom(None, keys, k);
  }

  lemma {:induction false} NeverUsedCandidateStays(c: AccessKey, keys: seq<AccessKey>)
    requires c.lastUsed.None? && AllActive(keys)
    ensures PickFrom(Some(c), keys) == Some(c)
    decreases |keys|
  {
    if keys != [] {
      assert Challenge(c, keys[0]) == c;
      NeverUsedCandidateStays(c, keys[1..]);
    }
  }

  /**
   * When every key is Active and the first key was never used, the first
   * key is chosen: no comparison with it takes place.
   */
  lemma FirstNeverUsedIsPicked(keys: seq<AccessKey>)
    requires keys != [] && AllActive(keys) && keys[0].lastUsed.None?
    ensures Pick(keys) == Some(keys[0])
  {
    NeverUsedCandidateStays(keys[0], keys[1..]);
  }

  lemma {:induction false} OldestFrom(c: AccessKey, keys: seq<AccessKey>) returns (j: int)
    requires c.lastUsed.Some? && AllActive(keys)
    ensures IsFirstOldest([c] + keys, j)
    ensures PickFrom(Some(c), keys) == Some(([c] + keys)[j])
    decreases |keys|
  {
    if keys == [] {
      j := 0;
      assert [c] + keys == [c];
    } else {
      var k, rest := keys[0], keys[1..];
      var ch := Challenge(c, k);
      assert AllActive(rest) by {
        forall i | 0 <= i < |rest| ensures rest[i].status == Active {
          assert rest[i] == keys[i + 1];
        }
      }
      var j' := OldestFrom(ch, rest);
      var s', s := [ch] + rest, [c] + keys;
      assert |s| == |s'| + 1 && s[0] == c && s[1] == k;
      assert forall i :: 1 <= i < |s'| ==> s'[i] == s[i + 1];
      if j' == 0 && ch == c {
        j := 0;
        forall i | 0 <= i < |s| && s[i].lastUsed.Some?
          ensures c.lastUsed.value <= s[i].lastUsed.value
        {
          if i >= 2 { assert s[i] == s'[i - 1]; }
        }
      } else if j' == 0 {
        j := 1;
        forall i | 0 <= i < |s| && s[i].lastUsed.Some?
          ensures k.lastUsed.value <= s[i].lastUsed.value
          ensures i < 1 ==> k.lastUsed.value < s[i].lastUsed.value
        {
          if i >= 2 { assert s[i] == s'[i - 1]; }
        }
      } else {
        j := j' + 1;
        var w := s'[j'];
        assert s[j] == w;
        forall i | 0 <= i < |s| && s[i].lastUsed.Some?
          ensures w.lastUsed.value <= s[i].lastUsed.value
          ensures i < j ==> w.lastUsed.value < s[i].lastUsed.value
        {
          if i >= 2 {
            assert s[i] == s'[i - 1];
          } else {
            assert s'[0] == ch;
            assert w.lastUsed.value < ch.lastUsed.value;
            assert i == 0 ==> ch.lastUsed.value <= c.lastUsed.value;
            assert i == 1 ==> ch.lastUsed.value <= k.lastUsed.value;
          }
        }
      }
      assert PickFrom(Some(c), keys) == PickFrom(Some(ch), rest);
    }
  }

  /**
   * When every key is Active and the first key was used, the chosen key is
   * the first of the least recently used keys: a later key displaces the
   * candidate only with a strictly earlier time, keys never used are never
   * preferred, and ties keep the key seen first.
   */
  lemma OldestUsedIsPicked(keys: seq<AccessKey>) returns (j: int)
    requires keys != [] && AllActive(keys) && keys[0].lastUsed.Some?
    ensures IsFirstOldest(keys, j) && Pick(keys) == Some(keys[j])
  {
    assert Challenge(keys[0], keys[0]) == keys[0];
    assert AllActive(keys[1..]) by {
      forall i | 0 <= i < |keys[1..]| ensures keys[1..][i].status == Active {
        assert keys[1..][i] == keys[i + 1];
      }
    }
    j := OldestFrom(keys[0], keys[1..]);
    assert [keys[0]] + keys[1..] == keys;
  }

  /** There is only one first-oldest key position. */
  lemma FirstOldestUnique(keys: seq<AccessKey>, j1: int, j2: int)
    requires IsFirstOldest(keys, j1) && IsFirstOldest(keys, j2)
    ensures j1 == j2
  {
  }

  /**
   * The selection loop. It also returns the diagnostic reason: `InactiveKey`
   * exactly when the chosen key is not Active, `InitialOption` only for the
   * first key, and `LastUsed` only for a key used strictly before the first one.
   */
  method PickBestCandidate(keys: seq<AccessKey>) returns (candidate: Option<AccessKey>, reason: Option<Reason>)
    ensures candidate == Pick(keys)
    ensures keys != [] ==> candidate.Some? && candidate.value in keys
    ensures keys == [] ==> candidate.None?
    ensures reason.None? <==> candidate.None?
    ensures reason == Some(InactiveKey) <==> candidate.Some? && candidate.value.status != Active
    ensures reason == Some(InitialOption) ==> candidate == Some(keys[0])
    ensures reason == Some(LastUsed) ==>
      && keys[0].lastUsed.Some? && candidate.value.lastUsed.Some?
      && candidate.value.lastUsed.value < keys[0].lastUsed.value
  {
    candidate, reason := None, None;
    var i := 0;
    while i < |keys|
      invariant 0 <= i <= |keys|
      invariant PickFrom(candidate, keys[i..]) == Pick(keys)
      invariant candidate.None? <==> i == 0
      invariant reason.None? <==> candidate.None?
      invariant candidate.Some? ==> candidate.value.status == Active && reason != Some(InactiveKey)
      invariant reason == Some(InitialOption) ==> candidate == Some(keys[0])
      invariant candidate.Some? && keys[0].lastUsed.None? ==> candidate == Some(keys[0])
      invariant candidate.Some? && keys[0].lastUsed.Some? ==>
        candidate.value.lastUsed.Some? && candidate.value.lastUsed.value <= keys[0].lastUsed.value
      invariant reason == Some(LastUsed) ==>
        && keys[0].lastUsed.Some? && candidate.value.lastUsed.Some?
        && candidate.value.lastUsed.value < keys[0].lastUsed.value
    {
      var key := keys[i];
      if key.status != Active {
        // an inactive key is always the best option
        candidate, reason := Some(key), Some(InactiveKey);
        break;
      }
      if candidate.None? {
        candidate, reason := Some(key), Some(InitialOption);
      }
      if key.lastUsed.Some? && candidate.value.lastUsed.Some? {
        if key.lastUsed.value < candidate.value.lastUsed.value {
          candidate, reason := Some(key), Some(LastUsed);
        }
      }
      assert keys[i..][1..] == keys[i + 1..];
      i := i + 1;
    }
    if keys != [] {
      PickIsMember(keys);
    }
  }
}
