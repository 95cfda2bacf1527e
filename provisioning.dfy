/**
 * Idempotent user provisioning (`_create_user_if_not_available`): the
 * expected tag list, and the account's users after the user was created
 * or re-tagged.
 */
module Provisioning {
  import opened IamTypes

  /** The tag every managed user carries. */
  const ManagedByTag := Tag("managedby", "keydra")

  /** `managedby=keydra` followed by the configured tags in their order. */
  function ExpectedTags(options: seq<(string, string)>): seq<Tag>
  {
    [ManagedByTag] + seq(|options|, i requires 0 <= i < |options| => Tag(options[i].0, options[i].1))
  }

  /** Builds the expected tag list by appending the configured tags one by one. */
  method BuildExpectedTags(options: seq<(string, string)>) returns (expected: seq<Tag>)
    ensures |expected| == |options| + 1 && expected[0] == ManagedByTag
    ensures forall i :: 0 <= i < |options| ==> expected[i + 1] == Tag(options[i].0, options[i].1)
    ensures expected == ExpectedTags(options)
  {
    expected := [ManagedByTag];
    for i := 0 to |options|
      invariant |expected| == i + 1 && expected[0] == ManagedByTag
      invariant forall j :: 0 <= j < i ==> expected[j + 1] == Tag(options[j].0, options[j].1)
    {
      var (k, v) := options[i];
      expected := expected + [Tag(k, v)];
    }
  }

  /** The keys of a tag list. */
  function TagKeys(tags: seq<Tag>): set<string>
  {
    set t | t in tags :: t.key
  }

  /** The tags of `current` whose key `expected` does not set, in their order. */
  function Untouched(current: seq<Tag>, expected: seq<Tag>): seq<Tag>
  {
    if current == [] then []
    else (if current[0].key in TagKeys(expected) then [] else [current[0]]) + Untouched(current[1..], expected)
  }

  /**
   * `tag_user` as the identity service applies it: a given key overwrites
   * the tag with that key, and tags with other keys stay.
   */
  function TagUser(current: seq<Tag>, expected: seq<Tag>): seq<Tag>
  {
    Untouched(current, expected) + expected
  }

  lemma {:induction false} UntouchedMembers(current: seq<Tag>, expected: seq<Tag>)
    ensures forall t :: t in Untouched(current, expected) <==> t in current && t.key !in TagKeys(expected)
  {
    if current != [] {
      UntouchedMembers(current[1..], expected);
      assert current == [current[0]] + current[1..];
    }
  }

  /** After tagging, the user holds every given tag and the old tags with keys not given. */
  lemma TagUserMembers(current: seq<Tag>, expected: seq<Tag>)
    ensures forall t :: t in TagUser(current, expected) <==>
      t in expected || (t in current && t.key !in TagKeys(expected))
  {
    UntouchedMembers(current, expected);
  }

  lemma {:induction false} NoneUntouched(current: seq<Tag>, expected: seq<Tag>)
    requires forall t :: t in current ==> t.key in TagKeys(expected)
    ensures Untouched(current, expected) == []
  {
    if current != [] {
      assert current[0] in current;
      NoneUntouched(current[1..], expected);
    }
  }

  /** Tagging a user that holds exactly the given tags changes nothing. */
  lemma TagUserOfExpected(expected: seq<Tag>)
    ensures TagUser(expected, expected) == expected
  {
    NoneUntouched(expected, expected);
    assert [] + expected == expected;
  }

  lemma {:induction false} UntouchedStable(current: seq<Tag>, expected: seq<Tag>)
    ensures Untouched(Untouched(current, expected), expected) == Untouched(current, expected)
  {
    if current != [] {
      var head: seq<Tag> := if current[0].key in TagKeys(expected) then [] else [current[0]];
      var rest := Untouched(current[1..], expected);
      UntouchedStable(current[1..], expected);
      UntouchedConcat(head, rest, expected);
      if head != [] {
        assert head[1..] == [];
      }
    }
  }

  lemma {:induction false} UntouchedConcat(a: seq<Tag>, b: seq<Tag>, expected: seq<Tag>)
    ensures Untouched(a + b, expected) == Untouched(a, expected) + Untouched(b, expected)
  {
    if a != [] {
      assert (a + b)[1..] == a[1..] + b;
      UntouchedConcat(a[1..], b, expected);
    } else {
      assert a + b == b;
    }
  }

  /** Tagging twice with the same tags is tagging once. */
  lemma TagUserIdempotent(current: seq<Tag>, expected: seq<Tag>)
    ensures TagUser(TagUser(current, expected), expected) == TagUser(current, expected)
  {
    var u := Untouched(current, expected);
    UntouchedConcat(u, expected, expected);
    UntouchedStable(current, expected);
    TagUserOfExpected(expected);
  }

  /** What provisioning did to the user. */
  datatype ProvisionAction = Created | Retagged | Kept

  /** A user that did not exist is created with the expected tags and nothing else. */
  function NewUser(tags: seq<Tag>): User
  {
    User(tags, [], {}, {})
  }

  /**
   * The account's users after provisioning `name`: created when absent,
   * tagged when its tags differ from the expected list in any way (order
   * included), otherwise left alone.
   */
  function ProvisionedUsers(users: map<string, User>, name: string, expected: seq<Tag>): map<string, User>
  {
    if name !in users then users[name := NewUser(expected)]
    else if users[name].tags != expected then users[name := users[name].(tags := TagUser(users[name].tags, expected))]
    else users
  }

  function ProvisionActionOf(users: map<string, User>, name: string, expected: seq<Tag>): ProvisionAction
  {
    if name !in users then Created
    else if users[name].tags != expected then Retagged
    else Kept
  }

  /**
   * Afterwards the user exists: a created user has exactly the expected tags
   * and nothing else; an existing user holds its tags merged with the
   * expected ones and keeps its keys, groups and policies; no other user
   * changes.
   */
  lemma ProvisionedSpec(users: map<string, User>, name: string, expected: seq<Tag>)
    ensures var r := ProvisionedUsers(users, name, expected);
      && name in r
      && (name in users ==> r[name] == users[name].(tags := TagUser(users[name].tags, expected)))
      && (name !in users ==> r[name] == NewUser(expected))
      && r.Keys == users.Keys + {name}
      && r == users[name := r[name]]
      && forall n :: n in users && n != name ==> r[n] == users[n]
  {
    TagUserOfExpected(expected);
  }

  /**
   * Provisioning twice is provisioning once. The second pass does nothing
   * exactly when the user had no tag with a key outside the expected list;
   * otherwise it re-tags, to the same tags, every time.
   */
  lemma ProvisionIdempotent(users: map<string, User>, name: string, expected: seq<Tag>)
    ensures ProvisionedUsers(ProvisionedUsers(users, name, expected), name, expected)
        == ProvisionedUsers(users, name, expected)
    ensures ProvisionActionOf(ProvisionedUsers(users, name, expected), name, expected) == Kept
        <==> name !in users || Untouched(users[name].tags, expected) == []
  {
    TagUserOfExpected(expected);
    if name in users {
      var prior := users[name].tags;
      TagUserIdempotent(prior, expected);
      var u := Untouched(prior, expected);
      assert |TagUser(prior, expected)| == |u| + |expected|;
    }
  }
}
