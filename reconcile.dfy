/**
 * Set reconciliation, shared by group membership and managed-policy
 * attachment: remove what is held but not wanted, add what is wanted but
 * not held, and leave the rest alone. A single failing add or remove is
 * skipped; `Reconciled` is the set that results.
 */
module Reconcile {
  import opened IamTypes

  /** A membership change: add (attach) or remove (detach). */
  datatype Action = Add | Remove

  function Opposite(a: Action): Action
  {
    if a == Add then Remove else Add
  }

  /** One attempted change and whether the identity service accepted it. */
  datatype Change = Change(target: string, action: Action, ok: bool)

  /** The names that `log` records an attempt to change with `action`. */
  function Targets(log: seq<Change>, action: Action): set<string>
  {
    if log == [] then {}
    else
      var last := log[|log| - 1];
      Targets(log[..|log| - 1], action) + (if last.action == action then {last.target} else {})
  }

  lemma TargetsAppend(log: seq<Change>, c: Change, action: Action)
    ensures Targets(log + [c], action) == Targets(log, action) + (if c.action == action then {c.target} else {})
  {
    assert (log + [c])[..|log|] == log;
  }

  lemma {:induction false} TargetsConcat(a: seq<Change>, b: seq<Change>, action: Action)
    ensures Targets(a + b, action) == Targets(a, action) + Targets(b, action)
    decreases |b|
  {
    if b == [] {
      assert a + b == a;
    } else {
      var init, last := b[..|b| - 1], b[|b| - 1];
      assert a + b == (a + init) + [last];
      assert b == init + [last];
      TargetsAppend(a + init, last, action);
      TargetsAppend(init, last, action);
      TargetsConcat(a, init, action);
    }
  }

  /** Every name `log` records an attempt on, whichever the action. */
  function AllTargets(log: seq<Change>): set<string>
  {
    Targets(log, Add) + Targets(log, Remove)
  }

  /** No name is attempted twice: one call per item. */
  predicate OnePerTarget(log: seq<Change>)
  {
    forall i, j :: 0 <= i < j < |log| ==> log[i].target != log[j].target
  }

  lemma {:induction false} EntryIsTarget(log: seq<Change>, i: int)
    requires 0 <= i < |log|
    ensures log[i].target in AllTargets(log)
    decreases |log|
  {
    var init := log[..|log| - 1];
    assert log == init + [log[|log| - 1]];
    TargetsAppend(init, log[|log| - 1], Add);
    TargetsAppend(init, log[|log| - 1], Remove);
    if i < |log| - 1 {
      assert log[i] == init[i];
      EntryIsTarget(init, i);
    }
  }

  lemma OnePerTargetAppend(log: seq<Change>, c: Change)
    requires OnePerTarget(log) && c.target !in AllTargets(log)
    ensures OnePerTarget(log + [c])
  {
    var w := log + [c];
    forall i, j | 0 <= i < j < |w| ensures w[i].target != w[j].target {
      assert w[i] == log[i];
      if j == |log| {
        EntryIsTarget(log, i);
      } else {
        assert w[j] == log[j];
      }
    }
  }

  lemma OnePerTargetConcat(a: seq<Change>, b: seq<Change>)
    requires OnePerTarget(a) && OnePerTarget(b) && AllTargets(a) !! AllTargets(b)
    ensures OnePerTarget(a + b)
  {
    var w := a + b;
    forall i, j | 0 <= i < j < |w| ensures w[i].target != w[j].target {
      if j < |a| {
        assert w[i] == a[i] && w[j] == a[j];
      } else if i < |a| {
        assert w[i] == a[i] && w[j] == b[j - |a|];
        EntryIsTarget(a, i);
        EntryIsTarget(b, j - |a|);
      } else {
        assert w[i] == b[i - |a|] && w[j] == b[j - |a|];
      }
    }
  }

  lemma AllTargetsAppend(log: seq<Change>, c: Change)
    ensures AllTargets(log + [c]) == AllTargets(log) + {c.target}
  {
    TargetsAppend(log, c, Add);
    TargetsAppend(log, c, Remove);
  }

  /** Dropping the last call keeps one call per item, and that call's item is not named before it. */
  lemma OnePerTargetInit(log: seq<Change>)
    requires log != [] && OnePerTarget(log)
    ensures OnePerTarget(log[..|log| - 1])
    ensures log[|log| - 1].target !in AllTargets(log[..|log| - 1])
  {
    var init := log[..|log| - 1];
    forall i, j | 0 <= i < j < |init| ensures init[i].target != init[j].target {
      assert init[i] == log[i] && init[j] == log[j];
    }
    forall i | 0 <= i < |init| ensures init[i].target != log[|log| - 1].target {
      assert init[i] == log[i];
    }
    NotNamed(init, log[|log| - 1].target);
  }

  /** A log with one call per item holds exactly as many calls as it names items. */
  lemma {:induction false} OnePerTargetLength(log: seq<Change>)
    requires OnePerTarget(log)
    ensures |log| == |AllTargets(log)|
    decreases |log|
  {
    if log != [] {
      var init, last := log[..|log| - 1], log[|log| - 1];
      assert log == init + [last];
      OnePerTargetInit(log);
      OnePerTargetLength(init);
      AllTargetsAppend(init, last);
    }
  }

  /** A name no entry of the log targets is not among its targets. */
  lemma {:induction false} NotNamed(log: seq<Change>, x: string)
    requires forall i :: 0 <= i < |log| ==> log[i].target != x
    ensures x !in AllTargets(log)
    decreases |log|
  {
    if log != [] {
      var init, last := log[..|log| - 1], log[|log| - 1];
      assert log == init + [last];
      TargetsAppend(init, last, Add);
      TargetsAppend(init, last, Remove);
      forall i | 0 <= i < |init| ensures init[i].target != x {
        assert init[i] == log[i];
      }
      NotNamed(init, x);
    }
  }

  /**
   * `log` records one `action` call for each of `items` and nothing else, and
   * a call succeeded exactly when its item is not refused.
   */
  predicate CallLog(log: seq<Change>, items: set<string>, action: Action, failing: set<string>)
  {
    && Targets(log, action) == items
    && Targets(log, Opposite(action)) == {}
    && OnePerTarget(log)
    && forall i :: 0 <= i < |log| ==> log[i].ok == (log[i].target !in failing)
  }

  lemma CallLogStep(log: seq<Change>, done: set<string>, x: string, action: Action, ok: bool, failing: set<string>)
    requires CallLog(log, done, action, failing) && x !in done && ok == (x !in failing)
    ensures CallLog(log + [Change(x, action, ok)], done + {x}, action, failing)
  {
    var c := Change(x, action, ok);
    TargetsAppend(log, c, action);
    TargetsAppend(log, c, Opposite(action));
    assert AllTargets(log) == done by {
      if action == Add {
        assert AllTargets(log) == Targets(log, action) + Targets(log, Opposite(action));
      } else {
        assert AllTargets(log) == Targets(log, Opposite(action)) + Targets(log, action);
      }
    }
    OnePerTargetAppend(log, c);
  }

  /**
   * `log` is a whole reconciliation of `current` towards `wanted`: one
   * remove call for each item held but not wanted, one add call for each
   * item wanted but not held, and each call refused exactly for `failing`.
   */
  predicate ReconcileLog(log: seq<Change>, current: set<string>, wanted: set<string>, failing: set<string>)
  {
    && Targets(log, Remove) == current - wanted
    && Targets(log, Add) == wanted - current
    && OnePerTarget(log)
    && forall i :: 0 <= i < |log| ==> log[i].ok == (log[i].target !in failing)
  }

  /** The removal calls and the addition calls together, in either order, are a whole reconciliation. */
  lemma ReconcileLogJoin(removed: seq<Change>, added: seq<Change>, current: set<string>, wanted: set<string>, failing: set<string>)
    requires CallLog(removed, Removals(current, wanted), Remove, failing)
    requires CallLog(added, Additions(current, wanted), Add, failing)
    ensures ReconcileLog(removed + added, current, wanted, failing)
    ensures ReconcileLog(added + removed, current, wanted, failing)
  {
    ChangesAreSymmetricDifference(current, wanted);
    TargetsConcat(removed, added, Remove);
    TargetsConcat(removed, added, Add);
    TargetsConcat(added, removed, Remove);
    TargetsConcat(added, removed, Add);
    OnePerTargetConcat(removed, added);
    OnePerTargetConcat(added, removed);
    var w1, w2 := removed + added, added + removed;
    forall i | 0 <= i < |w1| ensures w1[i].ok == (w1[i].target !in failing) {
      if i < |removed| { assert w1[i] == removed[i]; } else { assert w1[i] == added[i - |removed|]; }
    }
    forall i | 0 <= i < |w2| ensures w2[i].ok == (w2[i].target !in failing) {
      if i < |added| { assert w2[i] == added[i]; } else { assert w2[i] == removed[i - |added|]; }
    }
  }

  /** A whole reconciliation makes exactly one call per item of the symmetric difference. */
  lemma ReconcileCallCount(log: seq<Change>, current: set<string>, wanted: set<string>, failing: set<string>)
    requires ReconcileLog(log, current, wanted, failing)
    ensures |log| == |current - wanted| + |wanted - current|
  {
    OnePerTargetLength(log);
    assert (current - wanted) !! (wanted - current);
  }

  /** Which field of a user a reconciliation works on. */
  datatype Membership = GroupMembership | PolicyAttachment

  /** The names (ARNs) the user holds in that field. */
  function Held(u: User, m: Membership): set<string>
  {
    match m
    case GroupMembership => u.groups
    case PolicyAttachment => u.policies
  }

  /** The user with that field replaced and everything else kept. */
  function WithHeld(u: User, m: Membership, s: set<string>): (r: User)
    ensures Held(r, m) == s && r.tags == u.tags && r.keys == u.keys
    ensures m == GroupMembership ==> r.policies == u.policies
    ensures m == PolicyAttachment ==> r.groups == u.groups
  {
    match m
    case GroupMembership => u.(groups := s)
    case PolicyAttachment => u.(policies := s)
  }

  /** The held set after attempting `action` on every item, the refused ones skipped. */
  function Applied(held: set<string>, items: set<string>, action: Action, failing: set<string>): set<string>
  {
    if action == Add then held + (items - failing) else held - (items - failing)
  }

  /** Applying the items one more at a time. */
  lemma AppliedStep(held: set<string>, done: set<string>, x: string, action: Action, failing: set<string>)
    ensures Applied(Applied(held, done, action, failing), {x}, action, failing)
         == Applied(held, done + {x}, action, failing)
  {
  }

  /** The items to add: wanted and not held. */
  function Additions(current: set<string>, wanted: set<string>): set<string>
  {
    (current + wanted) - current
  }

  /** The items to remove: held and not wanted. */
  function Removals(current: set<string>, wanted: set<string>): set<string>
  {
    (current + wanted) - wanted
  }

  /**
   * The set held after every removal and addition was attempted, when the
   * changes concerning the items of `failing` were refused.
   */
  function Reconciled(current: set<string>, wanted: set<string>, failing: set<string>): set<string>
  {
    (current - (Removals(current, wanted) - failing)) + (Additions(current, wanted) - failing)
  }

  /**
   * Removals and additions are exactly the two halves of the symmetric
   * difference, disjoint, and no item held and wanted is touched.
   */
  lemma ChangesAreSymmetricDifference(current: set<string>, wanted: set<string>)
    ensures Removals(current, wanted) == current - wanted
    ensures Additions(current, wanted) == wanted - current
    ensures Removals(current, wanted) * Additions(current, wanted) == {}
    ensures (Removals(current, wanted) + Additions(current, wanted)) * (current * wanted) == {}
  {
  }

  /** Without a refused change the result is exactly the wanted set. */
  lemma ReconciledIsWanted(current: set<string>, wanted: set<string>, failing: set<string>)
    requires failing * (Removals(current, wanted) + Additions(current, wanted)) == {}
    ensures Reconciled(current, wanted, failing) == wanted
  {
    forall x | x in Removals(current, wanted) + Additions(current, wanted) ensures x !in failing {
      assert x !in failing * (Removals(current, wanted) + Additions(current, wanted));
    }
    assert Removals(current, wanted) - failing == current - wanted;
    assert Additions(current, wanted) - failing == wanted - current;
  }

  /**
   * Whatever fails, the items held and wanted stay, the items neither held
   * nor wanted stay out, and a refused change leaves its item as it was.
   */
  lemma ReconciledBounds(current: set<string>, wanted: set<string>, failing: set<string>)
    ensures current * wanted <= Reconciled(current, wanted, failing) <= current + wanted
    ensures forall x :: x in failing ==> (x in Reconciled(current, wanted, failing) <==> x in current)
    ensures forall x :: x !in failing ==> (x in Reconciled(current, wanted, failing) <==> x in wanted)
  {
  }

  /** The wanted set of groups: a scalar `groups` value stands for a one-element list. */
  function RightfulGroups(groups: GroupsSpec): set<string>
  {
    match groups
    case GroupList(names) => set n | n in names
    case SingleGroup(name) => {name}
  }

  lemma RightfulGroupsSpec(groups: GroupsSpec)
    ensures groups.SingleGroup? ==> RightfulGroups(groups) == {groups.name}
    ensures groups.GroupList? ==> forall n :: n in RightfulGroups(groups) <==> n in groups.names
  {
  }

  /**
   * One reconciliation step: when the current set cannot be listed nothing
   * changes; otherwise the result of `Reconciled`.
   */
  function ReconcileStep(current: set<string>, wanted: set<string>, listFails: bool, failing: set<string>): set<string>
  {
    if listFails then current else Reconciled(current, wanted, failing)
  }

  /** Adding first and removing afterwards (as the policy step does) ends in the same set. */
  lemma AddThenRemove(current: set<string>, wanted: set<string>, failing: set<string>)
    ensures (current + (Additions(current, wanted) - failing)) - (Removals(current, wanted) - failing)
         == Reconciled(current, wanted, failing)
  {
  }
}
