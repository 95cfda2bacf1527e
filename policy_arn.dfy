/**
 * Managed-policy ARNs: `arn:aws:iam::<account>:policy/<name-with-path>`
 * (`_make_policy_arn`), with the inverse that reads the name back.
 */
module PolicyArns {
  import opened Wrappers

  /** The fixed text before the policy name, for the given account id. */
  function PolicyArnPrefix(account: string): string
  {
    "arn:aws:iam::" + account + ":policy/"
  }

  /** The ARN of the customer-managed policy `name` in `account`. */
  function PolicyArn(account: string, name: string): string
  {
    PolicyArnPrefix(account) + name
  }

  /** The policy name an ARN of `account` carries, if it is such an ARN. */
  function PolicyNameOf(account: string, arn: string): (r: Option<string>)
    ensures r.Some? ==> PolicyArn(account, r.value) == arn
  {
    var prefix := PolicyArnPrefix(account);
    if |prefix| <= |arn| && arn[..|prefix|] == prefix then Some(arn[|prefix|..]) else None
  }

  /** Reading the name back from a built ARN gives the name. */
  lemma PolicyArnRoundTrip(account: string, name: string)
    ensures PolicyNameOf(account, PolicyArn(account, name)) == Some(name)
  {
    var prefix := PolicyArnPrefix(account);
    var arn := PolicyArn(account, name);
    assert arn[..|prefix|] == prefix;
    assert arn[|prefix|..] == name;
  }

  /** Distinct names give distinct ARNs. */
  lemma PolicyArnInjective(account: string, n1: string, n2: string)
    requires PolicyArn(account, n1) == PolicyArn(account, n2)
    ensures n1 == n2
  {
    PolicyArnRoundTrip(account, n1);
    PolicyArnRoundTrip(account, n2);
  }

  /** The expected ARN set for a set of configured policy names. */
  function ExpectedArns(account: string, names: set<string>): set<string>
  {
    set n | n in names :: PolicyArn(account, n)
  }

  /** An ARN is expected exactly when it names a configured policy of the account. */
  lemma ExpectedArnsMembers(account: string, names: set<string>, arn: string)
    ensures arn in ExpectedArns(account, names) <==>
      PolicyNameOf(account, arn).Some? && PolicyNameOf(account, arn).value in names
  {
    if arn in ExpectedArns(account, names) {
      var n :| n in names && arn == PolicyArn(account, n);
      PolicyArnRoundTrip(account, n);
    }
  }

  /** Each configured name contributes its own ARN: as many ARNs as names. */
  lemma {:induction false} ExpectedArnsCount(account: string, names: set<string>)
    ensures |ExpectedArns(account, names)| == |names|
    decreases names
  {
    if names != {} {
      var n :| n in names;
      var rest := names - {n};
      ExpectedArnsCount(account, rest);
      var arn := PolicyArn(account, n);
      assert ExpectedArns(account, names) == ExpectedArns(account, rest) + {arn};
      if arn in ExpectedArns(account, rest) {
        var m :| m in rest && arn == PolicyArn(account, m);
        PolicyArnInjective(account, n, m);
      }
    }
  }
}
