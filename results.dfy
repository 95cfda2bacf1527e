/**
 * Result shaping (`_explain_secret`), secret redaction (`redact_result`),
 * and the provider's two constant answers (`distribute`, `has_creds`).
 */
module Results {
  import opened Wrappers
  import opened IamTypes
  import opened PyValues

  /** The field of a result's `value` that holds the secret. */
  const SecretField := "secret"

  /** What the secret is replaced with. */
  const Mask := "***"

  /** The rotation result for a freshly created credential. */
  function ExplainSecret(cred: Credential): (r: RotationResult)
    ensures r.provider == "iam" && r.key == cred.accessKeyId && r.secret == cred.secretAccessKey
  {
    RotationResult("iam", cred.accessKeyId, cred.secretAccessKey)
  }

  /** A rotation result as the dictionary the caller receives. */
  function AsValue(r: RotationResult): Value
  {
    VDict(map["provider" := VStr(r.provider), "key" := VStr(r.key), SecretField := VStr(r.secret)])
  }

  /** Why redaction raises: Python's `TypeError` from `in` or from the item assignment. */
  datatype RedactError = NotIterable | NoItemAssignment

  /** Python's `needle in container` for a string needle. */
  function Contains(container: Value, needle: string): Result<bool, RedactError>
  {
    match container
    case VDict(entries) => Success(needle in entries)
    case VList(items) => Success(VStr(needle) in items)
    case VStr(s) => Success(IsSubstring(needle, s))
    case _ => Failure(NotIterable)
  }

  /**
   * The result envelope after redaction: when `value` holds the secret field,
   * that one field becomes the mask. A `value` that contains the text
   * `secret` without being a dictionary makes the assignment raise.
   */
  function Redacted(result: map<string, Value>): Result<map<string, Value>, RedactError>
  {
    if "value" !in result then Success(result)
    else match Contains(result["value"], SecretField)
      case Failure(e) => Failure(e)
      case Success(found) =>
        if !found then Success(result)
        else match result["value"]
          case VDict(entries) => Success(result["value" := VDict(entries[SecretField := VStr(Mask)])])
          case _ => Failure(NoItemAssignment)
  }

  /**
   * With a dictionary `value` holding the secret, only that field changes,
   * to the mask; every other field of `value` and of the envelope is kept.
   */
  lemma RedactMasksOnlySecret(result: map<string, Value>, entries: map<string, Value>)
    requires "value" in result && result["value"] == VDict(entries) && SecretField in entries
    ensures Redacted(result).Success?
    ensures var r := Redacted(result).value;
      && r.Keys == result.Keys
      && (forall k :: k in result && k != "value" ==> r[k] == result[k])
      && r["value"].VDict?
      && r["value"].entries.Keys == entries.Keys
      && r["value"].entries[SecretField] == VStr(Mask)
      && forall k :: k in entries && k != SecretField ==> r["value"].entries[k] == entries[k]
  {
  }

  /** A result without `value`, or whose dictionary `value` has no secret, is returned unchanged. */
  lemma RedactWithoutSecret(result: map<string, Value>)
    requires "value" !in result || (result["value"].VDict? && SecretField !in result["value"].entries)
    ensures Redacted(result) == Success(result)
  {
  }

  /** Redacting a redacted result changes nothing more. */
  lemma RedactIdempotent(result: map<string, Value>)
    requires Redacted(result).Success?
    ensures Redacted(Redacted(result).value) == Redacted(result)
  {
    var r := Redacted(result).value;
    if "value" in result && result["value"].VDict? && SecretField in result["value"].entries {
      var entries := result["value"].entries;
      assert r == result["value" := VDict(entries[SecretField := VStr(Mask)])];
      assert r["value"].entries[SecretField := VStr(Mask)] == r["value"].entries;
      assert r["value" := VDict(r["value"].entries)] == r;
    }
  }

  /** Redacting what a rotation returns hides the secret and keeps the provider and key id. */
  lemma RedactExplainedSecret(cred: Credential)
    ensures Redacted(map["value" := AsValue(ExplainSecret(cred))])
      == Success(map["value" := AsValue(RotationResult("iam", cred.accessKeyId, Mask))])
  {
    var m := map["provider" := VStr("iam"), "key" := VStr(cred.accessKeyId), SecretField := VStr(cred.secretAccessKey)];
    assert SecretField in m;
    assert Contains(VDict(m), SecretField) == Success(true);
    assert map["value" := VDict(m)]["value" := VDict(m[SecretField := VStr(Mask)])] == map["value" := VDict(m[SecretField := VStr(Mask)])];
    assert m[SecretField := VStr(Mask)] == map["provider" := VStr("iam"), "key" := VStr(cred.accessKeyId), SecretField := VStr(Mask)];
  }

  /** A result envelope that redaction overwrites in place. */
  class ResultEnvelope {
    var fields: map<string, Value>

    constructor (fields: map<string, Value>)
      ensures this.fields == fields
    {
      this.fields := fields;
    }

    /** Masks the secret in place; on a raised error nothing was written. */
    method Redact() returns (err: Option<RedactError>)
      modifies this
      ensures err.None? ==> Redacted(old(fields)) == Success(fields)
      ensures err.Some? ==> Redacted(old(fields)) == Failure(err.value) && fields == old(fields)
    {
      err := None;
      if "value" in fields {
        var found := Contains(fields["value"], SecretField);
        if found.Failure? {
          err := Some(found.error);
        } else if found.value {
          match fields["value"]
          case VDict(entries) =>
            fields := fields["value" := VDict(entries[SecretField := VStr(Mask)])];
          case _ =>
            err := Some(NoItemAssignment);
        }
      }
    }
  }

  /** Why distribution fails. */
  datatype DistributionError = DistributionNotSupported(message: string)

  /** This provider never distributes secrets: every call fails. */
  function Distribute<D>(secret: Secret, destination: D): (r: Result<(), DistributionError>)
    ensures r.Failure? && r.error == DistributionNotSupported("IAM does not support distribution")
  {
    Failure(DistributionNotSupported("IAM does not support distribution"))
  }

  /** The provider needs no externally supplied credentials. */
  function HasCreds(): (r: bool)
    ensures !r
  {
    false
  }
}
