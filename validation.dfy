/**
 * Secret-descriptor validation (`validate_spec`). The shared base check of
 * the provider framework is not part of this model; its verdict is an input.
 */
module Validation {
  import opened Wrappers
  import opened PyValues

  /** The container type an option must have. */
  datatype Kind = DictKind | ListKind

  /** The recognised `config` options, in the order they are checked. */
  const AllowedOptions: seq<(string, Kind)> := [("tags", DictKind), ("groups", ListKind), ("policies", ListKind)]

  const AllowedNames: set<string> := {"tags", "groups", "policies"}

  /** How Python prints the expected type in the message. */
  function KindName(k: Kind): string
  {
    match k
    case DictKind => "<class 'dict'>"
    case ListKind => "<class 'list'>"
  }

  /** The type test `type(v) == otype`. */
  predicate HasKind(v: Value, k: Kind)
  {
    match k
    case DictKind => v.VDict?
    case ListKind => v.VList?
  }

  /** The validator's verdict. */
  datatype Verdict =
    | AllGood
    | BaseRejected(message: string)
    | WrongType(option: string, expected: Kind)
    | Unsupported(names: set<string>)
    | ConfigNotADict   // `spec['config'].get` raises on a non-dictionary

  /** The `(valid, message)` pair returned to the framework. */
  function Outcome(v: Verdict): (bool, string)
  {
    match v
    case AllGood => (true, "All good!")
    case BaseRejected(msg) => (false, msg)
    case WrongType(option, k) => (false, option + " must be a " + KindName(k))
    case Unsupported(_) => (false, "Unsupported values in provider config: ")
    case ConfigNotADict => (false, "config must be a dict")
  }

  /** An option passes the type check when absent, falsy, or of its kind. */
  predicate OptionOk(config: map<string, Value>, name: string, k: Kind)
  {
    name !in config || !Truthy(config[name]) || HasKind(config[name], k)
  }

  /** The first option of `opts` that fails the type check. */
  function FirstWrongType(config: map<string, Value>, opts: seq<(string, Kind)>): (r: Option<(string, Kind)>)
    ensures r.None? <==> forall i :: 0 <= i < |opts| ==> OptionOk(config, opts[i].0, opts[i].1)
    ensures r.Some? ==>
      (exists i :: 0 <= i < |opts| && opts[i] == r.value && !OptionOk(config, r.value.0, r.value.1) &&
        (forall j :: 0 <= j < i ==> OptionOk(config, opts[j].0, opts[j].1)))
  {
    if opts == [] then None
    else if !OptionOk(config, opts[0].0, opts[0].1) then Some(opts[0])
    else
      var r := FirstWrongType(config, opts[1..]);
      assert forall i :: 1 <= i < |opts| ==> opts[i] == opts[1..][i - 1];
      r
  }

  /** The whole check of a descriptor's `config`. */
  function ValidateSpec(spec: map<string, Value>, baseValid: bool, baseMessage: string): Verdict
  {
    if !baseValid then BaseRejected(baseMessage)
    else if "config" !in spec then AllGood
    else if !spec["config"].VDict? then ConfigNotADict
    else
      var config := spec["config"].entries;
      match FirstWrongType(config, AllowedOptions)
      case Some(opt) => WrongType(opt.0, opt.1)
      case None =>
        if config.Keys - AllowedNames != {} then Unsupported(config.Keys - AllowedNames) else AllGood
  }

  /** The type check over the three recognised options, spelt out in order. */
  lemma FirstWrongTypeOfAllowed(config: map<string, Value>)
    ensures FirstWrongType(config, AllowedOptions) ==
      if !OptionOk(config, "tags", DictKind) then Some(("tags", DictKind))
      else if !OptionOk(config, "groups", ListKind) then Some(("groups", ListKind))
      else if !OptionOk(config, "policies", ListKind) then Some(("policies", ListKind))
      else None
  {
    var o1: seq<(string, Kind)> := [("groups", ListKind), ("policies", ListKind)];
    var o2: seq<(string, Kind)> := [("policies", ListKind)];
    var o3: seq<(string, Kind)> := [];
    assert AllowedOptions[1..] == o1 && o1[1..] == o2 && o2[1..] == o3;
    assert FirstWrongType(config, o3) == None;
    assert FirstWrongType(config, o2) ==
      if !OptionOk(config, "policies", ListKind) then Some(("policies", ListKind)) else None;
    assert FirstWrongType(config, o1) ==
      if !OptionOk(config, "groups", ListKind) then Some(("groups", ListKind)) else FirstWrongType(config, o2);
  }

  /** Every option is well typed. */
  predicate WellTyped(config: map<string, Value>)
  {
    OptionOk(config, "tags", DictKind) && OptionOk(config, "groups", ListKind) && OptionOk(config, "policies", ListKind)
  }

  /**
   * A descriptor is accepted exactly when the base check passes and, if it
   * has a `config`, that is a dictionary of well-typed, recognised options.
   */
  lemma ValidateSpecAccepts(spec: map<string, Value>, baseValid: bool, baseMessage: string)
    ensures ValidateSpec(spec, baseValid, baseMessage) == AllGood <==>
      baseValid && ("config" in spec ==>
        spec["config"].VDict? && WellTyped(spec["config"].entries) && spec["config"].entries.Keys <= AllowedNames)
    ensures Outcome(ValidateSpec(spec, baseValid, baseMessage)).0 <==> ValidateSpec(spec, baseValid, baseMessage) == AllGood
  {
    if baseValid && "config" in spec && spec["config"].VDict? {
      FirstWrongTypeOfAllowed(spec["config"].entries);
    }
  }

  /** Without a `config` the verdict is `(True, 'All good!')` when the base check passes. */
  lemma NoConfigIsGood(spec: map<string, Value>, baseMessage: string)
    requires "config" !in spec
    ensures Outcome(ValidateSpec(spec, true, baseMessage)) == (true, "All good!")
  {
  }

  /**
   * The type check comes first: a wrongly typed option is reported, in the
   * order tags, groups, policies, even when unknown options are present too.
   */
  lemma TypeCheckBeforeUnknownKeys(spec: map<string, Value>, baseMessage: string)
    requires "config" in spec && spec["config"].VDict?
    requires !WellTyped(spec["config"].entries)
    ensures var config := spec["config"].entries;
      ValidateSpec(spec, true, baseMessage) ==
        if !OptionOk(config, "tags", DictKind) then WrongType("tags", DictKind)
        else if !OptionOk(config, "groups", ListKind) then WrongType("groups", ListKind)
        else WrongType("policies", ListKind)
  {
    FirstWrongTypeOfAllowed(spec["config"].entries);
  }

  /** With well-typed options, exactly the unrecognised option names are reported. */
  lemma UnknownOptionsReported(spec: map<string, Value>, baseMessage: string)
    requires "config" in spec && spec["config"].VDict?
    requires WellTyped(spec["config"].entries)
    requires !(spec["config"].entries.Keys <= AllowedNames)
    ensures ValidateSpec(spec, true, baseMessage) == Unsupported(spec["config"].entries.Keys - AllowedNames)
  {
    FirstWrongTypeOfAllowed(spec["config"].entries);
  }
}
