/**
 * Naming-convention policies: a rule-driven name check built from a resource
 * type, a property, an optional pattern and optional length bounds; the
 * component-name check; and the fixed table of policies registered in the pack.
 */
module NameEnforcement {
  import opened Optional
  import opened Strings
  import opened NamePatterns
  import opened PulumiPolicy
  import opened AwsTypes

  /** The parameters `create_name_policy` closes over. */
  datatype NameRule = NameRule(
    resourceType: string,
    nameProperty: string,
    pattern: Option<Pattern>,
    minLength: Option<int>,
    maxLength: Option<int>,
    required: bool)

  /** `create_name_policy`, with its default arguments. */
  function CreateNamePolicy(
    resourceType: string,
    nameProperty: string := "name",
    pattern: Option<Pattern> := None,
    minLength: Option<int> := None,
    maxLength: Option<int> := None,
    required: bool := true): NameRule
  {
    NameRule(resourceType, nameProperty, pattern, minLength, maxLength, required)
  }

  /** The four things `validate_name` can report, in the order it checks them. */
  datatype Violation =
    | MissingProperty
    | TooShort(minLength: int)
    | TooLong(maxLength: int)
    | PatternMismatch(pattern: Pattern)

  function Rank(v: Violation): nat {
    match v
    case MissingProperty => 0
    case TooShort(_) => 1
    case TooLong(_) => 2
    case PatternMismatch(_) => 3
  }

  predicate Applies(rule: NameRule, args: ResourceValidationArgs) {
    args.resourceType == rule.resourceType
  }

  /** `name_value is None or name_value == ""`. */
  predicate MissingOrEmpty(rule: NameRule, args: ResourceValidationArgs) {
    rule.nameProperty !in args.props || args.props[rule.nameProperty] == ""
  }

  /** What `validate_name` finds wrong with one resource, in reporting order. */
  function Violations(rule: NameRule, args: ResourceValidationArgs): seq<Violation> {
    if !Applies(rule, args) then []
    else if rule.required && MissingOrEmpty(rule, args) then [MissingProperty]
    else if rule.nameProperty !in args.props then []
    else
      var name := args.props[rule.nameProperty];
      (if rule.minLength.Some? && |name| < rule.minLength.value then [TooShort(rule.minLength.value)] else [])
      + (if rule.maxLength.Some? && |name| > rule.maxLength.value then [TooLong(rule.maxLength.value)] else [])
      + (if rule.pattern.Some? && !ReMatch(rule.pattern.value, name) then [PatternMismatch(rule.pattern.value)] else [])
  }

  function Subject(rule: NameRule): string {
    "Resource " + rule.resourceType + " '" + rule.nameProperty + "'"
  }

  /** What follows the subject in the message of a length or pattern violation. */
  function Detail(v: Violation): string
    requires !v.MissingProperty?
  {
    match v
    case TooShort(n) => " must be at least " + IntToString(n) + " characters long"
    case TooLong(n) => " must be no more than " + IntToString(n) + " characters long"
    case PatternMismatch(p) => " must match pattern: " + Source(p)
  }

  /** The text passed to `report_violation` for each violation. */
  function Message(rule: NameRule, v: Violation): string {
    if v.MissingProperty? then
      "Resource " + rule.resourceType + " must have a '" + rule.nameProperty + "' property"
    else
      Subject(rule) + Detail(v)
  }

  /** The messages reported, one per violation and in the same order. */
  function Messages(rule: NameRule, vs: seq<Violation>): (r: seq<string>)
    ensures |r| == |vs|
    ensures forall i :: 0 <= i < |vs| ==> r[i] == Message(rule, vs[i])
  {
    if vs == [] then [] else [Message(rule, vs[0])] + Messages(rule, vs[1..])
  }

  /** `validate_name`: the ordered list of messages it reports for one resource. */
  function ValidateName(rule: NameRule, args: ResourceValidationArgs): seq<string> {
    Messages(rule, Violations(rule, args))
  }

  // ----- Properties of the name check -----

  /** A resource of another type is never reported. */
  lemma ValidateNameOtherType(rule: NameRule, args: ResourceValidationArgs)
    requires args.resourceType != rule.resourceType
    ensures ValidateName(rule, args) == []
  {
  }

  /**
   * A required property that is absent or empty yields exactly the one
   * "must have" message: no length or pattern check runs.
   */
  lemma ValidateNameRequiredMissing(rule: NameRule, args: ResourceValidationArgs)
    requires Applies(rule, args) && rule.required && MissingOrEmpty(rule, args)
    ensures ValidateName(rule, args)
         == ["Resource " + rule.resourceType + " must have a '" + rule.nameProperty + "' property"]
  {
  }

  /** An optional property that is absent is not reported. */
  lemma ValidateNameOptionalAbsent(rule: NameRule, args: ResourceValidationArgs)
    requires !rule.required && rule.nameProperty !in args.props
    ensures ValidateName(rule, args) == []
  {
  }

  predicate OccursAt(s: string, t: string, i: nat) {
    i + |t| <= |s| && s[i..i + |t|] == t
  }

  ghost predicate Contains(s: string, t: string) {
    exists i: nat :: OccursAt(s, t, i)
  }

  /** The "must have" message names both the resource type and the missing property. */
  lemma MissingMessageMentions(rule: NameRule)
    ensures Contains(Message(rule, MissingProperty), rule.resourceType)
    ensures Contains(Message(rule, MissingProperty), rule.nameProperty)
  {
    var m := Message(rule, MissingProperty);
    var rt, np := rule.resourceType, rule.nameProperty;
    var a := "Resource " + rt + " must have a '";
    assert m == a + np + "' property";
    assert OccursAt(m, rt, 9);
    assert OccursAt(m, np, |a|);
  }

  /**
   * When the property is present and the required test passes, the checks
   * report at most three violations, never "missing", in the fixed order
   * too-short, too-long, mismatch; each fires exactly when its own condition
   * holds, and a check whose bound or pattern is None never fires.
   */
  lemma ViolationsConvention(rule: NameRule, args: ResourceValidationArgs)
    requires Applies(rule, args) && rule.nameProperty in args.props
    requires !(rule.required && args.props[rule.nameProperty] == "")
    ensures var vs, name := Violations(rule, args), args.props[rule.nameProperty];
      && |vs| <= 3
      && MissingProperty !in vs
      && (forall i, j :: 0 <= i < j < |vs| ==> Rank(vs[i]) < Rank(vs[j]))
      && (forall n :: TooShort(n) in vs <==> rule.minLength == Some(n) && |name| < n)
      && (forall n :: TooLong(n) in vs <==> rule.maxLength == Some(n) && |name| > n)
      && (forall p :: PatternMismatch(p) in vs <==> rule.pattern == Some(p) && !ReMatch(p, name))
  {
  }

  /** A name that meets every configured bound and matches the pattern is not reported. */
  lemma ConformingNamePasses(rule: NameRule, args: ResourceValidationArgs)
    requires Applies(rule, args) && rule.nameProperty in args.props
    requires var name := args.props[rule.nameProperty];
      && |name| > 0
      && (rule.minLength.Some? ==> rule.minLength.value <= |name|)
      && (rule.maxLength.Some? ==> |name| <= rule.maxLength.value)
      && (rule.pattern.Some? ==> forall i :: 0 <= i < |name| ==> Allows(rule.pattern.value, name[i]))
    ensures ValidateName(rule, args) == []
  {
  }

  /** The resources `validate_name` leaves unreported, described without reference to its steps. */
  predicate Conforms(rule: NameRule, args: ResourceValidationArgs) {
    || args.resourceType != rule.resourceType
    || (rule.nameProperty !in args.props && !rule.required)
    || (rule.nameProperty in args.props &&
        var name := args.props[rule.nameProperty];
        && !(rule.required && name == "")
        && (rule.minLength.None? || |name| >= rule.minLength.value)
        && (rule.maxLength.None? || |name| <= rule.maxLength.value)
        && (rule.pattern.None? || ReMatch(rule.pattern.value, name)))
  }

  lemma ValidateNameEmptyIffConforms(rule: NameRule, args: ResourceValidationArgs)
    ensures ValidateName(rule, args) == [] <==> Conforms(rule, args)
  {
  }

  /** The character just after the resource type in the "must have" message is the `m` of "must". */
  lemma MissingMessageMark(rule: NameRule)
    ensures var k := |"Resource " + rule.resourceType| + 1;
      k < |Message(rule, MissingProperty)| && Message(rule, MissingProperty)[k] == 'm'
  {
    var a := "Resource " + rule.resourceType;
    var x := a + " must have a '";
    assert x[|a| + 1] == 'm';
    var m := x + rule.nameProperty + "' property";
    assert m[|a| + 1] == x[|a| + 1];
    assert m == Message(rule, MissingProperty);
  }

  /** The character just after the resource type in any other message is the quote opening the property name. */
  lemma SubjectMessageMark(rule: NameRule, v: Violation)
    requires !v.MissingProperty?
    ensures var k := |"Resource " + rule.resourceType| + 1;
      k < |Message(rule, v)| && Message(rule, v)[k] == '\''
  {
    var a := "Resource " + rule.resourceType;
    var x := a + " '";
    assert x[|a| + 1] == '\'';
    var s := x + rule.nameProperty + "'";
    assert s[|a| + 1] == x[|a| + 1];
    assert s == Subject(rule);
    assert Message(rule, v) == s + Detail(v);
    assert (s + Detail(v))[|a| + 1] == s[|a| + 1];
  }

  /** The "must have" message differs from every other message of the same rule. */
  lemma MissingMessageDistinct(rule: NameRule, v: Violation)
    requires !v.MissingProperty?
    ensures Message(rule, MissingProperty) != Message(rule, v)
  {
    MissingMessageMark(rule);
    SubjectMessageMark(rule, v);
  }

  /** Characters 6 and 9 of a detail tell the three kinds apart (`b`/`a`, `b`/`n`, `m`). */
  lemma DetailMarks(v: Violation)
    requires !v.MissingProperty?
    ensures |Detail(v)| > 9
    ensures v.TooShort? ==> Detail(v)[6] == 'b' && Detail(v)[9] == 'a'
    ensures v.TooLong? ==> Detail(v)[6] == 'b' && Detail(v)[9] == 'n'
    ensures v.PatternMismatch? ==> Detail(v)[6] == 'm'
  {
    match v {
      case TooShort(n) =>
        var p := " must be at least ";
        assert p[6] == 'b' && p[9] == 'a';
        assert Detail(v) == p + IntToString(n) + " characters long";
      case TooLong(n) =>
        var p := " must be no more than ";
        assert p[6] == 'b' && p[9] == 'n';
        assert Detail(v) == p + IntToString(n) + " characters long";
      case PatternMismatch(q) =>
        var p := " must match pattern: ";
        assert p[6] == 'm' && |p| > 9;
        assert Detail(v) == p + Source(q);
    }
  }

  lemma TooShortDetailInjective(n: int, n': int)
    requires Detail(TooShort(n)) == Detail(TooShort(n'))
    ensures n == n'
  {
    var p, suffix := " must be at least ", " characters long";
    SuffixCancel(p + IntToString(n), p + IntToString(n'), suffix);
    PrefixCancel(p, IntToString(n), IntToString(n'));
    IntToStringInjective(n, n');
  }

  lemma TooLongDetailInjective(n: int, n': int)
    requires Detail(TooLong(n)) == Detail(TooLong(n'))
    ensures n == n'
  {
    var p, suffix := " must be no more than ", " characters long";
    SuffixCancel(p + IntToString(n), p + IntToString(n'), suffix);
    PrefixCancel(p, IntToString(n), IntToString(n'));
    IntToStringInjective(n, n');
  }

  lemma PatternDetailInjective(p: Pattern, q: Pattern)
    requires Detail(PatternMismatch(p)) == Detail(PatternMismatch(q))
    ensures p == q
  {
    PrefixCancel(" must match pattern: ", Source(p), Source(q));
    SourceInjective(p, q);
  }

  /** Distinct length and pattern violations have distinct details. */
  lemma DetailInjective(v: Violation, w: Violation)
    requires !v.MissingProperty? && !w.MissingProperty?
    requires Detail(v) == Detail(w)
    ensures v == w
  {
    DetailMarks(v);
    DetailMarks(w);
    if v.TooShort? && w.TooShort? {
      TooShortDetailInjective(v.minLength, w.minLength);
    } else if v.TooLong? && w.TooLong? {
      TooLongDetailInjective(v.maxLength, w.maxLength);
    } else if v.PatternMismatch? && w.PatternMismatch? {
      PatternDetailInjective(v.pattern, w.pattern);
    }
  }

  /** Distinct violations of one rule are reported with distinct messages. */
  lemma MessageInjective(rule: NameRule, v: Violation, w: Violation)
    requires Message(rule, v) == Message(rule, w)
    ensures v == w
  {
    if v.MissingProperty? && !w.MissingProperty? {
      MissingMessageDistinct(rule, w);
    } else if !v.MissingProperty? && w.MissingProperty? {
      MissingMessageDistinct(rule, v);
    } else if !v.MissingProperty? {
      PrefixCancel(Subject(rule), Detail(v), Detail(w));
      DetailInjective(v, w);
    }
  }

  /** The reported messages determine the violations: nothing is lost by reporting text. */
  lemma ValidateNameDeterminesViolations(rule: NameRule, a: ResourceValidationArgs, b: ResourceValidationArgs)
    requires ValidateName(rule, a) == ValidateName(rule, b)
    ensures Violations(rule, a) == Violations(rule, b)
  {
    var va, vb := Violations(rule, a), Violations(rule, b);
    assert |va| == |vb|;
    forall i | 0 <= i < |va|
      ensures va[i] == vb[i]
    {
      assert Messages(rule, va)[i] == Messages(rule, vb)[i];
      MessageInjective(rule, va[i], vb[i]);
    }
  }

  /** One violation is reported exactly when its message appears among the reported ones. */
  lemma ReportedIff(rule: NameRule, args: ResourceValidationArgs, v: Violation)
    ensures Message(rule, v) in ValidateName(rule, args) <==> v in Violations(rule, args)
  {
    var vs := Violations(rule, args);
    if Message(rule, v) in ValidateName(rule, args) {
      var i :| 0 <= i < |vs| && Messages(rule, vs)[i] == Message(rule, v);
      MessageInjective(rule, v, vs[i]);
    }
    if v in vs {
      var i :| 0 <= i < |vs| && vs[i] == v;
      assert Messages(rule, vs)[i] == Message(rule, v);
    }
  }

  /**
   * The convention checks in terms of the reported text: with the property
   * present and the required test passed, the too-short, too-long and
   * mismatch messages each appear exactly when their condition holds, and
   * the "must have" message does not.
   */
  lemma ValidateNameConvention(rule: NameRule, args: ResourceValidationArgs)
    requires Applies(rule, args) && rule.nameProperty in args.props
    requires !(rule.required && args.props[rule.nameProperty] == "")
    ensures var r, name := ValidateName(rule, args), args.props[rule.nameProperty];
      && |r| <= 3
      && Message(rule, MissingProperty) !in r
      && (rule.minLength.Some? ==>
            (Message(rule, TooShort(rule.minLength.value)) in r <==> |name| < rule.minLength.value))
      && (rule.maxLength.Some? ==>
            (Message(rule, TooLong(rule.maxLength.value)) in r <==> |name| > rule.maxLength.value))
      && (rule.pattern.Some? ==>
            (Message(rule, PatternMismatch(rule.pattern.value)) in r <==> !ReMatch(rule.pattern.value, name)))
  {
    ViolationsConvention(rule, args);
    ReportedIff(rule, args, MissingProperty);
    if rule.minLength.Some? {
      ReportedIff(rule, args, TooShort(rule.minLength.value));
    }
    if rule.maxLength.Some? {
      ReportedIff(rule, args, TooLong(rule.maxLength.value));
    }
    if rule.pattern.Some? {
      ReportedIff(rule, args, PatternMismatch(rule.pattern.value));
    }
  }

  // ----- The component-name check -----

  const ComponentPrefix := "components:"

  /** `validate_component_name`: component resources must be declared with a name. */
  function ValidateComponentName(args: ResourceValidationArgs): seq<string> {
    if !StartsWith(args.resourceType, ComponentPrefix) then []
    else if args.name == "" then ["Component resource " + args.resourceType + " must have a name property"]
    else []
  }

  /**
   * Types outside the `components:` namespace are ignored; within it exactly
   * one violation, naming the type, is reported iff the declared name is empty.
   */
  lemma ComponentNameRule(args: ResourceValidationArgs)
    ensures |ValidateComponentName(args)| <= 1
    ensures ValidateComponentName(args) != [] <==> StartsWith(args.resourceType, "components:") && args.name == ""
    ensures ValidateComponentName(args) != [] ==>
      ValidateComponentName(args)[0] == "Component resource " + args.resourceType + " must have a name property"
  {
  }

  // ----- The registered policies -----

  /** The callback a registered policy carries. */
  datatype Validator = NameValidator(rule: NameRule) | ComponentNameValidator

  /** Runs a registered policy's callback on one resource: the messages it reports. */
  function Validate(v: Validator, args: ResourceValidationArgs): seq<string> {
    match v
    case NameValidator(rule) => ValidateName(rule, args)
    case ComponentNameValidator => ValidateComponentName(args)
  }

  const EcrRepositoryNameRule := CreateNamePolicy(
    resourceType := EcrRepositoryType, nameProperty := "name", pattern := Some(EcrName),
    minLength := Some(2), maxLength := Some(256), required := true)
  const S3BucketNameRule := CreateNamePolicy(
    resourceType := S3BucketType, nameProperty := "bucket", pattern := Some(S3Bucket),
    minLength := Some(3), maxLength := Some(63), required := true)
  const LambdaFunctionNameRule := CreateNamePolicy(
    resourceType := LambdaFunctionType, nameProperty := "name", pattern := Some(AwsName),
    minLength := Some(1), maxLength := Some(64), required := true)
  const IamRoleNameRule := CreateNamePolicy(
    resourceType := IamRoleType, nameProperty := "name", pattern := Some(AwsName),
    minLength := Some(1), maxLength := Some(64), required := true)

  const EcrRepositoryNamePolicy := ResourceValidationPolicy(
    "ecr-repository-name-required", "ECR repositories must have a name property",
    Mandatory, NameValidator(EcrRepositoryNameRule))
  const S3BucketNamePolicy := ResourceValidationPolicy(
    "s3-bucket-name-required", "S3 buckets must have a name property",
    Mandatory, NameValidator(S3BucketNameRule))
  const LambdaFunctionNamePolicy := ResourceValidationPolicy(
    "lambda-function-name-required", "Lambda functions must have a name property",
    Mandatory, NameValidator(LambdaFunctionNameRule))
  const IamRoleNamePolicy := ResourceValidationPolicy(
    "iam-role-name-required", "IAM roles must have a name property",
    Mandatory, NameValidator(IamRoleNameRule))
  const ComponentNamePolicy := ResourceValidationPolicy(
    "component-resources-name-required", "Component resources must have a name",
    Mandatory, ComponentNameValidator)

  /** The policies `register_policies` adds, in the order it adds them. */
  function NamingPolicies(): seq<ResourceValidationPolicy<Validator>> {
    [EcrRepositoryNamePolicy, S3BucketNamePolicy, LambdaFunctionNamePolicy, IamRoleNamePolicy, ComponentNamePolicy]
  }

  /** `register_policies`: five successive additions to the pack. */
  method RegisterPolicies(pack: PolicyPack<Validator>)
    modifies pack
    ensures pack.policies == old(pack.policies) + NamingPolicies()
  {
    pack.AddResourceValidationPolicy(EcrRepositoryNamePolicy);
    pack.AddResourceValidationPolicy(S3BucketNamePolicy);
    pack.AddResourceValidationPolicy(LambdaFunctionNamePolicy);
    pack.AddResourceValidationPolicy(IamRoleNamePolicy);
    pack.AddResourceValidationPolicy(ComponentNamePolicy);
  }

  /**
   * Five mandatory policies with distinct names: four required-name rules on
   * distinct AWS types with sane bounds, then the component-name check.
   */
  lemma NamingPoliciesTable()
    ensures var t := NamingPolicies();
      && |t| == 5
      && (forall i :: 0 <= i < 5 ==> t[i].enforcementLevel == Mandatory)
      && (forall i, j :: 0 <= i < j < 5 ==> t[i].name != t[j].name)
      && (forall i :: 0 <= i < 4 ==>
            && t[i].validate.NameValidator?
            && t[i].validate.rule.required
            && t[i].validate.rule.pattern.Some?
            && t[i].validate.rule.minLength.Some? && t[i].validate.rule.maxLength.Some?
            && 1 <= t[i].validate.rule.minLength.value <= t[i].validate.rule.maxLength.value)
      && (forall i, j :: 0 <= i < j < 4 ==> t[i].validate.rule.resourceType != t[j].validate.rule.resourceType)
      && t[4].validate == ComponentNameValidator
  {
  }

  /** No AWS type the name rules cover lies in the `components:` namespace. */
  lemma AwsTypesAreNotComponents(i: nat)
    requires i < 4
    ensures !StartsWith(NamingPolicies()[i].validate.rule.resourceType, ComponentPrefix)
  {
    var t := NamingPolicies()[i].validate.rule.resourceType;
    assert t[0] == 'a' != ComponentPrefix[0];
    assert |t| >= |ComponentPrefix| ==> t[..|ComponentPrefix|][0] == t[0];
  }

  /**
   * A resource of the type of the `i`-th name rule is reported by that
   * policy's own check alone: every other registered policy passes it.
   */
  lemma OnlyOwnPolicyReports(args: ResourceValidationArgs, i: nat)
    requires i < 4 && args.resourceType == NamingPolicies()[i].validate.rule.resourceType
    ensures Validate(NamingPolicies()[i].validate, args) == ValidateName(NamingPolicies()[i].validate.rule, args)
    ensures forall j :: 0 <= j < |NamingPolicies()| && j != i ==> Validate(NamingPolicies()[j].validate, args) == []
  {
    var t := NamingPolicies();
    NamingPoliciesTable();
    forall j | 0 <= j < |t| && j != i
      ensures Validate(t[j].validate, args) == []
    {
      if j < 4 {
        ValidateNameOtherType(t[j].validate.rule, args);
      } else {
        AwsTypesAreNotComponents(i);
      }
    }
  }

  /** Whatever the resource, at most one registered policy reports it. */
  lemma AtMostOnePolicyReports(args: ResourceValidationArgs)
    ensures forall i, j :: 0 <= i < j < |NamingPolicies()| && Validate(NamingPolicies()[i].validate, args) != []
              ==> Validate(NamingPolicies()[j].validate, args) == []
  {
    var t := NamingPolicies();
    forall i, j | 0 <= i < j < |t| && Validate(t[i].validate, args) != []
      ensures Validate(t[j].validate, args) == []
    {
      assert i < 4;
      if args.resourceType != t[i].validate.rule.resourceType {
        ValidateNameOtherType(t[i].validate.rule, args);
      }
      OnlyOwnPolicyReports(args, i);
    }
  }

  /** The bounds and patterns of the four name rules. */
  lemma NameRuleBounds()
    ensures EcrRepositoryNameRule == NameRule("aws:ecr/repository:Repository", "name", Some(EcrName), Some(2), Some(256), true)
    ensures S3BucketNameRule == NameRule("aws:s3/bucket:Bucket", "bucket", Some(S3Bucket), Some(3), Some(63), true)
    ensures LambdaFunctionNameRule == NameRule("aws:lambda/function:Function", "name", Some(AwsName), Some(1), Some(64), true)
    ensures IamRoleNameRule == NameRule("aws:iam/role:Role", "name", Some(AwsName), Some(1), Some(64), true)
  {
  }

  /** Registering the naming policies adds exactly the five, after whatever the pack held. */
  method RegisterIntoNewPack() returns (policies: seq<ResourceValidationPolicy<Validator>>)
    ensures |policies| == 5
    ensures forall i :: 0 <= i < |policies| ==> policies[i].enforcementLevel == Mandatory
    ensures policies[0].name == "ecr-repository-name-required"
    ensures policies[4].name == "component-resources-name-required"
  {
    var pack := new PolicyPack<Validator>("naming-conventions-policy");
    RegisterPolicies(pack);
    policies := pack.policies;
  }

  // ----- Worked cases -----

  /** "my-repo" passes the ECR repository rule. */
  lemma EcrRepositoryValidName(logicalName: string)
    ensures ValidateName(EcrRepositoryNameRule,
              ResourceValidationArgs(EcrRepositoryType, logicalName, map["name" := "my-repo"])) == []
    ensures forall j :: 0 <= j < |NamingPolicies()| ==>
              Validate(NamingPolicies()[j].validate,
                ResourceValidationArgs(EcrRepositoryType, logicalName, map["name" := "my-repo"])) == []
  {
    var args := ResourceValidationArgs(EcrRepositoryType, logicalName, map["name" := "my-repo"]);
    var name := "my-repo";
    forall i | 0 <= i < |name|
      ensures Allows(EcrName, name[i])
    {
      AllowedCharacters(name[i]);
    }
    ConformingNamePasses(EcrRepositoryNameRule, args);
    OnlyOwnPolicyReports(args, 0);
  }

  /** "A_B" breaks only the pattern of the ECR repository rule, not its length bounds. */
  lemma EcrRepositoryInvalidName(logicalName: string)
    ensures Violations(EcrRepositoryNameRule,
              ResourceValidationArgs(EcrRepositoryType, logicalName, map["name" := "A_B"]))
         == [PatternMismatch(EcrName)]
    ensures ValidateName(EcrRepositoryNameRule,
              ResourceValidationArgs(EcrRepositoryType, logicalName, map["name" := "A_B"]))
         == [Message(EcrRepositoryNameRule, PatternMismatch(EcrName))]
    ensures forall j :: 1 <= j < |NamingPolicies()| ==>
              Validate(NamingPolicies()[j].validate,
                ResourceValidationArgs(EcrRepositoryType, logicalName, map["name" := "A_B"])) == []
  {
    OnlyOwnPolicyReports(ResourceValidationArgs(EcrRepositoryType, logicalName, map["name" := "A_B"]), 0);
    var name := "A_B";
    assert !Allows(EcrName, name[0]) by { AllowedCharacters(name[0]); }
    assert !ReMatch(EcrName, name);
  }

  /** A bucket without a `bucket` property gets only the "must have" message. */
  lemma S3BucketMissingName(logicalName: string)
    ensures ValidateName(S3BucketNameRule, ResourceValidationArgs(S3BucketType, logicalName, map[]))
         == [Message(S3BucketNameRule, MissingProperty)]
    ensures forall j :: 0 <= j < |NamingPolicies()| && j != 1 ==>
              Validate(NamingPolicies()[j].validate, ResourceValidationArgs(S3BucketType, logicalName, map[])) == []
  {
    OnlyOwnPolicyReports(ResourceValidationArgs(S3BucketType, logicalName, map[]), 1);
  }

  /** "ab" is only too short for a bucket name: its characters are allowed. */
  lemma S3BucketShortName(logicalName: string)
    ensures Violations(S3BucketNameRule,
              ResourceValidationArgs(S3BucketType, logicalName, map["bucket" := "ab"]))
         == [TooShort(3)]
    ensures ValidateName(S3BucketNameRule,
              ResourceValidationArgs(S3BucketType, logicalName, map["bucket" := "ab"]))
         == [Message(S3BucketNameRule, TooShort(3))]
  {
    var name := "ab";
    AllowedCharacters(name[0]);
    AllowedCharacters(name[1]);
    assert AllAllowed(S3Bucket, name);
  }

  /** The exact texts reported in the cases above. */
  lemma EcrPatternMessageText()
    ensures Message(EcrRepositoryNameRule, PatternMismatch(EcrName))
         == "Resource aws:ecr/repository:Repository 'name' must match pattern: ^[a-z0-9-_/]+$"
  {
    EcrSubjectText();
    EcrPatternDetailText();
  }

  lemma EcrSubjectText()
    ensures Subject(EcrRepositoryNameRule) == "Resource aws:ecr/repository:Repository 'name'"
  {
  }

  lemma EcrPatternDetailText()
    ensures Detail(PatternMismatch(EcrName)) == " must match pattern: ^[a-z0-9-_/]+$"
  {
    SourceText();
  }

  lemma S3MissingMessageText()
    ensures Message(S3BucketNameRule, MissingProperty)
         == "Resource aws:s3/bucket:Bucket must have a 'bucket' property"
  {
    assert "Resource " + S3BucketType == "Resource aws:s3/bucket:Bucket";
    assert "Resource aws:s3/bucket:Bucket" + " must have a '" == "Resource aws:s3/bucket:Bucket must have a '";
    assert "Resource aws:s3/bucket:Bucket must have a '" + "bucket" == "Resource aws:s3/bucket:Bucket must have a 'bucket";
  }

  lemma S3TooShortMessageText()
    ensures Message(S3BucketNameRule, TooShort(3))
         == "Resource aws:s3/bucket:Bucket 'bucket' must be at least 3 characters long"
  {
    S3SubjectText();
    S3TooShortDetailText();
  }

  lemma S3SubjectText()
    ensures Subject(S3BucketNameRule) == "Resource aws:s3/bucket:Bucket 'bucket'"
  {
  }

  lemma S3TooShortDetailText()
    ensures Detail(TooShort(3)) == " must be at least 3 characters long"
  {
    assert IntToString(3) == "3";
  }
}
