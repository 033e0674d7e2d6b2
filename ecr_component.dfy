/** The `aws.ecr` inputs the components declare. */
module AwsEcr {
  import opened Optional
  import opened Pulumi

  /** `aws.ecr.RepositoryArgs`, reduced to its name and one representative setting. */
  datatype RepositoryArgs = RepositoryArgs(name: Option<string>, imageTagMutability: Option<string>)

  /** The input properties a repository declared with `args` presents to a policy. */
  function RepositoryProps(args: RepositoryArgs): (props: map<string, string>)
    ensures "name" in props <==> args.name.Some?
    ensures args.name.Some? ==> props["name"] == args.name.value
  {
    (if args.imageTagMutability.Some? then map["imageTagMutability" := args.imageTagMutability.value] else map[])
    + (if args.name.Some? then map["name" := args.name.value] else map[])
  }

  /** The lifecycle-policy document, as the structure `json.dumps` is given. */
  datatype Selection = Selection(tagStatus: string, countType: string, countUnit: string, countNumber: int)
  datatype LifecycleAction = LifecycleAction(actionType: string)
  datatype LifecycleRule = LifecycleRule(
    rulePriority: int,
    description: string,
    selection: Selection,
    action: LifecycleAction)
  datatype LifecycleDocument = LifecycleDocument(rules: seq<LifecycleRule>)

  /** The `policy` input of a lifecycle policy: the default document, or the caller's text verbatim. */
  datatype PolicyInput = PolicyDocument(document: LifecycleDocument) | PolicyText(text: string)

  /** What each declared resource is given as inputs. */
  datatype Inputs =
    | NoInputs
    | RepositoryInputs(args: RepositoryArgs)
    | LifecyclePolicyInputs(repository: OutputRef, policy: PolicyInput)
}

/**
 * The constructor body shared by the three ECR repository components,
 * parameterised by the component's type token: defaults for the repository
 * arguments and the lifecycle document, a repository and a lifecycle policy
 * declared as children of the component, and empty registered outputs.
 */
module EcrComponent {
  import opened Optional
  import opened Pulumi
  import opened AwsTypes
  import opened AwsEcr
  import NamePatterns
  import NameEnforcement
  import PulumiPolicy

  /** `aws_ecr_repository_args or aws.ecr.RepositoryArgs(name=name)`; an args object is always truthy. */
  function RepositoryArgsOrDefault(supplied: Option<RepositoryArgs>, name: string): (r: RepositoryArgs)
    ensures supplied.Some? ==> r == supplied.value
    ensures supplied.None? ==> r.name == Some(name) && r.imageTagMutability.None?
  {
    if supplied.Some? then supplied.value else RepositoryArgs(Some(name), None)
  }

  /** Two weeks: long enough to roll back, short enough to bound storage. */
  const RetentionDays := 14

  const DefaultLifecycleDocument := LifecycleDocument([
    LifecycleRule(
      1,
      "Expire images older than 14 days",
      Selection("any", "sinceImagePushed", "days", RetentionDays),
      LifecycleAction("expire"))])

  /**
   * `aws_ecr_lifecycle_policy_policy or json.dumps(...)`: a missing or empty
   * policy is replaced by the one-rule, 14-day expiry document; any other
   * policy is passed on verbatim.
   */
  function LifecyclePolicyOrDefault(supplied: Option<string>): (r: PolicyInput)
    ensures supplied.Some? && supplied.value != "" ==> r == PolicyText(supplied.value)
    ensures supplied.None? || supplied.value == "" ==>
      && r.PolicyDocument?
      && |r.document.rules| == 1
      && r.document.rules[0].rulePriority == 1
      && r.document.rules[0].selection == Selection("any", "sinceImagePushed", "days", 14)
      && r.document.rules[0].action == LifecycleAction("expire")
  {
    if supplied.Some? && supplied.value != "" then PolicyText(supplied.value) else PolicyDocument(DefaultLifecycleDocument)
  }

  /**
   * The registrations one component constructor makes, in order, when the
   * component itself receives handle `self`: the component, then its
   * repository (handle `self + 1`), then its lifecycle policy.
   */
  function Declarations(
    typeToken: string,
    name: string,
    opts: Option<ResourceOptions>,
    repositoryArgs: Option<RepositoryArgs>,
    lifecyclePolicy: Option<string>,
    self: Handle): seq<Registration<Inputs>>
  {
    [ Registration(typeToken, name, false, opts, NoInputs),
      Registration(EcrRepositoryType, name, true, Some(ChildOptions(self)),
        RepositoryInputs(RepositoryArgsOrDefault(repositoryArgs, name))),
      Registration(EcrLifecyclePolicyType, name + "-lifecycle", true, Some(ChildOptions(self)),
        LifecyclePolicyInputs(OutputRef(self + 1, "name"), LifecyclePolicyOrDefault(lifecyclePolicy))) ]
  }

  /** The body of the constructors: register the component, its two children, then empty outputs. */
  method Declare(
    rt: Runtime<Inputs>,
    typeToken: string,
    name: string,
    opts: Option<ResourceOptions>,
    repositoryArgs: Option<RepositoryArgs>,
    lifecyclePolicy: Option<string>)
    returns (self: Handle, repository: Handle, lifecycle: Handle)
    modifies rt
    ensures self == |old(rt.resources)| && repository == self + 1 && lifecycle == self + 2
    ensures rt.resources == old(rt.resources) + Declarations(typeToken, name, opts, repositoryArgs, lifecyclePolicy, self)
    ensures rt.outputs == old(rt.outputs)[self := map[]]
  {
    self := rt.RegisterResource(Registration(typeToken, name, false, opts, NoInputs));
    var args := RepositoryArgsOrDefault(repositoryArgs, name);
    repository := rt.RegisterResource(
      Registration(EcrRepositoryType, name, true, Some(ChildOptions(self)), RepositoryInputs(args)));
    var policy := LifecyclePolicyOrDefault(lifecyclePolicy);
    lifecycle := rt.RegisterResource(
      Registration(EcrLifecyclePolicyType, name + "-lifecycle", true, Some(ChildOptions(self)),
        LifecyclePolicyInputs(OutputRef(repository, "name"), policy)));
    rt.RegisterOutputs(self, map[]);
  }

  /**
   * Exactly one repository and one lifecycle policy are declared, and they
   * are the component's only children, repository first. The repository
   * bears the component's name; the lifecycle policy is named
   * `name + "-lifecycle"`, reads the `name` output of that repository (by
   * handle, not by the caller's string) and carries the chosen policy.
   */
  lemma DeclaredChildren(
    typeToken: string,
    name: string,
    opts: Option<ResourceOptions>,
    repositoryArgs: Option<RepositoryArgs>,
    lifecyclePolicy: Option<string>,
    self: Handle)
    requires typeToken != EcrRepositoryType && typeToken != EcrLifecyclePolicyType
    requires opts.None? || opts.value.parent != Some(self)
    ensures var d := Declarations(typeToken, name, opts, repositoryArgs, lifecyclePolicy, self);
      var repos, policies := OfType(d, EcrRepositoryType), OfType(d, EcrLifecyclePolicyType);
      && |repos| == 1 && |policies| == 1
      && ChildrenOf(d, self) == [repos[0], policies[0]]
      && repos[0].name == name
      && repos[0].inputs == RepositoryInputs(RepositoryArgsOrDefault(repositoryArgs, name))
      && policies[0].name == name + "-lifecycle"
      && policies[0].inputs.LifecyclePolicyInputs?
      && policies[0].inputs.repository.property == "name"
      && d[policies[0].inputs.repository.resource - self] == repos[0]
      && policies[0].inputs.policy == LifecyclePolicyOrDefault(lifecyclePolicy)
  {
    var d := Declarations(typeToken, name, opts, repositoryArgs, lifecyclePolicy, self);
    assert d[1..][1..][1..] == [];
    assert OfType(d[1..][1..], EcrRepositoryType) == [];
    assert OfType(d[1..], EcrRepositoryType) == [d[1]];
    assert OfType(d[1..][1..], EcrLifecyclePolicyType) == [d[2]];
    assert OfType(d[1..], EcrLifecyclePolicyType) == [d[2]];
    assert ChildrenOf(d[1..][1..], self) == [d[2]];
    assert ChildrenOf(d[1..], self) == [d[1], d[2]];
  }

  /**
   * Building twice from the same inputs gives the same description up to the
   * handles: the same component registration, the same types, names and kinds,
   * the same repository arguments and lifecycle policy, and in each build the
   * children are parented to that build's component and the lifecycle policy
   * reads the repository declared right after it.
   */
  lemma DeclarationsDeterministic(
    typeToken: string,
    name: string,
    opts: Option<ResourceOptions>,
    repositoryArgs: Option<RepositoryArgs>,
    lifecyclePolicy: Option<string>,
    self: Handle,
    other: Handle)
    ensures var d, e := Declarations(typeToken, name, opts, repositoryArgs, lifecyclePolicy, self),
                        Declarations(typeToken, name, opts, repositoryArgs, lifecyclePolicy, other);
      && |d| == |e| == 3
      && (forall k :: 0 <= k < |d| ==> d[k].typ == e[k].typ && d[k].name == e[k].name && d[k].custom == e[k].custom)
      && d[0] == e[0]
      && d[1].inputs == e[1].inputs
      && d[2].inputs.LifecyclePolicyInputs? && e[2].inputs.LifecyclePolicyInputs?
      && d[2].inputs.policy == e[2].inputs.policy
      && d[2].inputs.repository.property == e[2].inputs.repository.property == "name"
      && d[1].opts == d[2].opts == Some(ChildOptions(self))
      && e[1].opts == e[2].opts == Some(ChildOptions(other))
      && d[2].inputs.repository.resource - self == e[2].inputs.repository.resource - other == 1
  {
  }

  /**
   * A component built without repository arguments declares its repository
   * (the registration after the component's own) under the component's name, so the ECR repository naming policy
   * passes that repository exactly when the component name has 2 to 256
   * characters and matches the ECR pattern.
   */
  lemma DefaultRepositoryNamingPolicy(
    typeToken: string,
    name: string,
    opts: Option<ResourceOptions>,
    lifecyclePolicy: Option<string>,
    self: Handle)
    ensures var repo := Declarations(typeToken, name, opts, None, lifecyclePolicy, self)[1];
      var args := PulumiPolicy.ResourceValidationArgs(repo.typ, repo.name, RepositoryProps(repo.inputs.args));
      (NameEnforcement.ValidateName(NameEnforcement.EcrRepositoryNameRule, args) == [])
        <==> (2 <= |name| <= 256 && NamePatterns.ReMatch(NamePatterns.EcrName, name))
  {
    var repo := Declarations(typeToken, name, opts, None, lifecyclePolicy, self)[1];
    var args := PulumiPolicy.ResourceValidationArgs(repo.typ, repo.name, RepositoryProps(repo.inputs.args));
    NameEnforcement.ValidateNameEmptyIffConforms(NameEnforcement.EcrRepositoryNameRule, args);
  }
}
