/**
 * The ECR repository component of the `src` package registered as
 * `components:aws/ecr/repository:Repository`, with its children held in
 * `aws_ecr_repository` and `aws_ecr_lifecycle_policy`.
 */
module SrcAwsEcrRepository {
  import opened Optional
  import opened Pulumi
  import opened AwsTypes
  import opened AwsEcr
  import opened EcrComponent
  import opened PulumiPolicy
  import opened NameEnforcement

  const TypeToken := "components:aws/ecr/repository:Repository"

  class Repository {
    /** The handle the component itself was registered under. */
    const handle: Handle
    var awsEcrRepository: Handle
    var awsEcrLifecyclePolicy: Handle

    constructor (
      rt: Runtime<Inputs>,
      name: string,
      opts: Option<ResourceOptions> := None,
      awsEcrRepositoryArgs: Option<RepositoryArgs> := None,
      awsEcrLifecyclePolicyPolicy: Option<string> := None)
      modifies rt
      ensures handle == |old(rt.resources)|
      ensures rt.resources
           == old(rt.resources) + Declarations(TypeToken, name, opts, awsEcrRepositoryArgs, awsEcrLifecyclePolicyPolicy, handle)
      ensures awsEcrRepository == handle + 1 && rt.resources[awsEcrRepository].typ == EcrRepositoryType
      ensures awsEcrLifecyclePolicy == handle + 2 && rt.resources[awsEcrLifecyclePolicy].typ == EcrLifecyclePolicyType
      ensures rt.outputs == old(rt.outputs)[handle := map[]]
    {
      var self, repository, lifecycle := Declare(rt, TypeToken, name, opts, awsEcrRepositoryArgs, awsEcrLifecyclePolicyPolicy);
      handle := self;
      awsEcrRepository := repository;
      awsEcrLifecyclePolicy := lifecycle;
    }
  }

  /**
   * Declared with a caller's repository arguments and lifecycle text, the
   * component passes both through unchanged: the repository gets exactly
   * those arguments and the lifecycle policy exactly that text, wired to
   * the repository's `name` output.
   */
  lemma SuppliedArgumentsPassThrough(
    name: string,
    opts: Option<ResourceOptions>,
    args: RepositoryArgs,
    policy: string,
    self: Handle)
    requires policy != ""
    requires opts.None? || opts.value.parent != Some(self)
    ensures var d := Declarations(TypeToken, name, opts, Some(args), Some(policy), self);
      var repos, policies := OfType(d, EcrRepositoryType), OfType(d, EcrLifecyclePolicyType);
      && |repos| == 1 && |policies| == 1
      && repos[0].inputs == RepositoryInputs(args)
      && policies[0].inputs == LifecyclePolicyInputs(OutputRef(self + 1, "name"), PolicyText(policy))
  {
    assert TypeToken[0] != EcrRepositoryType[0] && TypeToken[0] != EcrLifecyclePolicyType[0];
    DeclaredChildren(TypeToken, name, opts, Some(args), Some(policy), self);
  }

  /** The component-name policy reports this component exactly when it is declared without a name. */
  lemma ComponentNamePolicyApplies(name: string, props: map<string, string>)
    ensures ValidateComponentName(ResourceValidationArgs(TypeToken, name, props)) != [] <==> name == ""
  {
    ComponentNameRule(ResourceValidationArgs(TypeToken, name, props));
    assert TypeToken[..|ComponentPrefix|] == ComponentPrefix;
  }
}
