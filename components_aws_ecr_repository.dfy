/**
 * The ECR repository component registered as
 * `components:aws/ecr/repository:Repository`, with its children held in
 * `aws_ecr_repository` and `aws_ecr_lifecycle_policy`.
 */
module ComponentsAwsEcrRepository {
  import opened Optional
  import opened Pulumi
  import opened AwsTypes
  import opened AwsEcr
  import opened EcrComponent
  import opened PulumiPolicy
  import opened NameEnforcement

  const TypeToken := "components:aws/ecr/repository:Repository"

  class Repository {
    /** The handle the component itself was registered under. */
    const handle: Handle
    var awsEcrRepository: Handle
    var awsEcrLifecyclePolicy: Handle

    constructor (
      rt: Runtime<Inputs>,
      name: string,
      opts: Option<ResourceOptions> := None,
      awsEcrRepositoryArgs: Option<RepositoryArgs> := None,
      awsEcrLifecyclePolicyPolicy: Option<string> := None)
      modifies rt
      ensures handle == |old(rt.resources)|
      ensures rt.resources
           == old(rt.resources) + Declarations(TypeToken, name, opts, awsEcrRepositoryArgs, awsEcrLifecyclePolicyPolicy, handle)
      ensures awsEcrRepository == handle + 1 && rt.resources[awsEcrRepository].typ == EcrRepositoryType
      ensures awsEcrLifecyclePolicy == handle + 2 && rt.resources[awsEcrLifecyclePolicy].typ == EcrLifecyclePolicyType
      ensures rt.outputs == old(rt.outputs)[handle := map[]]
    {
      var self, repository, lifecycle := Declare(rt, TypeToken, name, opts, awsEcrRepositoryArgs, awsEcrLifecyclePolicyPolicy);
      handle := self;
      awsEcrRepository := repository;
      awsEcrLifecyclePolicy := lifecycle;
    }
  }

  /** The component-name policy applies to this component: it is reported exactly when declared without a name. */
  lemma ComponentNamePolicyApplies(name: string, props: map<string, string>)
    ensures ValidateComponentName(ResourceValidationArgs(TypeToken, name, props)) != [] <==> name == ""
  {
    ComponentNameRule(ResourceValidationArgs(TypeToken, name, props));
    assert TypeToken[..|ComponentPrefix|] == ComponentPrefix;
  }

  /**
   * `Repository("test")` in a fresh runtime: one repository and one
   * lifecycle policy are recorded, and the policy is the one-rule document
   * expiring images after 14 days.
   */
  method DefaultRepositoryScenario() returns (repositories: seq<Registration<Inputs>>, lifecyclePolicies: seq<Registration<Inputs>>)
    ensures |repositories| == 1 && |lifecyclePolicies| == 1
    ensures repositories[0].name == "test"
    ensures lifecyclePolicies[0].inputs.LifecyclePolicyInputs?
    ensures lifecyclePolicies[0].inputs.policy.PolicyDocument?
    ensures |lifecyclePolicies[0].inputs.policy.document.rules| == 1
    ensures lifecyclePolicies[0].inputs.policy.document.rules[0].selection.countNumber == 14
    ensures lifecyclePolicies[0].inputs.policy.document.rules[0].selection.countUnit == "days"
  {
    var rt := new Runtime<Inputs>();
    var component := new Repository(rt, "test");
    assert rt.resources == Declarations(TypeToken, "test", None, None, None, component.handle);
    assert TypeToken[0] != EcrRepositoryType[0] && TypeToken[0] != EcrLifecyclePolicyType[0];
    DeclaredChildren(TypeToken, "test", None, None, None, component.handle);
    repositories := OfType(rt.resources, EcrRepositoryType);
    lifecyclePolicies := OfType(rt.resources, EcrLifecyclePolicyType);
  }
}
