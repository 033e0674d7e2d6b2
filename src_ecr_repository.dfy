/**
 * The ECR repository component registered as `cpr:ecr:Repository`, with its
 * children held in `repository` and `lifecycle_policy`.
 */
module SrcEcrRepository {
  import opened Optional
  import opened Pulumi
  import opened AwsTypes
  import opened AwsEcr
  import opened EcrComponent
  import opened PulumiPolicy
  import opened NameEnforcement

  const TypeToken := "cpr:ecr:Repository"

  class ECRRepository {
    /** The handle the component itself was registered under. */
    const handle: Handle
    var repository: Handle
    var lifecyclePolicy: Handle

    constructor (
      rt: Runtime<Inputs>,
      name: string,
      awsEcrRepositoryArgs: Option<RepositoryArgs> := None,
      awsEcrLifecyclePolicyPolicy: Option<string> := None,
      componentOpts: Option<ResourceOptions> := None)
      modifies rt
      ensures handle == |old(rt.resources)|
      ensures rt.resources
           == old(rt.resources) + Declarations(TypeToken, name, componentOpts, awsEcrRepositoryArgs, awsEcrLifecyclePolicyPolicy, handle)
      ensures repository == handle + 1 && rt.resources[repository].typ == EcrRepositoryType
      ensures lifecyclePolicy == handle + 2 && rt.resources[lifecyclePolicy].typ == EcrLifecyclePolicyType
      ensures rt.outputs == old(rt.outputs)[handle := map[]]
    {
      var self, repo, lifecycle := Declare(rt, TypeToken, name, componentOpts, awsEcrRepositoryArgs, awsEcrLifecyclePolicyPolicy);
      handle := self;
      repository := repo;
      lifecyclePolicy := lifecycle;
    }
  }

  /** `cpr:ecr:Repository` is outside the `components:` namespace, so the component-name policy never reports it. */
  lemma ComponentNamePolicyNeverApplies(name: string, props: map<string, string>)
    ensures ValidateComponentName(ResourceValidationArgs(TypeToken, name, props)) == []
  {
    assert TypeToken[1] != ComponentPrefix[1];
  }

  /**
   * `ECRRepository("test")` in a fresh runtime: exactly one resource of each
   * AWS type is recorded, and the lifecycle policy is the one-rule document
   * expiring images after 14 days.
   */
  method DefaultECRRepositoryScenario() returns (repositories: seq<Registration<Inputs>>, lifecyclePolicies: seq<Registration<Inputs>>)
    ensures |repositories| == 1 && |lifecyclePolicies| == 1
    ensures repositories[0].typ == "aws:ecr/repository:Repository"
    ensures lifecyclePolicies[0].typ == "aws:ecr/lifecyclePolicy:LifecyclePolicy"
    ensures lifecyclePolicies[0].inputs.LifecyclePolicyInputs?
    ensures lifecyclePolicies[0].inputs.policy.PolicyDocument?
    ensures |lifecyclePolicies[0].inputs.policy.document.rules| == 1
    ensures lifecyclePolicies[0].inputs.policy.document.rules[0].selection.countNumber == 14
    ensures lifecyclePolicies[0].inputs.policy.document.rules[0].selection.countUnit == "days"
  {
    var rt := new Runtime<Inputs>();
    var component := new ECRRepository(rt, "test");
    assert rt.resources == Declarations(TypeToken, "test", None, None, None, component.handle);
    assert TypeToken[0] != EcrRepositoryType[0] && TypeToken[0] != EcrLifecyclePolicyType[0];
    DeclaredChildren(TypeToken, "test", None, None, None, component.handle);
    repositories := OfType(rt.resources, EcrRepositoryType);
    lifecyclePolicies := OfType(rt.resources, EcrLifecyclePolicyType);
  }
}
