/**
 * The parts of the Pulumi policy library the naming policies use: the
 * arguments a resource validation receives, enforcement levels, policies and
 * the policy pack they are added to (an append-only list).
 */
module PulumiPolicy {

  datatype EnforcementLevel = Advisory | Mandatory | Remediate | Disabled

  /**
   * What a resource validation sees of one resource: its type token, its
   * logical (declared) name and its input properties. Property values are
   * taken to be strings.
   */
  datatype ResourceValidationArgs = ResourceValidationArgs(
    resourceType: string,
    name: string,
    props: map<string, string>)

  /** A named check with its enforcement level; `validate` stands for the callback. */
  datatype ResourceValidationPolicy<V> = ResourceValidationPolicy(
    name: string,
    description: string,
    enforcementLevel: EnforcementLevel,
    validate: V)

  class PolicyPack<V> {
    const name: string
    var policies: seq<ResourceValidationPolicy<V>>

    constructor (name: string)
      ensures this.name == name && policies == []
    {
      this.name := name;
      policies := [];
    }

    method AddResourceValidationPolicy(policy: ResourceValidationPolicy<V>)
      modifies this
      ensures policies == old(policies) + [policy]
    {
      policies := policies + [policy];
    }
  }
}
