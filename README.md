# Naming-convention policies and ECR repository components, in Dafny

This project models two small parts of an infrastructure repository built on Pulumi:

1. **The naming-convention policy pack** (`policies/policy/name_enforcement.py`).
   `create_name_policy` builds a validation callback from a resource type, a property name, an optional
   pattern, optional minimum and maximum lengths and a `required` flag. Given a resource's type and input
   properties, the callback reports an ordered list of violation messages. `register_policies` adds five
   mandatory policies to a policy pack: four name rules (ECR repositories, S3 buckets, Lambda functions,
   IAM roles) and a check that component resources are declared with a name.
2. **Three ECR repository components** (`components/components/aws/ecr/repository.py`,
   `components/src/components/ecr_repository.py`, `components/src/components/aws/ecr/repository.py`).
   Each constructor registers the component under its own type token. It picks defaults: repository
   arguments `name=name`, and a one-rule lifecycle document that expires images 14 days after push. It
   then declares an `aws.ecr.Repository` and an `aws.ecr.LifecyclePolicy` as children of the component,
   and registers empty outputs.

Layout, one module per concern:

- `strings.dfy`: `Optional` (an option type) and `Strings`, which holds prefix tests and Python's
  `str()` of an integer, with its inverse and an injectivity lemma.
- `patterns.dfy`: `NamePatterns`, the three `^[class]+$` patterns. It gives each character class as
  Python's `re` parses it, its source text, and what `re.match` answers. That includes Python's `$`
  accepting one trailing newline.
- `pulumi_policy.dfy`: `PulumiPolicy`, the validation arguments, enforcement levels and an
  append-only `PolicyPack` class.
- `name_enforcement.dfy`: `NameEnforcement`, which holds the name check, the component-name check,
  the policy table and `RegisterPolicies`.
- `pulumi_runtime.dfy`: `Pulumi`, a runtime that records declared resources in order, the way the
  tests' mocks do. A resource's handle is its position in that record.
- `aws_types.dfy`: `AwsTypes`, the AWS type tokens that both the policies and the components use.
- `ecr_component.dfy`: `AwsEcr` (the ECR inputs) and `EcrComponent` (the constructor
  body shared by the three components, parameterised by the type token).
- `components_aws_ecr_repository.dfy`, `src_ecr_repository.dfy`, `src_aws_ecr_repository.dfy`: one
  class per component file, each with its own type token, field names and parameter order.

Facts about the code that the model keeps:

- The ECR pattern `^[a-z0-9-_/]+$` admits a–z, 0–9, `-`, `_` and `/`.
- Each covered AWS type has one policy, under a fixed name such as `ecr-repository-name-required`.
  The registered table covers ECR repositories, S3 buckets, Lambda functions and IAM roles, then the
  component-name check.
- When the rule is not required, a property that is present but empty still gets the length and
  pattern checks. When the rule is required, such a property is reported as missing and nothing else.

A consequence of `re.match` with `$` that the model keeps: a name ending in one newline (`"my-repo\n"`)
matches every pattern. The length checks still count that newline (`TrailingNewlines`,
`ReMatchMeaning`).

## Model

| member | source | states |
|---|---|---|
| `Strings.NatToString` | policies/policy/name_enforcement.py:82-83 | the decimal text of a bound is non-empty and all digits |
| `Strings.NatRoundTrip` | policies/policy/name_enforcement.py:82-83 | reading the printed digits of n gives back n |
| `Strings.IntRoundTrip` | policies/policy/name_enforcement.py:82-83 | reading the printed form of any int, sign included, gives it back |
| `Strings.IntToStringInjective` | policies/policy/name_enforcement.py:82-89 | different bounds never print alike |
| `NamePatterns.SourceText` | policies/policy/name_enforcement.py:15-21 | each modelled class renders exactly as the source's pattern constant |
| `NamePatterns.AllowedCharacters` | policies/policy/name_enforcement.py:15-21 | AWS class is a–z, 0–9, `-`; ECR adds `_` and `/`; S3 is a–z, 0–9, `.`, `-` (Python's reading of `-` after a range or before `]`) |
| `NamePatterns.AllAllowed` | policies/policy/name_enforcement.py:92-93 | the scan is true exactly when every character is in the class |
| `NamePatterns.NewlineNeverAllowed` | policies/policy/name_enforcement.py:15-21 | no class admits a newline |
| `NamePatterns.ReMatchMeaning` | policies/policy/name_enforcement.py:92-93 | `re.match` succeeds exactly on a non-empty in-class string, or on one followed by a single `"\n"` |
| `NamePatterns.ReMatchWithoutNewline` | policies/policy/name_enforcement.py:92-93 | without newlines, a match means non-empty with every character in the class |
| `NamePatterns.TrailingNewlines` | policies/policy/name_enforcement.py:92-93 | one trailing newline is accepted by `$`, two are not |
| `NameEnforcement.Messages` | policies/policy/name_enforcement.py:69-97 | one report per violation, in the same order, each with that violation's text |
| `NameEnforcement.ValidateNameOtherType` | policies/policy/name_enforcement.py:63-64 | a resource of another type gets no violations |
| `NameEnforcement.ValidateNameRequiredMissing` | policies/policy/name_enforcement.py:69-73 | required and absent or `""`: exactly the one "must have a '<prop>' property" message, no other check |
| `NameEnforcement.ValidateNameOptionalAbsent` | policies/policy/name_enforcement.py:75-76 | not required and absent: no violations |
| `NameEnforcement.MissingMessageMentions` | policies/policy/name_enforcement.py:70-72 | the "must have" message contains both the resource type and the property name |
| `NameEnforcement.ViolationsConvention` | policies/policy/name_enforcement.py:80-97 | otherwise at most three violations, never "missing", in order too-short < too-long < mismatch; each present iff its own bound or pattern is set and violated |
| `NameEnforcement.ConformingNamePasses` | policies/policy/name_enforcement.py:80-97 | a non-empty name within every set bound and wholly in the class has no violations |
| `NameEnforcement.ValidateNameEmptyIffConforms` | policies/policy/name_enforcement.py:63-97 | no message is reported iff the resource conforms, by a declarative description of conformance |
| `NameEnforcement.MissingMessageDistinct` | policies/policy/name_enforcement.py:70-97 | the "must have" text differs from every length and pattern text |
| `NameEnforcement.DetailInjective` | policies/policy/name_enforcement.py:81-97 | the texts after the subject determine the violation, bound and pattern included |
| `NameEnforcement.MessageInjective` | policies/policy/name_enforcement.py:69-97 | two violations of a rule with the same message are the same violation |
| `NameEnforcement.ValidateNameDeterminesViolations` | policies/policy/name_enforcement.py:69-97 | equal reported message lists mean equal violation lists: the text loses nothing |
| `NameEnforcement.ReportedIff` | policies/policy/name_enforcement.py:69-97 | a violation's message is reported iff the violation was found |
| `NameEnforcement.ValidateNameConvention` | policies/policy/name_enforcement.py:80-97 | in reported text: at most three messages, no "must have"; too-short, too-long and mismatch texts each appear iff their condition holds |
| `NameEnforcement.ComponentNameRule` | policies/policy/name_enforcement.py:190-197 | types not starting with `components:` are ignored; otherwise exactly one message, naming the type, iff the declared name is empty |
| `NameEnforcement.RegisterPolicies` | policies/policy/name_enforcement.py:102-206 | the pack afterwards holds what it held plus exactly the five naming policies, in order |
| `NameEnforcement.NamingPoliciesTable` | policies/policy/name_enforcement.py:110-206 | five policies, all MANDATORY, distinct names; four required rules with pattern and 1 ≤ min ≤ max on distinct AWS types, then the component-name check |
| `NameEnforcement.NameRuleBounds` | policies/policy/name_enforcement.py:110-175 | ECR `name` ECR pattern 2–256; S3 `bucket` S3 pattern 3–63; Lambda and IAM `name` AWS pattern 1–64 |
| `NameEnforcement.OnlyOwnPolicyReports` | policies/policy/name_enforcement.py:102-206 | a resource of the type of the i-th name rule gets exactly that rule's `validate_name` messages from its policy, and nothing from the other four policies |
| `NameEnforcement.AtMostOnePolicyReports` | policies/policy/name_enforcement.py:102-206 | for any resource, at most one registered policy reports anything |
| `NameEnforcement.RegisterIntoNewPack` | policies/__main__.py:7-14 | registering into a new pack yields five mandatory policies, ECR first and component-name last |
| `NameEnforcement.EcrRepositoryValidName` | policies/policy/name_enforcement.py:110-124 | "my-repo" passes the ECR repository rule, and every registered policy passes that repository |
| `NameEnforcement.EcrRepositoryInvalidName` | policies/policy/name_enforcement.py:92-97 | "A_B" yields only the pattern violation under the ECR rule, and no other registered policy reports it |
| `NameEnforcement.S3BucketMissingName` | policies/policy/name_enforcement.py:126-141 | a bucket without `bucket` yields only the "must have" message, and no other registered policy reports it |
| `NameEnforcement.S3BucketShortName` | policies/policy/name_enforcement.py:80-84 | "ab" yields only the too-short violation under the S3 rule |
| `NameEnforcement.EcrPatternMessageText` | policies/policy/name_enforcement.py:94-97 | the exact ECR mismatch text, pattern included |
| `NameEnforcement.S3MissingMessageText` | policies/policy/name_enforcement.py:70-72 | the exact "must have a 'bucket' property" text |
| `NameEnforcement.S3TooShortMessageText` | policies/policy/name_enforcement.py:81-84 | the exact "must be at least 3 characters long" text |
| `Pulumi.OfType` | components/tests/components/test_ecr_repository.py:14-23 | the tests' filter by type keeps only recorded resources of that type, and no more of them than were recorded |
| `Pulumi.OfTypeCounts` | components/tests/components/test_ecr_repository.py:14-23 | the filter keeps every recorded resource of that type, as often as it was recorded, and nothing else |
| `Pulumi.ChildrenOf` | components/components/aws/ecr/repository.py:30-63 | the resources kept are recorded ones whose parent is the given handle |
| `Pulumi.ChildrenOfCounts` | components/components/aws/ecr/repository.py:30-63 | every recorded resource with that parent is kept, as often as it was recorded, and nothing else |
| `EcrComponent.RepositoryArgsOrDefault` | components/components/aws/ecr/repository.py:26-28 | supplied repository args pass through unchanged; otherwise the repository is named after the component |
| `EcrComponent.LifecyclePolicyOrDefault` | components/components/aws/ecr/repository.py:37-56 | a truthy policy passes verbatim; a missing or `""` one becomes one rule: priority 1, "any", "sinceImagePushed", "days", 14, "expire" |
| `EcrComponent.Declare` | components/components/aws/ecr/repository.py:23-65 | registers the component and then both children, in that order, and records empty outputs for the component |
| `EcrComponent.DeclaredChildren` | components/components/aws/ecr/repository.py:30-63 | exactly one repository and one lifecycle policy, the component's only children, repository first; the lifecycle policy is `name-lifecycle` and reads the repository's `name` output by handle |
| `EcrComponent.DeclarationsDeterministic` | components/components/aws/ecr/repository.py:23-65 | building twice from the same inputs gives the same component registration, the same types, names and kinds, the same repository arguments and lifecycle policy; in each build the children have that build's component as parent, and the lifecycle policy reads the `name` of the repository declared right after the component |
| `EcrComponent.DefaultRepositoryNamingPolicy` | components/components/aws/ecr/repository.py:26-34 | with default args, the ECR naming policy passes the repository iff the component name has 2–256 characters and matches the ECR pattern |
| `ComponentsAwsEcrRepository.Repository.constructor` | components/components/aws/ecr/repository.py:14-65 | registers under `components:aws/ecr/repository:Repository` with the caller's name and opts; `aws_ecr_repository` and `aws_ecr_lifecycle_policy` are the children's handles; outputs empty |
| `ComponentsAwsEcrRepository.ComponentNamePolicyApplies` | components/components/aws/ecr/repository.py:23 | the component-name policy reports this component iff its name is empty |
| `ComponentsAwsEcrRepository.DefaultRepositoryScenario` | components/tests/component/aws/ecr/test_repository.py:9-36 | `Repository("test")`: one repository, one lifecycle policy, whose document has one rule of 14 days |
| `SrcEcrRepository.ECRRepository.constructor` | components/src/components/ecr_repository.py:14-64 | registers under `cpr:ecr:Repository`; `repository` and `lifecycle_policy` are the children's handles; outputs empty |
| `SrcEcrRepository.ComponentNamePolicyNeverApplies` | components/src/components/ecr_repository.py:22 | `cpr:ecr:Repository` lies outside `components:`, so the component-name policy never reports it |
| `SrcEcrRepository.DefaultECRRepositoryScenario` | components/tests/components/test_ecr_repository.py:8-34 | `ECRRepository("test")`: exactly one resource of each AWS type; the policy has one rule, 14 "days" |
| `SrcAwsEcrRepository.Repository.constructor` | components/src/components/aws/ecr/repository.py:14-64 | registers under `components:aws/ecr/repository:Repository`; `aws_ecr_repository` and `aws_ecr_lifecycle_policy` are the children's handles; outputs empty |
| `SrcAwsEcrRepository.SuppliedArgumentsPassThrough` | components/src/components/aws/ecr/repository.py:25-62 | supplied repository args and a non-empty policy text reach the children unchanged, the policy wired to the repository's `name` output |
| `SrcAwsEcrRepository.ComponentNamePolicyApplies` | components/src/components/aws/ecr/repository.py:22 | the component-name policy reports this component iff its name is empty |

## Left out

- General regular expressions. `pattern` ranges over the three patterns the module defines: a rule
  cannot carry an arbitrary regex, and no regex engine is modelled.
- `str(name_value)` on non-string properties. Property values are strings. A property explicitly set to
  `None` is not distinguished from an absent one.
- `args.name` being `None`. The declared name is a string, so `not args.name` is the empty-name test.
- Enforcement semantics. Whether a mandatory violation blocks a deployment is decided by the Pulumi
  policy engine, which is not part of this model. So is the engine's evaluation of a pack.
- `PolicyPack` internals. The pack is an append-only list. Any checks the library makes on added
  policies, such as duplicate names, are not modelled.
- The Pulumi runtime. URNs, `Output` futures, dependency sequencing and providers are not modelled. A
  declared resource is a record (type, logical name, custom or component, options, inputs). The
  repository's `name` output is a reference (handle, property).
- `ResourceOptions` and `aws.ecr.RepositoryArgs`. Options keep only `parent` and `protect`. Repository
  arguments keep only `name` and `image_tag_mutability`, which are passed through as a whole.
- `json.dumps`. The lifecycle policy is a datatype document, not JSON text. A caller's policy must be a
  string; a non-string `Input` (an `Output`) is not modelled.
- The unused `args` constructor parameter (an empty `TypedDict`). It has no effect.
- `components/component/aws/ecr/types.py`. Its values come from `pulumi_aws` and are written here as
  the type strings the tests use.
- `components/tests/conftest.py`. The mocks are represented by the runtime's recorded list.
- The `Analyzer` schema tests. They call a foreign library.
- `policies/__main__.py` and `components/__main__.py`, apart from registering into a new pack. Hosting
  a provider is not modelled.
- Text length. It is the number of Unicode scalar values, as Python's `len` on `str` counts code points.
