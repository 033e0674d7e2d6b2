/** The type tokens of the AWS resources the policies and the components refer to. */
module AwsTypes {
  const EcrRepositoryType := "aws:ecr/repository:Repository"
  const EcrLifecyclePolicyType := "aws:ecr/lifecyclePolicy:LifecyclePolicy"
  const S3BucketType := "aws:s3/bucket:Bucket"
  const LambdaFunctionType := "aws:lambda/function:Function"
  const IamRoleType := "aws:iam/role:Role"
}
