/** Execution identities issued by the repository coordinator and checked, field
    by field, wherever they are presented. */
module Execution {
  datatype Lane = Foreground | Maintenance

  datatype Identity = Identity(
    repositoryId: string,
    lane: Lane,
    generation: int,
    operationId: string,
    claimId: string,
    expiresAt: int,
    grantSha256: string)

  datatype ExecutionState = Active | Completed | Revoked

  const NATIVE_EXECUTION_TIMEOUT_MS := 14 * 60_000
  const EXPIRED_WRITER_DRAIN_MS := 5 * 60_000

  /** Two identities are the same execution exactly when every field agrees. */
  predicate SameExecution(a: Identity, b: Identity) {
    && a.repositoryId == b.repositoryId && a.lane == b.lane && a.generation == b.generation
    && a.operationId == b.operationId && a.claimId == b.claimId && a.expiresAt == b.expiresAt
    && a.grantSha256 == b.grantSha256
  }
}
