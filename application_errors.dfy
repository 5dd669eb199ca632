/**
 * What a use case's `execute` can reject with: the entity's validation error,
 * the application errors of the memo and user modules, or a repository error
 * passed through unchanged.
 */
module ApplicationErrors {
  import opened Wrappers
  import opened RepositoryErrors

  datatype UseCaseError =
    | Validation(message: string)           // `new Error(...)` thrown by an entity factory
    | MemoNotFound(memoId: string)          // MemoNotFoundApplicationError
    | MemoNotOwned(memoId: string, userId: string) // MemoNotOwnedError
    | UserNotFound(userId: string)          // UserNotFoundError
    | UserAlreadyDeleted(userId: string)    // UserAlreadyDeletedError
    | UserEmailAlreadyExists                // UserEmailAlreadyExistsError
    | Repository(cause: RepositoryError)    // a repository rejection, not caught

  /** Awaiting a repository write without a `catch`: its rejection becomes the use case's. */
  function Propagate(o: Outcome<RepositoryError>): (r: Outcome<UseCaseError>)
    ensures r.Pass? <==> o.Pass?
    ensures o.Fail? ==> r.error.Repository? && r.error.cause == o.error
  {
    match o
    case Pass => Pass
    case Fail(e) => Fail(Repository(e))
  }
}
