/**
 * The user state machine across the user use cases: Active (deletedAt null) to
 * Deleted (a date), one way. Any sequence of registrations, e-mail and password
 * changes and deletions keeps e-mails unique, never touches a deleted user's
 * row again, and leaves `DeleteUser` as the only way into Deleted.
 */
module UserLifecycle {
  import opened UserEntity
  import opened UserRepo
  import opened RegistUser
  import opened UpdateUserEmail
  import opened UpdateUserPassword
  import opened DeleteUser

  /** One `execute` call of a user use case, with the id and clock it receives. */
  datatype Request =
    | Regist(regist: RegistUserCommand, newId: string)
    | ChangeEmail(changeEmail: UpdateUserEmailCommand)
    | ChangePassword(changePassword: UpdateUserPasswordCommand)
    | Remove(remove: DeleteUserCommand, now: int)

  function Step(t: UserTable, down: bool, request: Request): (run: UserRun)
    requires WellFormed(t)
    ensures WellFormed(run.table)
  {
    match request
    case Regist(c, newId) => RegistUserRun(t, down, c, newId)
    case ChangeEmail(c) => UpdateUserEmailRun(t, down, c)
    case ChangePassword(c) => UpdateUserPasswordRun(t, down, c)
    case Remove(c, now) => DeleteUserRun(t, down, c, now)
  }

  /** The table after the requests run one after another. */
  function RunAll(t: UserTable, down: bool, requests: seq<Request>): (final: UserTable)
    requires WellFormed(t)
    ensures WellFormed(final)
    decreases |requests|
  {
    if requests == [] then t else RunAll(Step(t, down, requests[0]).table, down, requests[1..])
  }

  /** One use case never changes the row of a deleted user. */
  lemma StepKeepsDeletedRow(t: UserTable, down: bool, request: Request, id: string)
    requires WellFormed(t) && id in t && t[id].IsDeleted()
    ensures id in Step(t, down, request).table
    ensures Step(t, down, request).table[id] == t[id]
  {
    var run := Step(t, down, request);
    assert FindByIdIn(run.table, id) == FindByIdIn(t, id);
  }

  /** Deleted is terminal: whatever use cases run afterwards, a deleted user's row stays as it is. */
  lemma {:induction false} DeletedRowIsFrozen(t: UserTable, down: bool, requests: seq<Request>, id: string)
    requires WellFormed(t) && id in t && t[id].IsDeleted()
    ensures id in RunAll(t, down, requests)
    ensures RunAll(t, down, requests)[id] == t[id]
    decreases |requests|
  {
    if requests != [] {
      StepKeepsDeletedRow(t, down, requests[0], id);
      DeletedRowIsFrozen(Step(t, down, requests[0]).table, down, requests[1..], id);
    }
  }

  /** A stored user turns from Active into Deleted only through `DeleteUser` on that very user. */
  lemma OnlyDeleteUserDeletes(t: UserTable, down: bool, request: Request, id: string)
    requires WellFormed(t) && id in t && !t[id].IsDeleted()
    requires id in Step(t, down, request).table && Step(t, down, request).table[id].IsDeleted()
    ensures request.Remove? && request.remove.userId == id
  {
    var run := Step(t, down, request);
    assert !(request.Remove? && request.remove.userId == id) ==> FindByIdIn(run.table, id) == FindByIdIn(t, id);
  }

  /** No use case removes a row: every user once stored stays stored. */
  lemma {:induction false} RowsAreNeverRemoved(t: UserTable, down: bool, requests: seq<Request>, id: string)
    requires WellFormed(t) && id in t
    ensures id in RunAll(t, down, requests)
    ensures RunAll(t, down, requests)[id].id == id
    decreases |requests|
  {
    if requests != [] {
      var run := Step(t, down, requests[0]);
      assert FindByIdIn(run.table, id).Some?;
      RowsAreNeverRemoved(run.table, down, requests[1..], id);
    }
  }
}
