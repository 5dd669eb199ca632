/**
 * `UpdateUserPasswordUseCase`: unknown user, deleted user and unchanged hash are
 * checked in that order before one `update`; `findByEmail` is never consulted.
 */
module UpdateUserPassword {
  import opened Wrappers
  import opened RepositoryErrors
  import opened ApplicationErrors
  import opened UserEntity
  import opened UserRepo

  datatype UpdateUserPasswordCommand = UpdateUserPasswordCommand(userId: string, passwordHash: string)

  /**
   * What `execute` does against table `t`: `findById` is its only read; an unknown
   * user rejects with UserNotFound, a deleted one with UserAlreadyDeleted, an
   * unchanged hash resolves without `update`; otherwise `update` is called once
   * with the user differing only in its password hash.
   */
  function UpdateUserPasswordRun(t: UserTable, down: bool, command: UpdateUserPasswordCommand): (run: UserRun)
    requires WellFormed(t)
    ensures |run.calls| >= 1 && run.calls[0] == FindByIdCall(command.userId)
    ensures WritesOnlyLast(run.calls) && |run.calls| <= 2
    ensures forall i | 0 <= i < |run.calls| :: !run.calls[i].FindByEmailCall?
    ensures run.outcome == Fail(UserNotFound(command.userId)) <==> command.userId !in t
    ensures run.outcome == Fail(UserAlreadyDeleted(command.userId)) <==>
      command.userId in t && t[command.userId].IsDeleted()
    ensures |run.calls| == 2 <==>
      command.userId in t && !t[command.userId].IsDeleted()
      && command.passwordHash != t[command.userId].passwordHash
    ensures (command.userId in t && !t[command.userId].IsDeleted()
             && command.passwordHash == t[command.userId].passwordHash) ==> run.outcome == Pass
    ensures |run.calls| == 1 ==> run.table == t
    ensures |run.calls| == 2 ==>
      && run.calls[1] == UpdateCall(t[command.userId].(passwordHash := command.passwordHash))
      && run.outcome == (if down then Fail(Repository(Persistence)) else Pass)
    ensures run.outcome == Pass ==>
      FindByIdIn(run.table, command.userId) == Some(t[command.userId].(passwordHash := command.passwordHash))
    ensures forall id | id != command.userId :: FindByIdIn(run.table, id) == FindByIdIn(t, id)
    ensures run.outcome.Fail? ==> run.table == t
    ensures WellFormed(run.table)
  {
    match FindByIdIn(t, command.userId)
    case None => UserRun(Fail(UserNotFound(command.userId)), [FindByIdCall(command.userId)], t)
    case Some(user) =>
      if user.IsDeleted() then
        UserRun(Fail(UserAlreadyDeleted(command.userId)), [FindByIdCall(command.userId)], t)
      else if command.passwordHash == user.passwordHash then
        UserRun(Pass, [FindByIdCall(command.userId)], t)
      else
        var updated := user.UpdatePasswordHash(command.passwordHash);
        var w := UpdateIn(t, down, updated);
        UserRun(Propagate(w.outcome), [FindByIdCall(command.userId), UpdateCall(updated)], w.table)
  }

  class UpdateUserPasswordUseCase {
    const userRepository: UserRepository

    constructor (userRepository: UserRepository)
      ensures this.userRepository == userRepository
    {
      this.userRepository := userRepository;
    }

    method Execute(command: UpdateUserPasswordCommand) returns (r: Outcome<UseCaseError>)
      requires userRepository.Valid()
      modifies userRepository`rows, userRepository`calls
      ensures userRepository.Valid()
      ensures var run := UpdateUserPasswordRun(old(userRepository.rows), userRepository.storeDown, command);
        && r == run.outcome
        && userRepository.rows == run.table
        && userRepository.calls == old(userRepository.calls) + run.calls
    {
      var user := userRepository.FindById(command.userId);
      if user.None? {
        return Fail(UserNotFound(command.userId));
      }
      if user.value.IsDeleted() {
        return Fail(UserAlreadyDeleted(command.userId));
      }
      if command.passwordHash == user.value.passwordHash {
        return Pass;
      }
      var updated := user.value.UpdatePasswordHash(command.passwordHash);
      var written := userRepository.Update(updated);
      r := Propagate(written);
    }
  }
}
