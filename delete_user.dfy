/**
 * `DeleteUserUseCase`: a soft delete. The user's row is overwritten with its
 * deleted version through `update`; `delete` is never called.
 */
module DeleteUser {
  import opened Wrappers
  import opened RepositoryErrors
  import opened ApplicationErrors
  import opened UserEntity
  import opened UserRepo

  datatype DeleteUserCommand = DeleteUserCommand(userId: string)

  /**
   * What `execute` does against table `t`, given the clock reading `now`:
   * `findById` first; an unknown user rejects with UserNotFound, a deleted one with
   * UserAlreadyDeleted and nothing is written; otherwise `update` is called with
   * the user marked deleted at `now` and every other field unchanged.
   */
  function DeleteUserRun(t: UserTable, down: bool, command: DeleteUserCommand, now: int): (run: UserRun)
    requires WellFormed(t)
    ensures |run.calls| >= 1 && run.calls[0] == FindByIdCall(command.userId)
    ensures WritesOnlyLast(run.calls) && |run.calls| <= 2
    ensures forall i | 0 <= i < |run.calls| :: !run.calls[i].DeleteCall? && !run.calls[i].CreateCall?
    ensures run.outcome == Fail(UserNotFound(command.userId)) <==> command.userId !in t
    ensures run.outcome == Fail(UserAlreadyDeleted(command.userId)) <==>
      command.userId in t && t[command.userId].IsDeleted()
    ensures |run.calls| == 2 <==> command.userId in t && !t[command.userId].IsDeleted()
    ensures |run.calls| == 1 ==> run.table == t
    ensures |run.calls| == 2 ==>
      && run.calls[1] == UpdateCall(t[command.userId].(deletedAt := Js.At(now)))
      && run.calls[1].user.IsDeleted()
      && run.outcome == (if down then Fail(Repository(Persistence)) else Pass)
    ensures run.outcome == Pass ==>
      && command.userId in run.table
      && run.table[command.userId] == t[command.userId].(deletedAt := Js.At(now))
    ensures forall id | id != command.userId :: FindByIdIn(run.table, id) == FindByIdIn(t, id)
    ensures run.outcome.Fail? ==> run.table == t
    ensures WellFormed(run.table)
  {
    match FindByIdIn(t, command.userId)
    case None => UserRun(Fail(UserNotFound(command.userId)), [FindByIdCall(command.userId)], t)
    case Some(user) =>
      if user.IsDeleted() then
        UserRun(Fail(UserAlreadyDeleted(command.userId)), [FindByIdCall(command.userId)], t)
      else
        var deleted := user.Delete(now);
        var w := UpdateIn(t, down, deleted);
        UserRun(Propagate(w.outcome), [FindByIdCall(command.userId), UpdateCall(deleted)], w.table)
  }

  /** Deleting twice: the second call rejects with UserAlreadyDeleted and writes nothing. */
  lemma SecondDeleteRejected(t: UserTable, command: DeleteUserCommand, now1: int, now2: int)
    requires WellFormed(t)
    requires DeleteUserRun(t, false, command, now1).outcome == Pass
    ensures var t1 := DeleteUserRun(t, false, command, now1).table;
      DeleteUserRun(t1, false, command, now2) ==
        UserRun(Fail(UserAlreadyDeleted(command.userId)), [FindByIdCall(command.userId)], t1)
  {
  }

  class DeleteUserUseCase {
    const userRepository: UserRepository

    constructor (userRepository: UserRepository)
      ensures this.userRepository == userRepository
    {
      this.userRepository := userRepository;
    }

    /** `execute(command)`; `now` is the value `new Date()` reads in `user.delete()`. */
    method Execute(command: DeleteUserCommand, now: int) returns (r: Outcome<UseCaseError>)
      requires userRepository.Valid()
      modifies userRepository`rows, userRepository`calls
      ensures userRepository.Valid()
      ensures var run := DeleteUserRun(old(userRepository.rows), userRepository.storeDown, command, now);
        && r == run.outcome
        && userRepository.rows == run.table
        && userRepository.calls == old(userRepository.calls) + run.calls
    {
      var user := userRepository.FindById(command.userId);
      if user.None? {
        return Fail(UserNotFound(command.userId));
      }
      if user.value.IsDeleted() {
        return Fail(UserAlreadyDeleted(command.userId));
      }
      var deleted := user.value.Delete(now);
      var written := userRepository.Update(deleted);
      r := Propagate(written);
    }
  }
}
