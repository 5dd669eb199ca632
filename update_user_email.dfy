/**
 * `UpdateUserEmailUseCase`: four checks in a fixed order (unknown user, deleted
 * user, e-mail held by another user, e-mail unchanged) before one `update`.
 */
module UpdateUserEmail {
  import opened Wrappers
  import opened RepositoryErrors
  import opened ApplicationErrors
  import opened UserEntity
  import opened UserRepo

  datatype UpdateUserEmailCommand = UpdateUserEmailCommand(userId: string, email: string)

  /**
   * What `execute` does against table `t`. `findById` comes first; an unknown user
   * rejects with UserNotFound and a deleted one with UserAlreadyDeleted, each after
   * that single call; then `findByEmail`; an e-mail held by another user rejects
   * with UserEmailAlreadyExists; an unchanged e-mail resolves without `update`;
   * otherwise `update` is called once with the user differing only in e-mail.
   */
  function UpdateUserEmailRun(t: UserTable, down: bool, command: UpdateUserEmailCommand): (run: UserRun)
    requires WellFormed(t)
    ensures |run.calls| >= 1 && run.calls[0] == FindByIdCall(command.userId)
    ensures WritesOnlyLast(run.calls) && |run.calls| <= 3
    ensures run.outcome == Fail(UserNotFound(command.userId)) <==> command.userId !in t
    ensures run.outcome == Fail(UserAlreadyDeleted(command.userId)) <==>
      command.userId in t && t[command.userId].IsDeleted()
    ensures |run.calls| == 1 <==> command.userId !in t || t[command.userId].IsDeleted()
    ensures |run.calls| >= 2 ==> run.calls[1] == FindByEmailCall(command.email)
    ensures run.outcome == Fail(UserEmailAlreadyExists) <==>
      command.userId in t && !t[command.userId].IsDeleted() && EmailTakenByOther(t, command.email, command.userId)
    ensures |run.calls| == 3 <==>
      command.userId in t && !t[command.userId].IsDeleted()
      && !EmailTakenByOther(t, command.email, command.userId) && command.email != t[command.userId].email
    ensures |run.calls| < 3 ==> run.table == t
    ensures |run.calls| == 2 && !EmailTakenByOther(t, command.email, command.userId) ==> run.outcome == Pass
    ensures |run.calls| == 3 ==>
      && run.calls[2] == UpdateCall(t[command.userId].(email := command.email))
      && run.outcome == (if down then Fail(Repository(Persistence)) else Pass)
    ensures run.outcome == Pass ==>
      FindByIdIn(run.table, command.userId) == Some(t[command.userId].(email := command.email))
    ensures forall id | id != command.userId :: FindByIdIn(run.table, id) == FindByIdIn(t, id)
    ensures run.outcome.Fail? ==> run.table == t
    ensures WellFormed(run.table)
  {
    match FindByIdIn(t, command.userId)
    case None => UserRun(Fail(UserNotFound(command.userId)), [FindByIdCall(command.userId)], t)
    case Some(user) =>
      if user.IsDeleted() then
        UserRun(Fail(UserAlreadyDeleted(command.userId)), [FindByIdCall(command.userId)], t)
      else
        var lookups := [FindByIdCall(command.userId), FindByEmailCall(command.email)];
        var existing := FindByEmailIn(t, command.email);
        if existing.Some? && existing.value.id != user.id then
          UserRun(Fail(UserEmailAlreadyExists), lookups, t)
        else if command.email == user.email then
          UserRun(Pass, lookups, t)
        else
          var updated := user.UpdateEmail(command.email);
          var w := UpdateIn(t, down, updated);
          UserRun(Propagate(w.outcome), lookups + [UpdateCall(updated)], w.table)
  }

  class UpdateUserEmailUseCase {
    const userRepository: UserRepository

    constructor (userRepository: UserRepository)
      ensures this.userRepository == userRepository
    {
      this.userRepository := userRepository;
    }

    method Execute(command: UpdateUserEmailCommand) returns (r: Outcome<UseCaseError>)
      requires userRepository.Valid()
      modifies userRepository`rows, userRepository`calls
      ensures userRepository.Valid()
      ensures var run := UpdateUserEmailRun(old(userRepository.rows), userRepository.storeDown, command);
        && r == run.outcome
        && userRepository.rows == run.table
        && userRepository.calls == old(userRepository.calls) + run.calls
    {
      var user := userRepository.FindById(command.userId);
      if user.None? {
        return Fail(UserNotFound(command.userId));
      }
      if user.value.IsDeleted() {
        return Fail(UserAlreadyDeleted(command.userId));
      }
      var existing := userRepository.FindByEmail(command.email);
      if existing.Some? && existing.value.id != user.value.id {
        return Fail(UserEmailAlreadyExists);
      }
      if command.email == user.value.email {
        return Pass;
      }
      var updated := user.value.UpdateEmail(command.email);
      var written := userRepository.Update(updated);
      r := Propagate(written);
    }
  }
}
