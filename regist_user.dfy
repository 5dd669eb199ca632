/** `RegistUserUseCase`: refuse a taken e-mail, else create a new user with a fresh id. */
module RegistUser {
  import opened Wrappers
  import opened RepositoryErrors
  import opened ApplicationErrors
  import opened UserEntity
  import opened UserRepo

  datatype RegistUserCommand = RegistUserCommand(email: string, passwordHash: string, name: string)

  /**
   * What `execute` does against table `t`, given the id `ulid()` returns:
   * `findByEmail` first; an e-mail held by any user, deleted or not, rejects with
   * UserEmailAlreadyExists before `create`; otherwise `create` is called once with
   * a new, not deleted user carrying the command's fields, and its rejection is
   * passed on unchanged.
   */
  function RegistUserRun(t: UserTable, down: bool, command: RegistUserCommand, newId: string): (run: UserRun)
    requires WellFormed(t)
    ensures |run.calls| >= 1 && run.calls[0] == FindByEmailCall(command.email)
    ensures WritesOnlyLast(run.calls) && |run.calls| <= 2
    ensures run.outcome == Fail(UserEmailAlreadyExists) <==> exists id | id in t :: t[id].email == command.email
    ensures run.outcome == Fail(UserEmailAlreadyExists) ==> run.calls == [FindByEmailCall(command.email)] && run.table == t
    ensures |run.calls| == 2 <==> FindByEmailIn(t, command.email) == None
    ensures |run.calls| == 2 ==>
      && run.calls[1] == CreateCall(UserEntity.Create(newId, command.email, command.passwordHash, command.name))
      && run.outcome == Propagate(CreateIn(t, down, run.calls[1].user).outcome)
    ensures run.outcome == Pass <==> !down && newId !in t && FindByEmailIn(t, command.email) == None
    ensures run.outcome == Pass ==>
      && FindByIdIn(run.table, newId).Some?
      && var u := FindByIdIn(run.table, newId).value;
         u.email == command.email && u.passwordHash == command.passwordHash && u.name == command.name
         && u.createdAt == Js.Null && u.updatedAt == Js.Null && !u.IsDeleted()
    ensures forall id | id != newId :: FindByIdIn(run.table, id) == FindByIdIn(t, id)
    ensures run.outcome.Fail? ==> run.table == t
    ensures WellFormed(run.table)
  {
    if FindByEmailIn(t, command.email).Some? then
      UserRun(Fail(UserEmailAlreadyExists), [FindByEmailCall(command.email)], t)
    else
      var user := UserEntity.Create(newId, command.email, command.passwordHash, command.name);
      var w := CreateIn(t, down, user);
      UserRun(Propagate(w.outcome), [FindByEmailCall(command.email), CreateCall(user)], w.table)
  }

  /** Registering twice with one e-mail: the second attempt is refused and changes nothing. */
  lemma {:induction false} SecondRegistrationRefused(t: UserTable, c1: RegistUserCommand, id1: string,
                                                      c2: RegistUserCommand, id2: string)
    requires WellFormed(t)
    requires RegistUserRun(t, false, c1, id1).outcome == Pass
    requires c2.email == c1.email
    ensures var t1 := RegistUserRun(t, false, c1, id1).table;
      RegistUserRun(t1, false, c2, id2) == UserRun(Fail(UserEmailAlreadyExists), [FindByEmailCall(c2.email)], t1)
  {
    var t1 := RegistUserRun(t, false, c1, id1).table;
    assert id1 in t1 && t1[id1].email == c2.email;
  }

  class RegistUserUseCase {
    const userRepository: UserRepository

    constructor (userRepository: UserRepository)
      ensures this.userRepository == userRepository
    {
      this.userRepository := userRepository;
    }

    /** `execute(command)`; `newId` is the value `ulid()` returns. */
    method Execute(command: RegistUserCommand, newId: string) returns (r: Outcome<UseCaseError>)
      requires userRepository.Valid()
      modifies userRepository`rows, userRepository`calls
      ensures userRepository.Valid()
      ensures var run := RegistUserRun(old(userRepository.rows), userRepository.storeDown, command, newId);
        && r == run.outcome
        && userRepository.rows == run.table
        && userRepository.calls == old(userRepository.calls) + run.calls
    {
      var existing := userRepository.FindByEmail(command.email);
      if existing.Some? {
        return Fail(UserEmailAlreadyExists);
      }
      var user := UserEntity.Create(newId, command.email, command.passwordHash, command.name);
      var written := userRepository.Create(user);
      r := Propagate(written);
    }
  }
}
