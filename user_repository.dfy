/**
 * The `UserRepository` contract: a table of users keyed by id in which no two
 * rows share an e-mail; writes report not-found or conflict, reads return null.
 */
module UserRepo {
  import opened Wrappers
  import opened RepositoryErrors
  import opened UserEntity
  import opened ApplicationErrors

  type UserTable = map<string, User>

  /** Every row is stored under its own id. */
  ghost predicate KeyedById(t: UserTable) {
    forall id | id in t :: t[id].id == id
  }

  /** The unique constraint on e-mail: no two stored users share one. */
  ghost predicate UniqueEmails(t: UserTable) {
    forall a, b | a in t && b in t && t[a].email == t[b].email :: a == b
  }

  ghost predicate WellFormed(t: UserTable) {
    KeyedById(t) && UniqueEmails(t)
  }

  /** Some row other than `id` holds `email`. */
  predicate EmailTakenByOther(t: UserTable, email: string, id: string) {
    exists other | other in t :: other != id && t[other].email == email
  }

  /** One call a use case makes on the repository, in the order it makes them. */
  datatype UserCall =
    | FindByIdCall(id: string)
    | FindByEmailCall(email: string)
    | CreateCall(user: User)
    | UpdateCall(user: User)
    | DeleteCall(id: string)

  predicate IsWrite(c: UserCall) {
    c.CreateCall? || c.UpdateCall? || c.DeleteCall?
  }

  /** No call but the last one writes: every check comes before the one write. */
  ghost predicate WritesOnlyLast(calls: seq<UserCall>) {
    forall i | 0 <= i < |calls| - 1 :: !IsWrite(calls[i])
  }

  /** What a write reported, and the table it left behind. */
  datatype UserWrite = UserWrite(outcome: Outcome<RepositoryError>, table: UserTable)

  /**
   * One run of a user use case: what `execute` resolved or rejected with, the
   * repository calls it made in order, and the table it left behind.
   */
  datatype UserRun = UserRun(outcome: Outcome<UseCaseError>, calls: seq<UserCall>, table: UserTable)

  /** `findById(id)`: the stored user, or null when there is none. */
  function FindByIdIn(t: UserTable, id: string): (r: Option<User>)
    ensures r == None <==> id !in t
    ensures KeyedById(t) && r.Some? ==> r.value.id == id && r.value in t.Values
  {
    if id in t then Some(t[id]) else None
  }

  /** `findByEmail(email)`: the one user holding the e-mail, deleted or not, or null. */
  function FindByEmailIn(t: UserTable, email: string): (r: Option<User>)
    requires UniqueEmails(t)
    ensures r == None <==> forall id | id in t :: t[id].email != email
    ensures r.Some? ==> r.value.email == email && r.value in t.Values
    ensures KeyedById(t) && r.Some? ==> FindByIdIn(t, r.value.id) == r
  {
    if exists id | id in t :: t[id].email == email then
      var id :| id in t && t[id].email == email;
      Some(t[id])
    else
      None
  }

  /**
   * `create(user)`: inserts a user whose id and e-mail are both new; a taken id or
   * e-mail is a conflict.
   */
  function CreateIn(t: UserTable, down: bool, u: User): (w: UserWrite)
    ensures w.outcome == Pass <==> !down && u.id !in t && !EmailTakenByOther(t, u.email, u.id)
    ensures w.outcome == Fail(Conflict) <==> !down && (u.id in t || EmailTakenByOther(t, u.email, u.id))
    ensures w.outcome == Fail(Persistence) <==> down
    ensures w.outcome.Pass? ==> FindByIdIn(w.table, u.id) == Some(u)
    ensures w.outcome.Fail? ==> w.table == t
    ensures forall id | id != u.id :: FindByIdIn(w.table, id) == FindByIdIn(t, id)
    ensures WellFormed(t) ==> WellFormed(w.table)
  {
    if down then UserWrite(Fail(Persistence), t)
    else if u.id in t || EmailTakenByOther(t, u.email, u.id) then UserWrite(Fail(Conflict), t)
    else UserWrite(Pass, t[u.id := u])
  }

  /**
   * `update(user)`: replaces the row with the user's id; a missing row is not found
   * and an e-mail held by another row is a conflict.
   */
  function UpdateIn(t: UserTable, down: bool, u: User): (w: UserWrite)
    ensures w.outcome == Pass <==> !down && u.id in t && !EmailTakenByOther(t, u.email, u.id)
    ensures w.outcome == Fail(NotFound) <==> !down && u.id !in t
    ensures w.outcome == Fail(Conflict) <==> !down && u.id in t && EmailTakenByOther(t, u.email, u.id)
    ensures w.outcome == Fail(Persistence) <==> down
    ensures w.outcome.Pass? ==> FindByIdIn(w.table, u.id) == Some(u)
    ensures w.outcome.Fail? ==> w.table == t
    ensures forall id | id != u.id :: FindByIdIn(w.table, id) == FindByIdIn(t, id)
    ensures WellFormed(t) ==> WellFormed(w.table)
  {
    if down then UserWrite(Fail(Persistence), t)
    else if u.id !in t then UserWrite(Fail(NotFound), t)
    else if EmailTakenByOther(t, u.email, u.id) then UserWrite(Fail(Conflict), t)
    else UserWrite(Pass, t[u.id := u])
  }

  /** `delete(id)`: removes the row; a missing row is not found. */
  function DeleteIn(t: UserTable, down: bool, id: string): (w: UserWrite)
    ensures w.outcome == Pass <==> !down && id in t
    ensures w.outcome == Fail(NotFound) <==> !down && id !in t
    ensures w.outcome == Fail(Persistence) <==> down
    ensures w.outcome.Pass? ==> FindByIdIn(w.table, id) == None
    ensures w.outcome.Fail? ==> w.table == t
    ensures forall other | other != id :: FindByIdIn(w.table, other) == FindByIdIn(t, other)
    ensures WellFormed(t) ==> WellFormed(w.table)
  {
    if down then UserWrite(Fail(Persistence), t)
    else if id !in t then UserWrite(Fail(NotFound), t)
    else UserWrite(Pass, t - {id})
  }

  /** A created user is found again by id and by e-mail. */
  lemma CreateThenFind(t: UserTable, u: User)
    requires WellFormed(t)
    requires CreateIn(t, false, u).outcome == Pass
    ensures FindByIdIn(CreateIn(t, false, u).table, u.id) == Some(u)
    ensures FindByEmailIn(CreateIn(t, false, u).table, u.email) == Some(u)
  {
  }

  /** Two users with one e-mail: the second create is a conflict and changes nothing. */
  lemma SecondCreateWithSameEmailConflicts(t: UserTable, u1: User, u2: User)
    requires WellFormed(t)
    requires CreateIn(t, false, u1).outcome == Pass
    requires u2.email == u1.email
    ensures CreateIn(CreateIn(t, false, u1).table, false, u2) ==
            UserWrite(Fail(Conflict), CreateIn(t, false, u1).table)
  {
    if u2.id != u1.id {
      assert CreateIn(t, false, u1).table[u1.id].email == u2.email;
    }
  }

  /**
   * An update that keeps the e-mail never conflicts with itself: the stored row
   * takes the new name and hash and keeps its e-mail.
   */
  lemma UpdateKeepingEmail(t: UserTable, u: User, passwordHash: string, name: string)
    requires WellFormed(t)
    requires u.id in t && t[u.id] == u
    ensures var w := UpdateIn(t, false, u.Update(u.email, passwordHash, name));
      && w.outcome == Pass
      && FindByIdIn(w.table, u.id).value.email == u.email
      && FindByIdIn(w.table, u.id).value.passwordHash == passwordHash
      && FindByIdIn(w.table, u.id).value.name == name
  {
  }

  /** A created then deleted user is gone: `findById` returns null. */
  lemma CreateDeleteFind(t: UserTable, u: User)
    requires CreateIn(t, false, u).outcome == Pass
    ensures var c := CreateIn(t, false, u);
      && DeleteIn(c.table, false, u.id).outcome == Pass
      && FindByIdIn(DeleteIn(c.table, false, u.id).table, u.id) == None
  {
  }

  /**
   * The repository as a table in memory. `storeDown` stands for an unreachable
   * store: while it holds, every write rejects with a persistence error.
   */
  class UserRepository {
    var rows: UserTable
    var storeDown: bool
    ghost var calls: seq<UserCall>

    ghost predicate Valid()
      reads this
    {
      WellFormed(rows)
    }

    constructor ()
      ensures Valid() && rows == map[] && !storeDown && calls == []
    {
      rows := map[];
      storeDown := false;
      calls := [];
    }

    method FindById(id: string) returns (r: Option<User>)
      modifies this`calls
      ensures r == FindByIdIn(rows, id)
      ensures calls == old(calls) + [FindByIdCall(id)]
    {
      r := FindByIdIn(rows, id);
      calls := calls + [FindByIdCall(id)];
    }

    method FindByEmail(email: string) returns (r: Option<User>)
      requires Valid()
      modifies this`calls
      ensures r == FindByEmailIn(rows, email)
      ensures calls == old(calls) + [FindByEmailCall(email)]
    {
      r := FindByEmailIn(rows, email);
      calls := calls + [FindByEmailCall(email)];
    }

    method Create(u: User) returns (r: Outcome<RepositoryError>)
      requires Valid()
      modifies this`rows, this`calls
      ensures Valid()
      ensures UserWrite(r, rows) == CreateIn(old(rows), storeDown, u)
      ensures calls == old(calls) + [CreateCall(u)]
    {
      var w := CreateIn(rows, storeDown, u);
      rows, r := w.table, w.outcome;
      calls := calls + [CreateCall(u)];
    }

    method Update(u: User) returns (r: Outcome<RepositoryError>)
      requires Valid()
      modifies this`rows, this`calls
      ensures Valid()
      ensures UserWrite(r, rows) == UpdateIn(old(rows), storeDown, u)
      ensures calls == old(calls) + [UpdateCall(u)]
    {
      var w := UpdateIn(rows, storeDown, u);
      rows, r := w.table, w.outcome;
      calls := calls + [UpdateCall(u)];
    }

    method Delete(id: string) returns (r: Outcome<RepositoryError>)
      requires Valid()
      modifies this`rows, this`calls
      ensures Valid()
      ensures UserWrite(r, rows) == DeleteIn(old(rows), storeDown, id)
      ensures calls == old(calls) + [DeleteCall(id)]
    {
      var w := DeleteIn(rows, storeDown, id);
      rows, r := w.table, w.outcome;
      calls := calls + [DeleteCall(id)];
    }
  }
}
