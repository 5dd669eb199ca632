/**
 * The `User` entity: an immutable record with a nullable `deletedAt` that moves
 * from Active (null) to Deleted (a date) and never back.
 */
module UserEntity {
  import opened Js

  datatype User = User(
    id: string,
    email: string,
    passwordHash: string,
    name: string,
    createdAt: Stamp,
    updatedAt: Stamp,
    deletedAt: Stamp)
  {
    /**
     * `isDeleted()`: `deletedAt !== null`, so only a null date reads as live;
     * a date or an omitted (undefined) one reads as deleted.
     */
    function IsDeleted(): (deleted: bool)
      ensures deleted <==> deletedAt.At? || deletedAt.Undefined?
    {
      deletedAt != Null
    }

    /** `update(email, passwordHash, name)`: replaces the three profile fields only. */
    function Update(email: string, passwordHash: string, name: string): (u: User)
      ensures u.email == email && u.passwordHash == passwordHash && u.name == name
      ensures u.id == id && u.createdAt == createdAt && u.updatedAt == updatedAt
      ensures u.deletedAt == deletedAt
    {
      User(id, email, passwordHash, name, createdAt, updatedAt, deletedAt)
    }

    /** `updateEmail(email)`: the same user with only the e-mail replaced. */
    function UpdateEmail(email: string): (u: User)
      ensures u == this.(email := email)
      ensures u.IsDeleted() == IsDeleted()
    {
      User(id, email, passwordHash, name, createdAt, updatedAt, deletedAt)
    }

    /** `updatePasswordHash(passwordHash)`: the same user with only the hash replaced. */
    function UpdatePasswordHash(passwordHash: string): (u: User)
      ensures u == this.(passwordHash := passwordHash)
      ensures u.IsDeleted() == IsDeleted()
    {
      User(id, email, passwordHash, name, createdAt, updatedAt, deletedAt)
    }

    /** `delete()` at clock reading `now`: marks the user deleted and keeps every other field. */
    function Delete(now: int): (u: User)
      ensures u.IsDeleted()
      ensures u == this.(deletedAt := At(now))
    {
      User(id, email, passwordHash, name, createdAt, updatedAt, At(now))
    }
  }

  /** `User.create`: a new user, with every timestamp null and so not deleted. */
  function Create(id: string, email: string, passwordHash: string, name: string): (u: User)
    ensures u.id == id && u.email == email && u.passwordHash == passwordHash && u.name == name
    ensures u.createdAt == Null && u.updatedAt == Null && u.deletedAt == Null
    ensures !u.IsDeleted()
  {
    User(id, email, passwordHash, name, Null, Null, Null)
  }

  /**
   * `User.from`: rebuilds a user from its seven fields unchanged. The parameters are
   * declared `Date`, but nothing checks that at run time, so any `Stamp` may arrive.
   */
  function From(id: string, email: string, passwordHash: string, name: string,
                createdAt: Stamp, updatedAt: Stamp, deletedAt: Stamp): (u: User)
    ensures u.id == id && u.email == email && u.passwordHash == passwordHash && u.name == name
    ensures u.createdAt == createdAt && u.updatedAt == updatedAt && u.deletedAt == deletedAt
    ensures u.IsDeleted() <==> deletedAt != Null
  {
    User(id, email, passwordHash, name, createdAt, updatedAt, deletedAt)
  }

  /** The entity's transitions, one per method that returns a new `User`. */
  datatype UserOp =
    | UpdateOp(email: string, passwordHash: string, name: string)
    | UpdateEmailOp(email: string)
    | UpdatePasswordHashOp(passwordHash: string)
    | DeleteOp(now: int)

  function Apply(u: User, op: UserOp): User {
    match op
    case UpdateOp(e, p, n) => u.Update(e, p, n)
    case UpdateEmailOp(e) => u.UpdateEmail(e)
    case UpdatePasswordHashOp(p) => u.UpdatePasswordHash(p)
    case DeleteOp(now) => u.Delete(now)
  }

  function ApplyAll(u: User, ops: seq<UserOp>): User
    decreases |ops|
  {
    if ops == [] then u else ApplyAll(Apply(u, ops[0]), ops[1..])
  }

  /**
   * Deleted is terminal: whatever the entity's methods are applied afterwards, a
   * deleted user stays deleted and keeps its identity and creation time.
   */
  lemma {:induction false} DeletedIsTerminal(u: User, ops: seq<UserOp>)
    requires u.IsDeleted()
    ensures ApplyAll(u, ops).IsDeleted()
    ensures ApplyAll(u, ops).id == u.id && ApplyAll(u, ops).createdAt == u.createdAt
    decreases |ops|
  {
    if ops != [] {
      DeletedIsTerminal(Apply(u, ops[0]), ops[1..]);
    }
  }

  /**
   * Only `delete` writes `deletedAt`: a run without it leaves `deletedAt` exactly as
   * it was, so an active user stays active.
   */
  lemma {:induction false} OnlyDeleteSetsDeletedAt(u: User, ops: seq<UserOp>)
    requires forall i | 0 <= i < |ops| :: !ops[i].DeleteOp?
    ensures ApplyAll(u, ops).deletedAt == u.deletedAt
    ensures ApplyAll(u, ops).id == u.id
    decreases |ops|
  {
    if ops != [] {
      OnlyDeleteSetsDeletedAt(Apply(u, ops[0]), ops[1..]);
    }
  }
}
