/**
 * `PrismaUserRepository`: the database adapter for users. It upserts by id,
 * turns every store failure of `save` into a persistence error, classifies the
 * failures of `delete` by the store's error code, and maps found rows to `User`s.
 */
module PrismaUserRepo {
  import opened Wrappers
  import opened Js
  import opened RepositoryErrors
  import opened UserEntity

  /** A row of the `user` table as the store returns it. */
  datatype UserRecord = UserRecord(
    id: string,
    email: string,
    passwordHash: string,
    name: string,
    createdAt: int,
    updatedAt: int,
    deletedAt: Option<int>)

  /** What the store client throws: a known request error with its code, or any other failure. */
  datatype StoreError = KnownRequest(code: string) | OtherFailure

  /** The store's code for "the record to update or delete does not exist". */
  const RecordNotFound: string := "P2025"
  /** The store's code for "a unique constraint failed". */
  const UniqueViolation: string := "P2002"

  const SaveFailedMessage: string := "ユーザーの保存に失敗しました。"
  const UserNotFoundMessage: string := "ユーザーが見つかりません"
  const DeleteFailedMessage: string := "ユーザーの削除に失敗しました"

  /** An error the adapter throws: its kind, its message and the store error it caught. */
  datatype Raised = Raised(error: RepositoryError, message: string, cause: StoreError)

  type RecordTable = map<string, UserRecord>

  /** Rows are keyed by id and the e-mail column is unique. */
  ghost predicate WellFormed(t: RecordTable) {
    && (forall id | id in t :: t[id].id == id)
    && (forall a, b | a in t && b in t && t[a].email == t[b].email :: a == b)
  }

  predicate EmailTakenByOther(t: RecordTable, email: string, id: string) {
    exists other | other in t :: other != id && t[other].email == email
  }

  /** What a store operation threw, if anything, and the table it left behind. */
  datatype StoreWrite = StoreWrite(failure: Option<StoreError>, table: RecordTable)

  /**
   * The store's `upsert` keyed by id with the adapter's `create` and `update`
   * payloads: an absent id inserts id, e-mail, hash and name, the column defaults
   * supplying the rest (`now` for both dates, no deletion date); a present id
   * overwrites e-mail, hash and name only. An e-mail held by another row fails
   * the unique constraint.
   */
  function UpsertIn(t: RecordTable, user: User, now: int): (w: StoreWrite)
    ensures w.failure == Some(KnownRequest(UniqueViolation)) <==> EmailTakenByOther(t, user.email, user.id)
    ensures w.failure.None? <==> !EmailTakenByOther(t, user.email, user.id)
    ensures w.failure.Some? ==> w.table == t
    ensures w.failure.None? ==> user.id in w.table
    ensures forall id | id != user.id :: (id in w.table <==> id in t) && (id in t ==> w.table[id] == t[id])
    ensures WellFormed(t) ==> WellFormed(w.table)
  {
    if EmailTakenByOther(t, user.email, user.id) then
      StoreWrite(Some(KnownRequest(UniqueViolation)), t)
    else if user.id in t then
      var row := t[user.id];
      StoreWrite(None, t[user.id := row.(email := user.email, passwordHash := user.passwordHash, name := user.name)])
    else
      StoreWrite(None, t[user.id := UserRecord(user.id, user.email, user.passwordHash, user.name, now, now, None)])
  }

  /** The store's `delete` by id: a missing row fails with code P2025. */
  function DeleteRowIn(t: RecordTable, id: string): (w: StoreWrite)
    ensures w.failure == Some(KnownRequest(RecordNotFound)) <==> id !in t
    ensures w.failure.None? <==> id in t
    ensures w.failure.Some? ==> w.table == t
    ensures w.failure.None? ==> w.table == t - {id}
  {
    if id !in t then StoreWrite(Some(KnownRequest(RecordNotFound)), t) else StoreWrite(None, t - {id})
  }

  /** The `catch` of `save`: every failure becomes a persistence error carrying its cause. */
  function ClassifySaveFailure(e: StoreError): (r: Raised)
    ensures r.error == Persistence && r.cause == e
    ensures r.message == SaveFailedMessage
  {
    Raised(Persistence, SaveFailedMessage, e)
  }

  /**
   * The `catch` of `delete`: a known request error with code P2025 becomes a
   * not-found error, anything else a persistence error; the cause is kept.
   */
  function ClassifyDeleteFailure(e: StoreError): (r: Raised)
    ensures r.error == NotFound <==> e == KnownRequest(RecordNotFound)
    ensures r.error == Persistence <==> e != KnownRequest(RecordNotFound)
    ensures r.error != Conflict
    ensures r.cause == e
    ensures r.message == (if r.error == NotFound then UserNotFoundMessage else DeleteFailedMessage)
  {
    if e.KnownRequest? && e.code == RecordNotFound then Raised(NotFound, UserNotFoundMessage, e)
    else Raised(Persistence, DeleteFailedMessage, e)
  }

  /** What an adapter write resolved or rejected with, and the table it left behind. */
  datatype AdapterWrite = AdapterWrite(outcome: Outcome<Raised>, table: RecordTable)

  /**
   * `save(user)`: the upsert; `fault` is a failure the store raises for reasons
   * outside the table (a lost connection, say). Any failure rejects with a
   * persistence error and changes nothing; success writes e-mail, hash and name
   * and never a date.
   */
  function SaveIn(t: RecordTable, user: User, now: int, fault: Option<StoreError>): (w: AdapterWrite)
    ensures w.outcome.Fail? ==> w.outcome.error.error == Persistence && w.table == t
    ensures w.outcome.Fail? && fault.None? ==> w.outcome.error.cause == KnownRequest(UniqueViolation)
    ensures w.outcome == Pass <==> fault.None? && !EmailTakenByOther(t, user.email, user.id)
    ensures w.outcome == Pass ==>
      && user.id in w.table
      && w.table[user.id].email == user.email
      && w.table[user.id].passwordHash == user.passwordHash
      && w.table[user.id].name == user.name
    ensures w.outcome == Pass && user.id in t ==>
      && w.table[user.id].createdAt == t[user.id].createdAt
      && w.table[user.id].updatedAt == t[user.id].updatedAt
      && w.table[user.id].deletedAt == t[user.id].deletedAt
    ensures w.outcome == Pass && user.id !in t ==> w.table[user.id].deletedAt == None
    ensures forall id | id != user.id :: (id in w.table <==> id in t) && (id in t ==> w.table[id] == t[id])
    ensures WellFormed(t) ==> WellFormed(w.table)
  {
    if fault.Some? then AdapterWrite(Fail(ClassifySaveFailure(fault.value)), t)
    else
      var s := UpsertIn(t, user, now);
      if s.failure.Some? then AdapterWrite(Fail(ClassifySaveFailure(s.failure.value)), t)
      else AdapterWrite(Pass, s.table)
  }

  /**
   * `delete(id)`: removes the row. A missing row rejects with a not-found error,
   * any other failure (`fault`) with a persistence error; a rejection changes nothing.
   */
  function DeleteIn(t: RecordTable, id: string, fault: Option<StoreError>): (w: AdapterWrite)
    ensures w.outcome == Pass <==> fault.None? && id in t
    ensures fault.None? && id !in t ==> w.outcome == Fail(Raised(NotFound, UserNotFoundMessage, KnownRequest(RecordNotFound)))
    ensures fault.Some? ==> w.outcome == Fail(ClassifyDeleteFailure(fault.value))
    ensures w.outcome.Fail? ==> w.table == t && w.outcome.error.error != Conflict
    ensures w.outcome == Pass ==> id !in w.table && w.table == t - {id}
    ensures WellFormed(t) ==> WellFormed(w.table)
  {
    var s := if fault.Some? then StoreWrite(fault, t) else DeleteRowIn(t, id);
    if s.failure.Some? then AdapterWrite(Fail(ClassifyDeleteFailure(s.failure.value)), t)
    else AdapterWrite(Pass, s.table)
  }

  /**
   * The mapping `findById` and `findByEmail` apply to a found row, as written:
   * `User.from` receives six arguments, so `deletedAt` is `undefined`.
   */
  function ToUserAsWritten(r: UserRecord): (u: User)
    ensures u.id == r.id && u.email == r.email && u.passwordHash == r.passwordHash && u.name == r.name
    ensures u.createdAt == At(r.createdAt) && u.updatedAt == At(r.updatedAt)
    ensures u.deletedAt == Undefined
  {
    UserEntity.From(r.id, r.email, r.passwordHash, r.name, At(r.createdAt), At(r.updatedAt), Undefined)
  }

  /**
   * As written, every loaded user reports `isDeleted()`, live rows included,
   * since `undefined !== null`.
   */
  lemma AsWrittenLiveRowLoadsDeleted(r: UserRecord)
    requires r.deletedAt == None
    ensures ToUserAsWritten(r).IsDeleted()
  {
  }

  /** The mapping with the row's deletion date passed on: a row loads deleted exactly when it is. */
  function ToUser(r: UserRecord): (u: User)
    ensures u.id == r.id && u.email == r.email && u.passwordHash == r.passwordHash && u.name == r.name
    ensures u.createdAt == At(r.createdAt) && u.updatedAt == At(r.updatedAt)
    ensures u.IsDeleted() <==> r.deletedAt.Some?
    ensures r.deletedAt.Some? ==> u.deletedAt == At(r.deletedAt.value)
  {
    var deletedAt := match r.deletedAt
      case None => Null
      case Some(d) => At(d);
    UserEntity.From(r.id, r.email, r.passwordHash, r.name, At(r.createdAt), At(r.updatedAt), deletedAt)
  }

  /**
   * `findById(id)` as written: null when no row matches, else the row mapped by
   * `ToUserAsWritten`, so every user it returns reports `isDeleted()`.
   */
  function FindByIdIn(t: RecordTable, id: string): (r: Option<User>)
    ensures r == None <==> id !in t
    ensures r.Some? ==>
      && r.value.id == t[id].id && r.value.email == t[id].email
      && r.value.passwordHash == t[id].passwordHash && r.value.name == t[id].name
      && r.value.deletedAt == Undefined && r.value.IsDeleted()
  {
    if id in t then Some(ToUserAsWritten(t[id])) else None
  }

  /** `findByEmail(email)` as written: null when no row holds the e-mail, else that row, loaded deleted. */
  function FindByEmailIn(t: RecordTable, email: string): (r: Option<User>)
    requires WellFormed(t)
    ensures r == None <==> forall id | id in t :: t[id].email != email
    ensures r.Some? ==> r.value.email == email && r.value.IsDeleted() && FindByIdIn(t, r.value.id) == r
  {
    if exists id | id in t :: t[id].email == email then
      var id :| id in t && t[id].email == email;
      Some(ToUserAsWritten(t[id]))
    else
      None
  }

  /** `findById(id)` with the corrected mapping: a user loads deleted exactly when its row is. */
  function FindByIdCorrectedIn(t: RecordTable, id: string): (r: Option<User>)
    ensures r == None <==> id !in t
    ensures r.Some? ==>
      && r.value.id == t[id].id && r.value.email == t[id].email
      && r.value.passwordHash == t[id].passwordHash && r.value.name == t[id].name
      && (r.value.IsDeleted() <==> t[id].deletedAt.Some?)
  {
    if id in t then Some(ToUser(t[id])) else None
  }

  /** `findByEmail(email)` with the corrected mapping. */
  function FindByEmailCorrectedIn(t: RecordTable, email: string): (r: Option<User>)
    requires WellFormed(t)
    ensures r == None <==> forall id | id in t :: t[id].email != email
    ensures r.Some? ==> r.value.email == email && FindByIdCorrectedIn(t, r.value.id) == r
  {
    if exists id | id in t :: t[id].email == email then
      var id :| id in t && t[id].email == email;
      Some(ToUser(t[id]))
    else
      None
  }

  /**
   * `save` never writes the deletion date: saving the soft-deleted version of a
   * live user succeeds, yet the stored row still has no deletion date.
   */
  lemma SaveDropsSoftDelete(t: RecordTable, id: string, deletedAt: int, now: int)
    requires WellFormed(t) && id in t && t[id].deletedAt == None
    ensures var w := SaveIn(t, ToUser(t[id]).Delete(deletedAt), now, None);
      && w.outcome == Pass
      && id in w.table
      && w.table[id].deletedAt == None
  {
    var u := ToUser(t[id]);
    assert !EmailTakenByOther(t, u.Delete(deletedAt).email, id);
  }

  /** The same through the corrected lookup: the user soft-deleted and saved loads as not deleted. */
  lemma SaveDropsSoftDeleteCorrectedLookup(t: RecordTable, id: string, deletedAt: int, now: int)
    requires WellFormed(t) && id in t && t[id].deletedAt == None
    ensures var w := SaveIn(t, ToUser(t[id]).Delete(deletedAt), now, None);
      && w.outcome == Pass
      && FindByIdCorrectedIn(w.table, id).Some?
      && !FindByIdCorrectedIn(w.table, id).value.IsDeleted()
  {
    SaveDropsSoftDelete(t, id, deletedAt, now);
  }

  /**
   * Saving a user and loading it back by id returns its id, e-mail, hash and
   * name; as written it also loads deleted.
   */
  lemma SaveThenFind(t: RecordTable, user: User, now: int)
    requires WellFormed(t)
    requires !EmailTakenByOther(t, user.email, user.id)
    ensures var w := SaveIn(t, user, now, None);
      && w.outcome == Pass
      && FindByIdIn(w.table, user.id).Some?
      && FindByIdIn(w.table, user.id).value.id == user.id
      && FindByIdIn(w.table, user.id).value.email == user.email
      && FindByIdIn(w.table, user.id).value.passwordHash == user.passwordHash
      && FindByIdIn(w.table, user.id).value.name == user.name
      && FindByIdIn(w.table, user.id).value.IsDeleted()
  {
  }

  class PrismaUserRepository {
    var table: RecordTable

    ghost predicate Valid()
      reads this
    {
      WellFormed(table)
    }

    constructor ()
      ensures Valid() && table == map[]
    {
      table := map[];
    }

    /** `save(user)`; `now` is the store's clock for the date columns' defaults. */
    method Save(user: User, now: int, fault: Option<StoreError>) returns (r: Outcome<Raised>)
      requires Valid()
      modifies this
      ensures Valid()
      ensures AdapterWrite(r, table) == SaveIn(old(table), user, now, fault)
    {
      var w := SaveIn(table, user, now, fault);
      table, r := w.table, w.outcome;
    }

    /** `findById(id)` as written. */
    function FindById(id: string): (r: Option<User>)
      reads this
      ensures r == None <==> id !in table
      ensures r.Some? ==>
        && r.value.id == table[id].id && r.value.email == table[id].email
        && r.value.passwordHash == table[id].passwordHash && r.value.name == table[id].name
        && r.value.IsDeleted()
    {
      FindByIdIn(table, id)
    }

    /** `findByEmail(email)` as written. */
    function FindByEmail(email: string): (r: Option<User>)
      requires Valid()
      reads this
      ensures r == None <==> forall id | id in table :: table[id].email != email
      ensures r.Some? ==> r.value.email == email && r.value.IsDeleted() && FindById(r.value.id) == r
    {
      FindByEmailIn(table, email)
    }

    /** `delete(id)`; `fault` is a store failure other than the missing row. */
    method Delete(id: string, fault: Option<StoreError>) returns (r: Outcome<Raised>)
      requires Valid()
      modifies this
      ensures Valid()
      ensures AdapterWrite(r, table) == DeleteIn(old(table), id, fault)
    {
      var w := DeleteIn(table, id, fault);
      table, r := w.table, w.outcome;
    }
  }
}
