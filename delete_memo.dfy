/**
 * `DeleteMemoUseCase`. As written it checks only that the memo exists before
 * deleting it; `ExecuteAsTested` adds the ownership check its tests expect.
 */
module DeleteMemo {
  import opened Wrappers
  import opened RepositoryErrors
  import opened ApplicationErrors
  import opened MemoEntity
  import opened MemoRepo

  datatype DeleteMemoCommand = DeleteMemoCommand(userId: string, memoId: string)

  /**
   * What `execute` does as written: `findById` first; a missing memo rejects with
   * MemoNotFound and `delete` is not called; otherwise `delete` is called with the
   * same id, after which no memo with that id remains and every other row is as it was.
   */
  function DeleteMemoRun(t: MemoTable, down: bool, command: DeleteMemoCommand): (run: MemoRun)
    ensures |run.calls| >= 1 && run.calls[0] == FindByIdCall(command.memoId)
    ensures WritesOnlyLast(run.calls) && |run.calls| <= 2
    ensures run.outcome == Fail(MemoNotFound(command.memoId)) <==> command.memoId !in t
    ensures command.memoId !in t ==> run.calls == [FindByIdCall(command.memoId)] && run.table == t
    ensures command.memoId in t ==> run.calls == [FindByIdCall(command.memoId), DeleteCall(command.memoId)]
    ensures command.memoId in t ==> run.outcome == (if down then Fail(Repository(Persistence)) else Pass)
    ensures run.outcome == Pass ==> FindByIdIn(run.table, command.memoId) == None
    ensures forall id | id != command.memoId :: FindByIdIn(run.table, id) == FindByIdIn(t, id)
    ensures run.outcome.Fail? ==> run.table == t
    ensures KeyedById(t) ==> KeyedById(run.table)
  {
    match FindByIdIn(t, command.memoId)
    case None => MemoRun(Fail(MemoNotFound(command.memoId)), [FindByIdCall(command.memoId)], t)
    case Some(_) =>
      var w := DeleteIn(t, down, command.memoId);
      MemoRun(Propagate(w.outcome), [FindByIdCall(command.memoId), DeleteCall(command.memoId)], w.table)
  }

  /**
   * What the tests expect of `execute`: as written, but a memo owned by another
   * user rejects with MemoNotOwned before `delete`, and the table is untouched.
   */
  function DeleteMemoAsTestedRun(t: MemoTable, down: bool, command: DeleteMemoCommand): (run: MemoRun)
    ensures |run.calls| >= 1 && run.calls[0] == FindByIdCall(command.memoId)
    ensures WritesOnlyLast(run.calls) && |run.calls| <= 2
    ensures run.outcome == Fail(MemoNotFound(command.memoId)) <==> command.memoId !in t
    ensures run.outcome == Fail(MemoNotOwned(command.memoId, command.userId)) <==>
      command.memoId in t && t[command.memoId].userId != command.userId
    ensures |run.calls| == 2 <==> command.memoId in t && t[command.memoId].userId == command.userId
    ensures |run.calls| == 1 ==> run.table == t
    ensures |run.calls| == 2 ==>
      && run.calls[1] == DeleteCall(command.memoId)
      && run.outcome == (if down then Fail(Repository(Persistence)) else Pass)
    ensures run.outcome == Pass ==> FindByIdIn(run.table, command.memoId) == None
    ensures forall id | id != command.memoId :: FindByIdIn(run.table, id) == FindByIdIn(t, id)
    ensures run.outcome.Fail? ==> run.table == t
    ensures KeyedById(t) ==> KeyedById(run.table)
  {
    match FindByIdIn(t, command.memoId)
    case None => MemoRun(Fail(MemoNotFound(command.memoId)), [FindByIdCall(command.memoId)], t)
    case Some(memo) =>
      if memo.userId != command.userId then
        MemoRun(Fail(MemoNotOwned(command.memoId, command.userId)), [FindByIdCall(command.memoId)], t)
      else
        var w := DeleteIn(t, down, command.memoId);
        MemoRun(Propagate(w.outcome), [FindByIdCall(command.memoId), DeleteCall(command.memoId)], w.table)
  }

  /** Without an ownership check, any user's request deletes any existing memo. */
  lemma AsWrittenAnyoneDeletes(t: MemoTable, command: DeleteMemoCommand)
    requires command.memoId in t && t[command.memoId].userId != command.userId
    ensures DeleteMemoRun(t, false, command).outcome == Pass
    ensures DeleteMemoAsTestedRun(t, false, command).outcome == Fail(MemoNotOwned(command.memoId, command.userId))
  {
  }

  class DeleteMemoUseCase {
    const memoRepository: MemoRepository

    constructor (memoRepository: MemoRepository)
      ensures this.memoRepository == memoRepository
    {
      this.memoRepository := memoRepository;
    }

    /** `execute(command)` as written. */
    method Execute(command: DeleteMemoCommand) returns (r: Outcome<UseCaseError>)
      requires memoRepository.Valid()
      modifies memoRepository`rows, memoRepository`calls
      ensures memoRepository.Valid()
      ensures var run := DeleteMemoRun(old(memoRepository.rows), memoRepository.storeDown, command);
        && r == run.outcome
        && memoRepository.rows == run.table
        && memoRepository.calls == old(memoRepository.calls) + run.calls
    {
      var memo := memoRepository.FindById(command.memoId);
      if memo.None? {
        return Fail(MemoNotFound(command.memoId));
      }
      var written := memoRepository.Delete(command.memoId);
      r := Propagate(written);
    }

    /** `execute(command)` as its tests expect it to behave. */
    method ExecuteAsTested(command: DeleteMemoCommand) returns (r: Outcome<UseCaseError>)
      requires memoRepository.Valid()
      modifies memoRepository`rows, memoRepository`calls
      ensures memoRepository.Valid()
      ensures var run := DeleteMemoAsTestedRun(old(memoRepository.rows), memoRepository.storeDown, command);
        && r == run.outcome
        && memoRepository.rows == run.table
        && memoRepository.calls == old(memoRepository.calls) + run.calls
    {
      var memo := memoRepository.FindById(command.memoId);
      if memo.None? {
        return Fail(MemoNotFound(command.memoId));
      }
      if memo.value.userId != command.userId {
        return Fail(MemoNotOwned(command.memoId, command.userId));
      }
      var written := memoRepository.Delete(command.memoId);
      r := Propagate(written);
    }
  }

  /**
   * The ownership scenario of the use case's test, run as written: "other-user-456"
   * deletes "memo-789" owned by "owner-123", and the memo is gone.
   */
  method OtherUserDeletesMemo() returns (remaining: bool)
    ensures !remaining
  {
    var repository := new MemoRepository();
    var memo := MemoEntity.From("memo-789", "owner-123", "Test Title", "Test Content", 0, 0);
    var created := repository.Create(memo);
    var useCase := new DeleteMemoUseCase(repository);
    var r := useCase.Execute(DeleteMemoCommand("other-user-456", "memo-789"));
    assert r == Pass;
    remaining := "memo-789" in repository.rows;
  }
}
