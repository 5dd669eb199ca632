/**
 * `UpdateMemoUsecase`. As written it looks the memo up and writes back the memo
 * it loaded, ignoring the command's title, content and user; `ExecuteAsTested`
 * is the behaviour its tests expect (ownership check, then the new title and content).
 */
module UpdateMemo {
  import opened Wrappers
  import opened Js
  import opened RepositoryErrors
  import opened ApplicationErrors
  import opened MemoEntity
  import opened MemoRepo

  datatype UpdateMemoCommand = UpdateMemoCommand(memoId: string, userId: string, title: string, content: string)

  /**
   * What `execute` does as written: `findById` first; a missing memo rejects with
   * MemoNotFound and nothing is written; otherwise the loaded memo itself is passed
   * to `update`, so the table ends as it began.
   */
  function UpdateMemoRun(t: MemoTable, down: bool, command: UpdateMemoCommand): (run: MemoRun)
    requires KeyedById(t)
    ensures |run.calls| >= 1 && run.calls[0] == FindByIdCall(command.memoId)
    ensures WritesOnlyLast(run.calls) && |run.calls| <= 2
    ensures run.outcome == Fail(MemoNotFound(command.memoId)) <==> command.memoId !in t
    ensures command.memoId !in t ==> run.calls == [FindByIdCall(command.memoId)]
    ensures command.memoId in t ==> run.calls == [FindByIdCall(command.memoId), UpdateCall(t[command.memoId])]
    ensures command.memoId in t ==> run.outcome == (if down then Fail(Repository(Persistence)) else Pass)
    ensures run.table == t
  {
    match FindByIdIn(t, command.memoId)
    case None => MemoRun(Fail(MemoNotFound(command.memoId)), [FindByIdCall(command.memoId)], t)
    case Some(memo) =>
      var w := UpdateIn(t, down, memo);
      MemoRun(Propagate(w.outcome), [FindByIdCall(command.memoId), UpdateCall(memo)], w.table)
  }

  /** As written, only the memo id of the command matters: title, content and user are unused. */
  lemma UpdateMemoIgnoresCommandFields(t: MemoTable, down: bool, c1: UpdateMemoCommand, c2: UpdateMemoCommand)
    requires KeyedById(t) && c1.memoId == c2.memoId
    ensures UpdateMemoRun(t, down, c1) == UpdateMemoRun(t, down, c2)
  {
  }

  /**
   * What the tests expect of `execute`: `findById` first; a missing memo is
   * MemoNotFound; a memo of another user is MemoNotOwned; a blank title fails in
   * `memo.update`; each of these writes nothing. Otherwise `update` is called once
   * with the memo carrying the command's title and content.
   */
  function UpdateMemoAsTestedRun(t: MemoTable, down: bool, command: UpdateMemoCommand): (run: MemoRun)
    requires KeyedById(t)
    ensures |run.calls| >= 1 && run.calls[0] == FindByIdCall(command.memoId)
    ensures WritesOnlyLast(run.calls) && |run.calls| <= 2
    ensures run.outcome == Fail(MemoNotFound(command.memoId)) <==> command.memoId !in t
    ensures run.outcome == Fail(MemoNotOwned(command.memoId, command.userId)) <==>
      command.memoId in t && t[command.memoId].userId != command.userId
    ensures |run.calls| == 2 <==>
      command.memoId in t && t[command.memoId].userId == command.userId && !AllWs(command.title)
    ensures command.memoId in t && t[command.memoId].userId == command.userId && AllWs(command.title) ==>
      run.outcome == Fail(Validation(TitleRequired))
    ensures |run.calls| == 1 ==> run.table == t && run.outcome.Fail?
    ensures |run.calls| == 2 ==>
      && run.calls[1] == UpdateCall(t[command.memoId].(title := command.title, content := command.content))
      && run.outcome == (if down then Fail(Repository(Persistence)) else Pass)
    ensures run.outcome == Pass ==>
      && FindByIdIn(run.table, command.memoId).Some?
      && FindByIdIn(run.table, command.memoId).value ==
         t[command.memoId].(title := command.title, content := command.content)
    ensures forall id | id != command.memoId :: FindByIdIn(run.table, id) == FindByIdIn(t, id)
    ensures run.outcome.Fail? ==> run.table == t
    ensures KeyedById(run.table)
  {
    match FindByIdIn(t, command.memoId)
    case None => MemoRun(Fail(MemoNotFound(command.memoId)), [FindByIdCall(command.memoId)], t)
    case Some(memo) =>
      if memo.userId != command.userId then
        MemoRun(Fail(MemoNotOwned(command.memoId, command.userId)), [FindByIdCall(command.memoId)], t)
      else
        var run := UpdateOwnedRun(t, down, command, memo);
        CheckFirst(run.calls);
        run
  }

  /**
   * The tested `execute` once the memo is found and owned: `memo.update` rejects a
   * blank title with its validation error, else its result goes to `update`.
   */
  function UpdateOwnedRun(t: MemoTable, down: bool, command: UpdateMemoCommand, memo: Memo): (run: MemoRun)
    requires KeyedById(t) && command.memoId in t && memo == t[command.memoId]
    ensures 1 <= |run.calls| <= 2 && run.calls[0] == FindByIdCall(command.memoId)
    ensures AllWs(command.title) ==>
      run == MemoRun(Fail(Validation(TitleRequired)), [FindByIdCall(command.memoId)], t)
    ensures !AllWs(command.title) ==>
      && run.calls == [FindByIdCall(command.memoId), UpdateCall(memo.(title := command.title, content := command.content))]
      && run.outcome == (if down then Fail(Repository(Persistence)) else Pass)
    ensures run.outcome == Pass ==>
      FindByIdIn(run.table, command.memoId) == Some(memo.(title := command.title, content := command.content))
    ensures forall id | id != command.memoId :: FindByIdIn(run.table, id) == FindByIdIn(t, id)
    ensures run.outcome.Fail? ==> run.table == t
    ensures KeyedById(run.table)
  {
    match memo.Update(command.title, command.content)
    case Failure(message) => MemoRun(Fail(Validation(message)), [FindByIdCall(command.memoId)], t)
    case Success(updated) =>
      var w := UpdateIn(t, down, updated);
      MemoRun(Propagate(w.outcome), [FindByIdCall(command.memoId), UpdateCall(updated)], w.table)
  }

  class UpdateMemoUsecase {
    const memoRepository: MemoRepository

    constructor (memoRepository: MemoRepository)
      ensures this.memoRepository == memoRepository
    {
      this.memoRepository := memoRepository;
    }

    /** `execute(command)` as written. */
    method Execute(command: UpdateMemoCommand) returns (r: Outcome<UseCaseError>)
      requires memoRepository.Valid()
      modifies memoRepository`rows, memoRepository`calls
      ensures memoRepository.Valid()
      ensures var run := UpdateMemoRun(old(memoRepository.rows), memoRepository.storeDown, command);
        && r == run.outcome
        && memoRepository.rows == run.table
        && memoRepository.calls == old(memoRepository.calls) + run.calls
    {
      var memo := memoRepository.FindById(command.memoId);
      if memo.None? {
        return Fail(MemoNotFound(command.memoId));
      }
      var written := memoRepository.Update(memo.value);
      r := Propagate(written);
    }

    /** `execute(command)` as its tests expect it to behave. */
    method ExecuteAsTested(command: UpdateMemoCommand) returns (r: Outcome<UseCaseError>)
      requires memoRepository.Valid()
      modifies memoRepository`rows, memoRepository`calls
      ensures memoRepository.Valid()
      ensures var run := UpdateMemoAsTestedRun(old(memoRepository.rows), memoRepository.storeDown, command);
        && r == run.outcome
        && memoRepository.rows == run.table
        && memoRepository.calls == old(memoRepository.calls) + run.calls
    {
      ghost var t := memoRepository.rows;
      var memo := memoRepository.FindById(command.memoId);
      if memo.None? {
        assert UpdateMemoAsTestedRun(t, memoRepository.storeDown, command)
          == MemoRun(Fail(MemoNotFound(command.memoId)), [FindByIdCall(command.memoId)], t);
        return Fail(MemoNotFound(command.memoId));
      }
      if memo.value.userId != command.userId {
        assert UpdateMemoAsTestedRun(t, memoRepository.storeDown, command)
          == MemoRun(Fail(MemoNotOwned(command.memoId, command.userId)), [FindByIdCall(command.memoId)], t);
        return Fail(MemoNotOwned(command.memoId, command.userId));
      }
      var updated := memo.value.Update(command.title, command.content);
      if updated.Failure? {
        assert UpdateMemoAsTestedRun(t, memoRepository.storeDown, command)
          == MemoRun(Fail(Validation(updated.error)), [FindByIdCall(command.memoId)], t);
        return Fail(Validation(updated.error));
      }
      var written := memoRepository.Update(updated.value);
      r := Propagate(written);
    }
  }

  /**
   * The scenario of the use case's test, run as written: the stored title stays
   * "Original Title" although the command asks for "Updated Title".
   */
  method UpdateKeepsOriginalTitle() returns (stored: string)
    ensures stored == "Original Title"
  {
    var repository := new MemoRepository();
    var memo := MemoEntity.From("memo-456", "user-123", "Original Title", "Original Content", 0, 0);
    var created := repository.Create(memo);
    var useCase := new UpdateMemoUsecase(repository);
    var r := useCase.Execute(UpdateMemoCommand("memo-456", "user-123", "Updated Title", "Updated Content"));
    assert r == Pass;
    stored := repository.rows["memo-456"].title;
  }
}
