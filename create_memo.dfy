/** `CreateMemoUseCase`: validate through `Memo.create`, then one `create`. */
module CreateMemo {
  import opened Wrappers
  import opened Js
  import opened RepositoryErrors
  import opened ApplicationErrors
  import opened MemoEntity
  import opened MemoRepo

  datatype CreateMemoCommand = CreateMemoCommand(userId: string, title: string, content: string)

  /**
   * What `execute` does against table `t`, given the id `ulid()` returns. A blank
   * title rejects before any repository call; otherwise the single call is a
   * `create` of a memo with the fresh id and the command's fields, and whatever it
   * rejects with is passed on unchanged.
   */
  function CreateMemoRun(t: MemoTable, down: bool, command: CreateMemoCommand, newId: string): (run: MemoRun)
    ensures run.outcome == Fail(Validation(TitleRequired)) <==> AllWs(command.title)
    ensures AllWs(command.title) ==> run.calls == [] && run.table == t
    ensures !AllWs(command.title) ==>
      && |run.calls| == 1 && run.calls[0].CreateCall?
      && run.calls[0].memo.id == newId
      && run.calls[0].memo.userId == command.userId
      && run.calls[0].memo.title == command.title
      && run.calls[0].memo.content == command.content
      && run.outcome == Propagate(CreateIn(t, down, run.calls[0].memo).outcome)
    ensures run.outcome == Pass <==> !AllWs(command.title) && !down && newId !in t
    ensures run.outcome == Pass ==>
      && FindByIdIn(run.table, newId).Some?
      && FindByIdIn(run.table, newId).value.userId == command.userId
      && FindByIdIn(run.table, newId).value.title == command.title
      && FindByIdIn(run.table, newId).value.content == command.content
    ensures forall id | id != newId :: FindByIdIn(run.table, id) == FindByIdIn(t, id)
    ensures run.outcome.Fail? ==> run.table == t
    ensures KeyedById(t) ==> KeyedById(run.table)
  {
    match MemoEntity.Create(newId, command.userId, command.title, command.content)
    case Failure(message) => MemoRun(Fail(Validation(message)), [], t)
    case Success(memo) =>
      var w := CreateIn(t, down, memo);
      MemoRun(Propagate(w.outcome), [CreateCall(memo)], w.table)
  }

  /** The id comes from the generator, never from the command: a colliding id is a conflict. */
  lemma GeneratedIdCollisionIsConflict(t: MemoTable, command: CreateMemoCommand, newId: string)
    requires !AllWs(command.title) && newId in t
    ensures CreateMemoRun(t, false, command, newId).outcome == Fail(Repository(Conflict))
    ensures CreateMemoRun(t, false, command, newId).table == t
  {
  }

  class CreateMemoUseCase {
    const memoRepository: MemoRepository

    constructor (memoRepository: MemoRepository)
      ensures this.memoRepository == memoRepository
    {
      this.memoRepository := memoRepository;
    }

    /** `execute(command)`; `newId` is the value `ulid()` returns. */
    method Execute(command: CreateMemoCommand, newId: string) returns (r: Outcome<UseCaseError>)
      requires memoRepository.Valid()
      modifies memoRepository`rows, memoRepository`calls
      ensures memoRepository.Valid()
      ensures var run := CreateMemoRun(old(memoRepository.rows), memoRepository.storeDown, command, newId);
        && r == run.outcome
        && memoRepository.rows == run.table
        && memoRepository.calls == old(memoRepository.calls) + run.calls
    {
      var created := MemoEntity.Create(newId, command.userId, command.title, command.content);
      if created.Failure? {
        return Fail(Validation(created.error));
      }
      var written := memoRepository.Create(created.value);
      r := Propagate(written);
    }
  }
}
