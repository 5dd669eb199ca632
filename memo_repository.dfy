/**
 * The `MemoRepository` contract: a table of memos keyed by id whose writes
 * report not-found or conflict, and whose reads return null for a missing id.
 */
module MemoRepo {
  import opened Wrappers
  import opened RepositoryErrors
  import opened MemoEntity
  import opened ApplicationErrors

  type MemoTable = map<string, Memo>

  /** Every row is stored under its own id. */
  ghost predicate KeyedById(t: MemoTable) {
    forall id | id in t :: t[id].id == id
  }

  /** One call a use case makes on the repository, in the order it makes them. */
  datatype MemoCall =
    | FindByIdCall(id: string)
    | CreateCall(memo: Memo)
    | UpdateCall(memo: Memo)
    | DeleteCall(id: string)

  predicate IsWrite(c: MemoCall) {
    c.CreateCall? || c.UpdateCall? || c.DeleteCall?
  }

  /** No call but the last one writes: every check comes before the one write. */
  ghost predicate WritesOnlyLast(calls: seq<MemoCall>) {
    forall i | 0 <= i < |calls| - 1 :: !IsWrite(calls[i])
  }

  /** A check followed by at most one other call keeps every write last. */
  lemma CheckFirst(calls: seq<MemoCall>)
    requires 1 <= |calls| <= 2 && !IsWrite(calls[0])
    ensures WritesOnlyLast(calls)
  {
  }

  /** What a write reported, and the table it left behind. */
  datatype MemoWrite = MemoWrite(outcome: Outcome<RepositoryError>, table: MemoTable)

  /**
   * One run of a memo use case: what `execute` resolved or rejected with, the
   * repository calls it made in order, and the table it left behind.
   */
  datatype MemoRun = MemoRun(outcome: Outcome<UseCaseError>, calls: seq<MemoCall>, table: MemoTable)

  /** `findById(id)`: the stored memo, or null rather than an error when there is none. */
  function FindByIdIn(t: MemoTable, id: string): (r: Option<Memo>)
    ensures r == None <==> id !in t
    ensures KeyedById(t) && r.Some? ==> r.value.id == id && r.value in t.Values
  {
    if id in t then Some(t[id]) else None
  }

  /** `findByUserId(userId)`: the memos the user owns. */
  function FindByUserIdIn(t: MemoTable, userId: string): (r: set<Memo>)
    ensures forall m | m in r :: m.userId == userId && m in t.Values
    ensures KeyedById(t) ==> forall m | m in r :: FindByIdIn(t, m.id) == Some(m)
    ensures forall id | id in t && t[id].userId == userId :: t[id] in r
  {
    set id | id in t && t[id].userId == userId :: t[id]
  }

  /** `create(memo)`: inserts a memo whose id is new; an id already stored is a conflict. */
  function CreateIn(t: MemoTable, down: bool, m: Memo): (w: MemoWrite)
    ensures w.outcome == Pass <==> !down && m.id !in t
    ensures w.outcome == Fail(Conflict) <==> !down && m.id in t
    ensures w.outcome == Fail(Persistence) <==> down
    ensures w.outcome.Pass? ==> FindByIdIn(w.table, m.id) == Some(m)
    ensures w.outcome.Fail? ==> w.table == t
    ensures forall id | id != m.id :: FindByIdIn(w.table, id) == FindByIdIn(t, id)
    ensures KeyedById(t) ==> KeyedById(w.table)
  {
    if down then MemoWrite(Fail(Persistence), t)
    else if m.id in t then MemoWrite(Fail(Conflict), t)
    else MemoWrite(Pass, t[m.id := m])
  }

  /** `update(memo)`: replaces the row with the memo's id; a missing row is not found. */
  function UpdateIn(t: MemoTable, down: bool, m: Memo): (w: MemoWrite)
    ensures w.outcome == Pass <==> !down && m.id in t
    ensures w.outcome == Fail(NotFound) <==> !down && m.id !in t
    ensures w.outcome == Fail(Persistence) <==> down
    ensures w.outcome.Pass? ==> FindByIdIn(w.table, m.id) == Some(m)
    ensures w.outcome.Fail? ==> w.table == t
    ensures forall id | id != m.id :: FindByIdIn(w.table, id) == FindByIdIn(t, id)
    ensures KeyedById(t) ==> KeyedById(w.table)
  {
    if down then MemoWrite(Fail(Persistence), t)
    else if m.id !in t then MemoWrite(Fail(NotFound), t)
    else MemoWrite(Pass, t[m.id := m])
  }

  /** `delete(id)`: removes the row; a missing row is not found. */
  function DeleteIn(t: MemoTable, down: bool, id: string): (w: MemoWrite)
    ensures w.outcome == Pass <==> !down && id in t
    ensures w.outcome == Fail(NotFound) <==> !down && id !in t
    ensures w.outcome == Fail(Persistence) <==> down
    ensures w.outcome.Pass? ==> FindByIdIn(w.table, id) == None
    ensures w.outcome.Fail? ==> w.table == t
    ensures forall other | other != id :: FindByIdIn(w.table, other) == FindByIdIn(t, other)
    ensures KeyedById(t) ==> KeyedById(w.table)
  {
    if down then MemoWrite(Fail(Persistence), t)
    else if id !in t then MemoWrite(Fail(NotFound), t)
    else MemoWrite(Pass, t - {id})
  }

  /** A created memo is found again, field for field. */
  lemma CreateThenFind(t: MemoTable, m: Memo)
    requires m.id !in t
    ensures FindByIdIn(CreateIn(t, false, m).table, m.id) == Some(m)
  {
  }

  /** Creating twice with one id: the second create is a conflict and changes nothing. */
  lemma CreateTwiceConflicts(t: MemoTable, m1: Memo, m2: Memo)
    requires m1.id !in t && m2.id == m1.id
    ensures CreateIn(CreateIn(t, false, m1).table, false, m2) ==
            MemoWrite(Fail(Conflict), CreateIn(t, false, m1).table)
  {
  }

  /**
   * An update that changes only the title leaves the stored content as it was,
   * and the other way round.
   */
  lemma UpdateReplacesTitleAndContent(t: MemoTable, m: Memo, title: string, content: string)
    requires m.id in t && t[m.id] == m
    requires m.Update(title, content).Success?
    ensures var w := UpdateIn(t, false, m.Update(title, content).value);
      && w.outcome == Pass
      && FindByIdIn(w.table, m.id).value.title == title
      && FindByIdIn(w.table, m.id).value.content == content
      && (content == m.content ==> FindByIdIn(w.table, m.id).value.content == FindByIdIn(t, m.id).value.content)
      && (title == m.title ==> FindByIdIn(w.table, m.id).value.title == FindByIdIn(t, m.id).value.title)
  {
  }

  /** A created then deleted memo is gone: `findById` returns null. */
  lemma CreateDeleteFind(t: MemoTable, m: Memo)
    requires m.id !in t
    ensures var c := CreateIn(t, false, m);
      && DeleteIn(c.table, false, m.id).outcome == Pass
      && FindByIdIn(DeleteIn(c.table, false, m.id).table, m.id) == None
  {
  }

  /**
   * The repository as a table in memory. `storeDown` stands for an unreachable
   * store: while it holds, every write rejects with a persistence error.
   */
  class MemoRepository {
    var rows: MemoTable
    var storeDown: bool
    ghost var calls: seq<MemoCall>

    ghost predicate Valid()
      reads this
    {
      KeyedById(rows)
    }

    constructor ()
      ensures Valid() && rows == map[] && !storeDown && calls == []
    {
      rows := map[];
      storeDown := false;
      calls := [];
    }

    method FindById(id: string) returns (r: Option<Memo>)
      modifies this`calls
      ensures r == FindByIdIn(rows, id)
      ensures calls == old(calls) + [FindByIdCall(id)]
    {
      r := FindByIdIn(rows, id);
      calls := calls + [FindByIdCall(id)];
    }

    method Create(m: Memo) returns (r: Outcome<RepositoryError>)
      requires Valid()
      modifies this`rows, this`calls
      ensures Valid()
      ensures MemoWrite(r, rows) == CreateIn(old(rows), storeDown, m)
      ensures calls == old(calls) + [CreateCall(m)]
    {
      var w := CreateIn(rows, storeDown, m);
      rows, r := w.table, w.outcome;
      calls := calls + [CreateCall(m)];
    }

    method Update(m: Memo) returns (r: Outcome<RepositoryError>)
      requires Valid()
      modifies this`rows, this`calls
      ensures Valid()
      ensures MemoWrite(r, rows) == UpdateIn(old(rows), storeDown, m)
      ensures calls == old(calls) + [UpdateCall(m)]
    {
      var w := UpdateIn(rows, storeDown, m);
      rows, r := w.table, w.outcome;
      calls := calls + [UpdateCall(m)];
    }

    method Delete(id: string) returns (r: Outcome<RepositoryError>)
      requires Valid()
      modifies this`rows, this`calls
      ensures Valid()
      ensures MemoWrite(r, rows) == DeleteIn(old(rows), storeDown, id)
      ensures calls == old(calls) + [DeleteCall(id)]
    {
      var w := DeleteIn(rows, storeDown, id);
      rows, r := w.table, w.outcome;
      calls := calls + [DeleteCall(id)];
    }
  }
}
