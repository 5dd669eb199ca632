/** The `Memo` entity: an immutable record whose title must not be blank. */
module MemoEntity {
  import opened Wrappers
  import opened Js

  /** The message of the `Error` thrown for a blank title. */
  const TitleRequired: string := "タイトルは必須です"

  /**
   * The guard `!title || title.trim().length === 0`: it rejects exactly the
   * titles made only of white space, "" included.
   */
  function TitleMissing(title: string): (missing: bool)
    ensures missing <==> AllWs(title)
  {
    |title| == 0 || |Trim(title)| == 0
  }

  datatype Memo = Memo(
    id: string,
    userId: string,
    title: string,
    content: string,
    createdAt: Stamp,
    updatedAt: Stamp)
  {
    /**
     * `memo.update(title, content)`: a new memo with the given title and content
     * and this memo's identity and timestamps; the receiver is a value and stays as it is.
     */
    function Update(title: string, content: string): (r: Result<Memo, string>)
      ensures r.Failure? <==> AllWs(title)
      ensures r.Failure? ==> r.error == TitleRequired
      ensures r.Success? ==>
        && r.value.title == title && r.value.content == content
        && r.value.id == id && r.value.userId == userId
        && r.value.createdAt == createdAt && r.value.updatedAt == updatedAt
    {
      if TitleMissing(title) then Failure(TitleRequired)
      else Success(Memo(id, userId, title, content, createdAt, updatedAt))
    }
  }

  /**
   * `Memo.create`: fails with "タイトルは必須です" exactly when the title is blank;
   * otherwise keeps every argument verbatim (the title untrimmed) and leaves both
   * timestamps null.
   */
  function Create(id: string, userId: string, title: string, content: string): (r: Result<Memo, string>)
    ensures r.Failure? <==> AllWs(title)
    ensures r.Failure? ==> r.error == TitleRequired
    ensures r.Success? ==>
      && r.value.id == id && r.value.userId == userId
      && r.value.title == title && r.value.content == content
      && r.value.createdAt == Null && r.value.updatedAt == Null
  {
    if TitleMissing(title) then Failure(TitleRequired)
    else Success(Memo(id, userId, title, content, Null, Null))
  }

  /** `Memo.from`: rebuilds a stored memo without validating anything. */
  function From(id: string, userId: string, title: string, content: string,
                createdAt: int, updatedAt: int): (m: Memo)
    ensures m.id == id && m.userId == userId && m.title == title && m.content == content
    ensures m.createdAt == At(createdAt) && m.updatedAt == At(updatedAt)
  {
    Memo(id, userId, title, content, At(createdAt), At(updatedAt))
  }

  /** `from` accepts what `create` refuses: a stored memo may carry a blank title. */
  lemma FromSkipsValidation(id: string, userId: string, title: string, content: string,
                            createdAt: int, updatedAt: int)
    requires AllWs(title)
    ensures Create(id, userId, title, content).Failure?
    ensures From(id, userId, title, content, createdAt, updatedAt).title == title
  {
  }

  /** Updating never changes identity or ownership, whatever title is tried. */
  lemma UpdateKeepsIdentity(m: Memo, title: string, content: string)
    ensures Create(m.id, m.userId, title, content).Success? <==> m.Update(title, content).Success?
    ensures m.Update(title, content).Success? ==>
      m.Update(title, content).value.id == m.id && m.Update(title, content).value.userId == m.userId
  {
  }
}
