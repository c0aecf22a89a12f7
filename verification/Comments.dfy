/** The comments table of migrations/001_create_comments.sql and the statements that
    internal/repository/comment_repository.go runs on it. */
module Comments {
  import opened Wrappers

  datatype Comment = Comment(id: int, displayId: string, postId: string, author: string, body: string,
                             approved: bool, ip: string, userAgent: string, captchaVerified: bool,
                             createdAt: int, updatedAt: int)

  /** `lastId` is the AUTOINCREMENT counter: the largest id ever given out. */
  datatype Table = Table(rows: map<int, Comment>, lastId: nat) {
    ghost predicate Valid() {
      forall id :: id in rows ==> 1 <= id <= lastId && rows[id].id == id
    }
  }

  const EMPTY := Table(map[], 0)

  /** A statement can fail before it runs (`Lost`) or run and then be reported as failed
      (`Unreported`): the driver's error and the rows-affected error. */
  datatype Fault = Fine | Lost | Unreported

  datatype Write =
    | Insert(draft: Comment, at: int)
    | Name(id: int, displayId: string, at: int)
    | Approve(id: int, approved: bool, at: int)
    | Remove(id: int)

  /** Whether the statement affects a row. */
  predicate Hits(t: Table, w: Write) {
    w.Insert? || w.id in t.rows
  }

  function Perform(t: Table, w: Write): Table {
    if !Hits(t, w) then t
    else
      match w
      case Insert(draft, at) =>
        var id: nat := t.lastId + 1;
        Table(t.rows[id := draft.(id := id, displayId := "", createdAt := at, updatedAt := at)], id)
      case Name(id, displayId, at) => t.(rows := t.rows[id := t.rows[id].(displayId := displayId, updatedAt := at)])
      case Approve(id, approved, at) => t.(rows := t.rows[id := t.rows[id].(approved := approved, updatedAt := at)])
      case Remove(id) => t.(rows := t.rows - {id})
  }

  /** The table after the statement, and whether the caller was told it worked. */
  function Exec(t: Table, w: Write, f: Fault): (Table, bool) {
    (if f.Lost? then t else Perform(t, w), f.Fine? && Hits(t, w))
  }

  function FindByID(t: Table, id: int, fails: bool): Result<Comment> {
    if !fails && id in t.rows then Ok(t.rows[id]) else Err
  }

  function FindByIDApproved(t: Table, id: int, fails: bool): Result<Comment> {
    if !fails && id in t.rows && t.rows[id].approved then Ok(t.rows[id]) else Err
  }

  lemma PerformKeepsValid(t: Table, w: Write)
    requires t.Valid()
    ensures Perform(t, w).Valid()
  {
  }

  /** Ids are only ever given out once: a used id that is gone stays gone, and a new one is larger. */
  lemma PerformKeepsIds(t: Table, w: Write)
    ensures t.lastId <= Perform(t, w).lastId
    ensures forall id :: id <= t.lastId && id !in t.rows ==> id !in Perform(t, w).rows
    ensures w.Insert? ==> Perform(t, w).lastId == t.lastId + 1 && Perform(t, w).lastId in Perform(t, w).rows
  {
  }
}
