/** internal/repository/comment_repository.go: one method per statement. The fault arguments say
    what the database driver does to the call. */
module Repository {
  import opened Wrappers
  import opened Comments
  import opened Listing
  import Pagination

  /** `scan` is the position of the row that fails to scan, if the page reaches it. */
  datatype QueryFault = QueryFault(count: bool, select: bool, scan: int)

  /** What a query returns, or nothing if any of its steps fails: COUNT finds table `t` and SELECT
      finds `later`, since other requests may write in between. */
  function QueryResult(t: Table, later: Table, q: Query, tie: int -> int, page: int, perPage: int, f: QueryFault)
    : Result<(seq<Comment>, nat)>
  {
    var rows := Pagination.PageOf(Select(later, q, tie), page, perPage);
    if f.count || f.select || 0 <= f.scan < |rows| then Err else Ok((rows, Count(t, q)))
  }

  class CommentRepository {
    var db: Table

    constructor ()
      ensures db == EMPTY
    {
      db := EMPTY;
    }

    method Insert(draft: Comment, at: int, f: Fault) returns (r: Result<int>)
      modifies this
      ensures var (after, ok) := Exec(old(db), Write.Insert(draft, at), f);
              db == after && r == if ok then Ok(after.lastId) else Err
    {
      if f.Lost? {
        return Err;
      }
      var id := db.lastId + 1;
      var row := draft.(id := id, displayId := "", createdAt := at, updatedAt := at);
      db := Table(db.rows[id := row], id);
      if f.Unreported? {
        return Err;
      }
      return Ok(id);
    }

    method UpdateDisplayID(id: int, displayId: string, at: int, f: Fault) returns (ok: bool)
      modifies this
      ensures (db, ok) == Exec(old(db), Name(id, displayId, at), f)
    {
      if f.Lost? {
        return false;
      }
      var affected := if id in db.rows then 1 else 0;
      if affected == 1 {
        db := db.(rows := db.rows[id := db.rows[id].(displayId := displayId, updatedAt := at)]);
      }
      return !f.Unreported? && affected != 0;
    }

    method UpdateApproved(id: int, approved: bool, at: int, f: Fault) returns (ok: bool)
      modifies this
      ensures (db, ok) == Exec(old(db), Approve(id, approved, at), f)
    {
      if f.Lost? {
        return false;
      }
      var affected := if id in db.rows then 1 else 0;
      if affected == 1 {
        db := db.(rows := db.rows[id := db.rows[id].(approved := approved, updatedAt := at)]);
      }
      return !f.Unreported? && affected != 0;
    }

    method Delete(id: int, f: Fault) returns (ok: bool)
      modifies this
      ensures (db, ok) == Exec(old(db), Remove(id), f)
    {
      if f.Lost? {
        return false;
      }
      var affected := if id in db.rows then 1 else 0;
      if affected == 1 {
        db := db.(rows := db.rows - {id});
      }
      return !f.Unreported? && affected != 0;
    }

    method FindApproved(postId: string, ascending: bool, page: int, perPage: int, later: Table, tie: int -> int,
                        f: QueryFault)
      returns (r: Result<(seq<Comment>, nat)>)
      ensures r == QueryResult(db, later, Query(true, postId, ascending), tie, page, perPage, f)
    {
      r := RunQuery(Query(true, postId, ascending), page, perPage, later, tie, f);
    }

    method FindAll(postId: string, ascending: bool, page: int, perPage: int, later: Table, tie: int -> int,
                   f: QueryFault)
      returns (r: Result<(seq<Comment>, nat)>)
      ensures r == QueryResult(db, later, Query(false, postId, ascending), tie, page, perPage, f)
    {
      r := RunQuery(Query(false, postId, ascending), page, perPage, later, tie, f);
    }

    /** The part FindApproved and FindAll share: count, select, then scan row by row. `later` is the
        table once other requests have written what they write between the two statements. */
    method RunQuery(q: Query, page: int, perPage: int, later: Table, tie: int -> int, f: QueryFault)
      returns (r: Result<(seq<Comment>, nat)>)
      ensures r == QueryResult(db, later, q, tie, page, perPage, f)
    {
      if f.count {
        return Err;
      }
      var total := Count(db, q);
      var offset := Pagination.Offset(page, perPage);
      if f.select {
        return Err;
      }
      var cursor := Pagination.Slice(Select(later, q, tie), perPage, offset);
      var comments: seq<Comment> := [];
      for i := 0 to |cursor|
        invariant comments == cursor[..i]
        invariant !(0 <= f.scan < i)
      {
        if i == f.scan {
          return Err;
        }
        comments := comments + [cursor[i]];
      }
      assert comments == cursor;
      return Ok((comments, total));
    }
  }
}
