/** internal/service/comment_service.go: what each operation does, step by step, and the methods
    that do it. */
module Service {
  import opened Wrappers
  import opened Comments
  import opened Listing
  import opened Repository
  import Pagination
  import Sanitizer

  /** The display-id generator and the text stages are libraries. */
  datatype Env = Env(stages: Sanitizer.Stages, generate: int -> Result<string>)

  datatype Input = Input(postId: string, author: string, body: string, ip: string, userAgent: string)
  datatype Captcha = Passed | Refused | Errored

  /** A mutating request, together with what the clock, the captcha service and the storage do
      while it runs. */
  datatype Op =
    | Create(input: Input, captcha: Captcha, insertAt: int, nameAt: int, insert: Fault, name: Fault, findFails: bool)
    | Toggle(id: int, at: int, firstFindFails: bool, update: Fault, lastFindFails: bool)
    | Delete(id: int, delete: Fault)

  datatype Response = Response(id: int, displayId: string, postId: string, author: string, body: string,
                               approved: bool, createdAt: int)
  datatype ErrorCode = CaptchaFailed | Internal | NotFound
  datatype Reply = Success(response: Response) | Deleted | Failed(code: ErrorCode)

  /** `mapToResponse`: the text is sanitized again. */
  function MapToResponse(env: Env, c: Comment): Response {
    Response(c.id, c.displayId, c.postId, Sanitizer.Sanitize(env.stages, c.author),
             Sanitizer.Sanitize(env.stages, c.body), c.approved, c.createdAt)
  }

  function Draft(env: Env, i: Input): Comment {
    Comment(0, "", i.postId, Sanitizer.Sanitize(env.stages, i.author), Sanitizer.Sanitize(env.stages, i.body),
            false, i.ip, i.userAgent, true, 0, 0)
  }

  // ---- the locked sections, one statement at a time --------------------------------------

  /** Where a request stands. The stages from `Locked` to `Returning` hold the lock. */
  datatype Stage =
    | Verifying | Verified | Waiting
    | Locked | Inserted(id: int) | Named(id: int) | Found(row: Comment) | Read(approved: bool) | Flipped
    | Returning(reply: Reply)
    | Done(reply: Reply)

  /** The SQL write, if any, that the next step of a locked section sends. */
  function Statement(env: Env, op: Op, stage: Stage): Result<(Write, Fault)> {
    match (op, stage)
    case (Create(_, _, _, _, _, _, _), Locked) => Ok((Insert(Draft(env, op.input), op.insertAt), op.insert))
    case (Create(_, _, _, _, _, _, _), Inserted(id)) =>
      (match env.generate(id)
       case Ok(displayId) => Ok((Name(id, displayId, op.nameAt), op.name))
       case Err => Err)
    case (Toggle(_, _, _, _, _), Read(approved)) => Ok((Approve(op.id, approved, op.at), op.update))
    case (Delete(_, _), Locked) => Ok((Remove(op.id), op.delete))
    case _ => Err
  }

  /** One step of a locked section; the next stage depends on what the caller was told. */
  function Advance(env: Env, t: Table, op: Op, stage: Stage): (Table, Stage) {
    var (after, ok) :=
      match Statement(env, op, stage)
      case Ok((w, f)) => Exec(t, w, f)
      case Err => (t, false);
    var next :=
      match (op, stage)
      case (Create(_, _, _, _, _, _, _), Locked) => if ok then Inserted(after.lastId) else Returning(Failed(Internal))
      case (Create(_, _, _, _, _, _, _), Inserted(id)) => if ok then Named(id) else Returning(Failed(Internal))
      case (Create(_, _, _, _, _, _, _), Named(id)) =>
        (match FindByID(t, id, op.findFails)
         case Ok(row) => Found(row)
         case Err => Returning(Failed(Internal)))
      case (Create(_, _, _, _, _, _, _), Found(row)) => Returning(Success(MapToResponse(env, row)))
      case (Toggle(_, _, _, _, _), Locked) =>
        (match FindByID(t, op.id, op.firstFindFails)
         case Ok(row) => Read(!row.approved)
         case Err => Returning(Failed(NotFound)))
      case (Toggle(_, _, _, _, _), Read(_)) => if ok then Flipped else Returning(Failed(Internal))
      case (Toggle(_, _, _, _, _), Flipped) =>
        (match FindByID(t, op.id, op.lastFindFails)
         case Ok(row) => Returning(Success(MapToResponse(env, row)))
         case Err => Returning(Failed(Internal)))
      case (Delete(_, _), Locked) => Returning(if ok then Deleted else Failed(NotFound))
      case _ => Returning(Failed(Internal));
    (after, next)
  }

  function Remaining(stage: Stage): nat {
    match stage
    case Locked => 4
    case Inserted(_) => 3
    case Named(_) => 2
    case Read(_) => 2
    case Found(_) => 1
    case Flipped => 1
    case _ => 0
  }

  /** The rest of a locked section, run without interruption. */
  function Finish(env: Env, t: Table, op: Op, stage: Stage): (Table, Reply)
    decreases Remaining(stage)
  {
    if stage.Returning? then (t, stage.reply)
    else if Remaining(stage) == 0 then (t, Failed(Internal))
    else
      var (after, next) := Advance(env, t, op, stage);
      Finish(env, after, op, next)
  }

  lemma FinishStep(env: Env, t: Table, op: Op, stage: Stage)
    requires !stage.Returning? && Remaining(stage) > 0
    ensures var (after, next) := Advance(env, t, op, stage);
            && Finish(env, t, op, stage) == Finish(env, after, op, next)
            && (next.Returning? ==> Finish(env, t, op, stage) == (after, next.reply))
  {
  }

  /** The whole locked section at once. */
  function Atomic(env: Env, t: Table, op: Op): (Table, Reply) {
    Finish(env, t, op, Locked)
  }

  lemma FinishInsert(env: Env, t: Table, op: Op)
    requires op.Create?
    ensures var (after, ok) := Exec(t, Insert(Draft(env, op.input), op.insertAt), op.insert);
            Atomic(env, t, op) == if ok then Finish(env, after, op, Inserted(after.lastId))
                                  else (after, Failed(Internal))
  {
    FinishStep(env, t, op, Locked);
  }

  lemma FinishName(env: Env, t: Table, op: Op, id: int)
    requires op.Create?
    ensures env.generate(id).Err? ==> Finish(env, t, op, Inserted(id)) == (t, Failed(Internal))
    ensures env.generate(id).Ok? ==>
              var (after, ok) := Exec(t, Name(id, env.generate(id).value, op.nameAt), op.name);
              Finish(env, t, op, Inserted(id)) == if ok then Finish(env, after, op, Named(id))
                                                  else (after, Failed(Internal))
  {
    FinishStep(env, t, op, Inserted(id));
  }

  lemma FinishFind(env: Env, t: Table, op: Op, id: int)
    requires op.Create?
    ensures var found := FindByID(t, id, op.findFails);
            Finish(env, t, op, Named(id)) ==
            (t, if found.Ok? then Success(MapToResponse(env, found.value)) else Failed(Internal))
  {
    FinishStep(env, t, op, Named(id));
    var found := FindByID(t, id, op.findFails);
    if found.Ok? { FinishStep(env, t, op, Found(found.value)); }
  }

  // ---- the service -----------------------------------------------------------------------

  datatype ListResult = ListResult(comments: seq<Response>, total: nat, page: int, perPage: int, totalPages: int)

  function MapAll(env: Env, rows: seq<Comment>): (r: seq<Response>)
    ensures |r| == |rows| && forall i :: 0 <= i < |r| ==> r[i] == MapToResponse(env, rows[i])
  {
    if rows == [] then [] else [MapToResponse(env, rows[0])] + MapAll(env, rows[1..])
  }

  /** `float64(total) / float64(perPage)` as the hardware may round it. */
  ghost predicate Divides(divide: (int, int) -> real) {
    forall total, perPage {:trigger divide(total, perPage)} ::
      0 <= total < Pagination.TWO53 && 1 <= perPage <= 100 ==>
        exists a, b :: Pagination.FloatQuotient(total, perPage, a, b, divide(total, perPage))
  }

  /** What List and ListAll answer: one page of the ordered list and the total counted before. */
  function Listed(env: Env, t: Table, later: Table, q: Query, tie: int -> int, page: int, perPage: int, f: QueryFault)
    : Result<ListResult>
  {
    var p, n := Pagination.ClampPage(page), Pagination.ClampPerPage(perPage);
    match QueryResult(t, later, q, tie, p, n, f)
    case Ok((rows, total)) => Ok(ListResult(MapAll(env, rows), total, p, n, Pagination.CeilDiv(total, n)))
    case Err => Err
  }

  class CommentService {
    const repo: CommentRepository
    const env: Env
    var verifications: nat
    var failed: nat
    var created: nat

    constructor (repo: CommentRepository, env: Env)
      ensures this.repo == repo && this.env == env && verifications == failed == created == 0
    {
      this.repo, this.env := repo, env;
      verifications, failed, created := 0, 0, 0;
    }

    method Create(op: Op) returns (r: Reply)
      requires op.Create?
      modifies this, repo
      ensures op.captcha.Passed? ==> (repo.db, r) == Atomic(env, old(repo.db), op)
      ensures !op.captcha.Passed? ==> repo.db == old(repo.db) && r == Failed(CaptchaFailed)
      ensures verifications == old(verifications) + 1
      ensures failed == old(failed) + if op.captcha.Passed? then 0 else 1
      ensures created == old(created) + if r.Success? then 1 else 0
    {
      var author := Sanitizer.Sanitize(env.stages, op.input.author);
      var body := Sanitizer.Sanitize(env.stages, op.input.body);
      verifications := verifications + 1;
      if !op.captcha.Passed? {
        failed := failed + 1;
        return Failed(CaptchaFailed);
      }
      var draft := Comment(0, "", op.input.postId, author, body, false, op.input.ip, op.input.userAgent, true, 0, 0);
      FinishInsert(env, repo.db, op);
      var inserted := repo.Insert(draft, op.insertAt, op.insert);
      if inserted.Err? {
        return Failed(Internal);
      }
      var id := inserted.value;
      FinishName(env, repo.db, op, id);
      var displayId := env.generate(id);
      if displayId.Err? {
        return Failed(Internal);
      }
      var named := repo.UpdateDisplayID(id, displayId.value, op.nameAt, op.name);
      if !named {
        return Failed(Internal);
      }
      FinishFind(env, repo.db, op, id);
      var found := FindByID(repo.db, id, op.findFails);
      if found.Err? {
        return Failed(Internal);
      }
      created := created + 1;
      return Success(MapToResponse(env, found.value));
    }

    method ToggleApproval(op: Op) returns (r: Reply)
      requires op.Toggle?
      modifies repo
      ensures (repo.db, r) == Atomic(env, old(repo.db), op)
    {
      FinishStep(env, repo.db, op, Locked);
      var comment := FindByID(repo.db, op.id, op.firstFindFails);
      if comment.Err? {
        return Failed(NotFound);
      }
      var newApproved := !comment.value.approved;
      FinishStep(env, repo.db, op, Read(newApproved));
      var updated := repo.UpdateApproved(op.id, newApproved, op.at, op.update);
      if !updated {
        return Failed(Internal);
      }
      FinishStep(env, repo.db, op, Flipped);
      var found := FindByID(repo.db, op.id, op.lastFindFails);
      if found.Err? {
        return Failed(Internal);
      }
      return Success(MapToResponse(env, found.value));
    }

    method Delete(op: Op) returns (r: Reply)
      requires op.Delete?
      modifies repo
      ensures (repo.db, r) == Atomic(env, old(repo.db), op)
    {
      FinishStep(env, repo.db, op, Locked);
      var ok := repo.Delete(op.id, op.delete);
      return if ok then Deleted else Failed(NotFound);
    }

    method List(postId: string, page: int, perPage: int, sort: string, later: Table, tie: int -> int,
                f: QueryFault, divide: (int, int) -> real)
      returns (r: Result<ListResult>)
      requires Divides(divide)
      requires Count(repo.db, Query(true, postId, sort == "created_at")) < Pagination.TWO53
      ensures r == Listed(env, repo.db, later, Query(true, postId, sort == "created_at"), tie, page, perPage, f)
    {
      var p, n := ClampParams(page, perPage);
      var found := repo.FindApproved(postId, sort == "created_at", p, n, later, tie, f);
      r := Respond(found, p, n, divide);
    }

    method ListAll(postId: string, page: int, perPage: int, sort: string, later: Table, tie: int -> int,
                   f: QueryFault, divide: (int, int) -> real)
      returns (r: Result<ListResult>)
      requires Divides(divide)
      requires Count(repo.db, Query(false, postId, sort == "created_at")) < Pagination.TWO53
      ensures r == Listed(env, repo.db, later, Query(false, postId, sort == "created_at"), tie, page, perPage, f)
    {
      var p, n := ClampParams(page, perPage);
      var found := repo.FindAll(postId, sort == "created_at", p, n, later, tie, f);
      r := Respond(found, p, n, divide);
    }

    /** The checks List and ListAll start with. */
    method ClampParams(page: int, perPage: int) returns (p: int, n: int)
      ensures p == Pagination.ClampPage(page) && n == Pagination.ClampPerPage(perPage)
      ensures 1 <= p && 1 <= n <= 100 && (page >= 1 ==> p == page) && (1 <= perPage <= 100 ==> n == perPage)
    {
      p, n := page, perPage;
      if p <= 0 {
        p := 1;
      }
      if n <= 0 {
        n := 20;
      }
      if n > 100 {
        n := 100;
      }
    }

    /** The mapping loop and the page count List and ListAll end with. */
    method Respond(found: Result<(seq<Comment>, nat)>, page: int, perPage: int, divide: (int, int) -> real)
      returns (r: Result<ListResult>)
      requires Divides(divide) && 1 <= perPage <= 100
      requires found.Ok? ==> found.value.1 < Pagination.TWO53
      ensures found.Err? ==> r == Err
      ensures found.Ok? ==> var (rows, total) := found.value;
                r == Ok(ListResult(MapAll(env, rows), total, page, perPage, Pagination.CeilDiv(total, perPage)))
    {
      if found.Err? {
        return Err;
      }
      var (rows, total) := found.value;
      var responses: seq<Response> := [];
      for i := 0 to |rows|
        invariant |responses| == i && forall k :: 0 <= k < i ==> responses[k] == MapToResponse(env, rows[k])
      {
        responses := responses + [MapToResponse(env, rows[i])];
      }
      assert responses == MapAll(env, rows);
      var quotient := divide(total, perPage);
      PageCount(total, perPage, divide);
      return Ok(ListResult(responses, total, page, perPage, Pagination.Ceil(quotient)));
    }
  }

  lemma {:induction false} PageCount(total: nat, perPage: int, divide: (int, int) -> real)
    requires Divides(divide) && total < Pagination.TWO53 && 1 <= perPage <= 100
    ensures Pagination.Ceil(divide(total, perPage)) == Pagination.CeilDiv(total, perPage)
  {
    var a, b :| Pagination.FloatQuotient(total, perPage, a, b, divide(total, perPage));
    Pagination.FloatPageCountIsExact(total, perPage, a, b, divide(total, perPage));
  }

  /** On one table, the pages a reader can ask for hold every wanted row once, in order. */
  lemma {:induction false} PagesHoldEveryRowOnce(t: Table, q: Query, tie: int -> int, perPage: int)
    requires t.Valid() && Injective(tie) && Count(t, q) < Pagination.MAX_INT64
    ensures var n := Pagination.ClampPerPage(perPage);
            var all := Pagination.Pages(Select(t, q, tie), n, Pagination.CeilDiv(Count(t, q), n));
            Sorted(q, tie, all) && Holds(t, q, all) && |all| == Count(t, q)
  {
    SelectSpec(t, q, tie);
    Pagination.PagesCoverList(Select(t, q, tie), Pagination.ClampPerPage(perPage));
  }

  /** A total counted on one table matches the size of every page read from another exactly when both
      tables hold equally many wanted rows. */
  lemma {:induction false} PagesMatchTotalIff(t: Table, later: Table, q: Query, tie: int -> int, perPage: int)
    requires later.Valid() && Injective(tie) && Count(t, q) < Pagination.TWO53 && Count(later, q) < Pagination.TWO53
    ensures var n := Pagination.ClampPerPage(perPage);
            (forall page :: Pagination.OffsetFitsInt64(page, n) ==>
               |Pagination.PageOf(Select(later, q, tie), page, n)| == Pagination.PageSize(Count(t, q), page, n))
            <==> Count(t, q) == Count(later, q)
  {
    var n := Pagination.ClampPerPage(perPage);
    var list := Select(later, q, tie);
    SelectSpec(later, q, tie);
    forall page | Pagination.OffsetFitsInt64(page, n)
      ensures |Pagination.PageOf(list, page, n)| == Pagination.PageSize(|list|, page, n)
    {
      Pagination.PageOfLength(list, page, n);
    }
    if Count(t, q) != |list| {
      var page := Pagination.SizesDiffer(Count(t, q), |list|, n);
    }
  }
}
