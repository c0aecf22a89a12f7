/** What Create, ToggleApproval and Delete store and answer, told without their steps. */
module Outcomes {
  import opened Wrappers
  import opened Comments
  import opened Service
  import Sanitizer

  /** The row an author's request is stored as. */
  function Stored(env: Env, id: int, displayId: string, i: Input, createdAt: int, updatedAt: int): Comment {
    Comment(id, displayId, i.postId, Sanitizer.Sanitize(env.stages, i.author), Sanitizer.Sanitize(env.stages, i.body),
            false, i.ip, i.userAgent, true, createdAt, updatedAt)
  }

  /** The answer shows the row, its texts sanitized once more; address and user agent stay behind. */
  predicate Shows(env: Env, r: Response, row: Comment) {
    && r.id == row.id && r.displayId == row.displayId && r.postId == row.postId
    && r.author == Sanitizer.Sanitize(env.stages, row.author)
    && r.body == Sanitizer.Sanitize(env.stages, row.body)
    && r.approved == row.approved && r.createdAt == row.createdAt
  }

  /** Both tables agree except that row `id` is now `row`. */
  predicate OnlyRow(t: Table, t': Table, id: int, row: Comment) {
    t'.rows == t.rows[id := row]
  }

  // ---- Create ----------------------------------------------------------------------------

  /** The storage and the generator let a Create through to its end. */
  predicate CreateSucceeds(env: Env, t: Table, op: Op)
    requires op.Create?
  {
    op.insert.Fine? && env.generate(t.lastId + 1).Ok? && op.name.Fine? && !op.findFails
  }

  /** Whether the row is named: the INSERT is known to have run, the id was generated and the UPDATE ran. */
  predicate GetsNamed(env: Env, t: Table, op: Op)
    requires op.Create?
  {
    op.insert.Fine? && env.generate(t.lastId + 1).Ok? && !op.name.Lost?
  }

  lemma InsertStores(env: Env, t: Table, op: Op)
    requires op.Create? && !op.insert.Lost?
    ensures var after := Exec(t, Insert(Draft(env, op.input), op.insertAt), op.insert).0;
            var id := t.lastId + 1;
            after.lastId == id && OnlyRow(t, after, id, Stored(env, id, "", op.input, op.insertAt, op.insertAt))
  {
  }

  lemma NameStores(env: Env, t: Table, op: Op, id: int, name: string, after: Table)
    requires op.Create? && !op.name.Lost?
    requires OnlyRow(t, after, id, Stored(env, id, "", op.input, op.insertAt, op.insertAt))
    ensures var named := Exec(after, Name(id, name, op.nameAt), op.name).0;
            && named.lastId == after.lastId && id in named.rows
            && OnlyRow(t, named, id, Stored(env, id, name, op.input, op.insertAt, op.nameAt))
  {
    var named := Exec(after, Name(id, name, op.nameAt), op.name).0;
    assert named.rows[id] == Stored(env, id, name, op.input, op.insertAt, op.nameAt);
    assert named.rows == t.rows[id := named.rows[id]];
  }

  /** What Create leaves in the table: its author's comment under the next id, named if the naming UPDATE is
      reached and not lost; nothing if the INSERT is lost. */
  ghost predicate CreateLeaves(env: Env, t: Table, op: Op, t': Table)
    requires op.Create?
  {
    var id := t.lastId + 1;
    if op.insert.Lost? then t' == t
    else
      && t'.lastId == id
      && (if GetsNamed(env, t, op)
          then OnlyRow(t, t', id, Stored(env, id, env.generate(id).value, op.input, op.insertAt, op.nameAt))
          else OnlyRow(t, t', id, Stored(env, id, "", op.input, op.insertAt, op.insertAt)))
  }

  lemma MappedShows(env: Env, row: Comment)
    ensures Shows(env, MapToResponse(env, row), row)
  {
  }

  lemma NamingOutcome(env: Env, t: Table, op: Op, after: Table)
    requires op.Create? && op.insert.Fine? && after.lastId == t.lastId + 1
    requires OnlyRow(t, after, t.lastId + 1, Stored(env, t.lastId + 1, "", op.input, op.insertAt, op.insertAt))
    ensures var (t', reply) := Finish(env, after, op, Inserted(t.lastId + 1));
            && CreateLeaves(env, t, op, t') && t.lastId + 1 in t'.rows
            && reply == (if CreateSucceeds(env, t, op) then Success(MapToResponse(env, t'.rows[t.lastId + 1]))
                         else Failed(Internal))
  {
    var id := t.lastId + 1;
    FinishName(env, after, op, id);
    if env.generate(id).Ok? {
      var named := Exec(after, Name(id, env.generate(id).value, op.nameAt), op.name).0;
      if !op.name.Lost? { NameStores(env, t, op, id, env.generate(id).value, after); }
      if op.name.Fine? { FinishFind(env, named, op, id); }
    }
  }

  /** Create answers with its comment when nothing fails and with an internal error otherwise. */
  lemma CreateOutcome(env: Env, t: Table, op: Op)
    requires op.Create?
    ensures var (t', reply) := Atomic(env, t, op);
            && CreateLeaves(env, t, op, t')
            && (if CreateSucceeds(env, t, op)
                then reply.Success? && t.lastId + 1 in t'.rows && Shows(env, reply.response, t'.rows[t.lastId + 1])
                else reply == Failed(Internal))
  {
    FinishInsert(env, t, op);
    if !op.insert.Lost? { InsertStores(env, t, op); }
    if op.insert.Fine? {
      var after := Exec(t, Insert(Draft(env, op.input), op.insertAt), op.insert).0;
      NamingOutcome(env, t, op, after);
      if CreateSucceeds(env, t, op) { MappedShows(env, Atomic(env, t, op).0.rows[t.lastId + 1]); }
    }
  }

  // ---- ToggleApproval --------------------------------------------------------------------

  /** A toggle flips the flag of its comment, and changes nothing else of it but the time of the update. */
  function Toggled(row: Comment, at: int): Comment {
    Comment(row.id, row.displayId, row.postId, row.author, row.body, !row.approved, row.ip, row.userAgent,
            row.captchaVerified, row.createdAt, at)
  }

  /** ToggleApproval rewrites its own row unless the comment is not found or the UPDATE is lost; it answers
      with the rewritten row, "not found", or an internal error. */
  lemma ToggleOutcome(env: Env, t: Table, op: Op)
    requires op.Toggle?
    ensures var (t', reply) := Atomic(env, t, op);
            && t'.lastId == t.lastId
            && (op.id !in t.rows || op.firstFindFails ==> t' == t && reply == Failed(NotFound))
            && (op.id in t.rows && !op.firstFindFails ==>
                  && (op.update.Lost? ==> t' == t)
                  && (!op.update.Lost? ==> OnlyRow(t, t', op.id, Toggled(t.rows[op.id], op.at)))
                  && (if op.update.Fine? && !op.lastFindFails
                      then reply.Success? && Shows(env, reply.response, Toggled(t.rows[op.id], op.at))
                      else reply == Failed(Internal)))
  {
    FinishStep(env, t, op, Locked);
    if op.id in t.rows && !op.firstFindFails {
      var approved := !t.rows[op.id].approved;
      ToggleFinishes(env, t, op, approved);
    }
  }

  lemma ToggleFinishes(env: Env, t: Table, op: Op, approved: bool)
    requires op.Toggle? && op.id in t.rows
    ensures var (after, ok) := Exec(t, Approve(op.id, approved, op.at), op.update);
            Finish(env, t, op, Read(approved)) ==
            (after, if !ok || op.lastFindFails then Failed(Internal)
                    else Success(MapToResponse(env, after.rows[op.id])))
  {
    FinishStep(env, t, op, Read(approved));
    var (after, ok) := Exec(t, Approve(op.id, approved, op.at), op.update);
    if ok { FinishStep(env, after, op, Flipped); }
  }

  // ---- Delete ----------------------------------------------------------------------------

  /** Delete removes its row unless the statement is lost; it answers "deleted" only if the row was there
      and the statement is known to have run. */
  lemma DeleteOutcome(env: Env, t: Table, op: Op)
    requires op.Delete?
    ensures var (t', reply) := Atomic(env, t, op);
            && t'.lastId == t.lastId
            && t'.rows.Keys == (if op.delete.Lost? then t.rows.Keys else t.rows.Keys - {op.id})
            && (forall id :: id in t'.rows ==> t'.rows[id] == t.rows[id])
            && reply == (if op.id in t.rows && op.delete.Fine? then Deleted else Failed(NotFound))
  {
    FinishStep(env, t, op, Locked);
  }
}
