/** What the lists answer, told by the rows of the table and not by the queries. */
module ListReplies {
  import opened Arithmetic
  import opened Wrappers
  import opened Comments
  import opened Listing
  import opened Repository
  import opened Service
  import opened Outcomes
  import Pagination

  /** The rows a list may show: approved ones if it is public, and of one post if one is named. */
  predicate Shown(approvedOnly: bool, postId: string, row: Comment) {
    (!approvedOnly || row.approved) && (postId == "" || row.postId == postId)
  }

  /** `list` holds each row that may be shown once, by creation time in the asked direction, equal times by
      the tie-break. */
  ghost predicate Lists(t: Table, q: Query, tie: int -> int, list: seq<Comment>) {
    && (forall row :: row in list <==>
          row.id in t.rows && t.rows[row.id] == row && Shown(q.approvedOnly, q.postId, row))
    && (forall i, j :: 0 <= i < j < |list| ==>
          var a, b := list[i], list[j];
          if a.createdAt == b.createdAt then tie(a.id) < tie(b.id)
          else if q.ascending then a.createdAt < b.createdAt
          else a.createdAt > b.createdAt)
  }

  lemma SelectLists(t: Table, q: Query, tie: int -> int)
    requires t.Valid() && Injective(tie)
    ensures Lists(t, q, tie, Select(t, q, tie)) && |Select(t, q, tie)| == Count(t, q)
  {
    var list := Select(t, q, tie);
    SelectSpec(t, q, tie);
    forall i, j | 0 <= i < j < |list| ensures Before(q, tie, list[i], list[j]) {}
  }

  lemma ListsIsUnique(t: Table, q: Query, tie: int -> int, a: seq<Comment>, b: seq<Comment>)
    requires Injective(tie) && Lists(t, q, tie, a) && Lists(t, q, tie, b)
    ensures a == b
  {
    SortedIsUnique(q, tie, a, b);
  }

  /** The first row of a page: the offset is computed in 64 bits, and one below zero counts as zero. */
  function Start(page: int, perPage: int): nat {
    Max(0, Pagination.Wrap64(Pagination.Wrap64(page - 1) * perPage))
  }

  predicate Fails(f: QueryFault, shown: int) {
    f.count || f.select || 0 <= f.scan < shown
  }

  /** Element by element. */
  predicate Pointwise<A, B>(related: (A, B) -> bool, a: seq<A>, b: seq<B>) {
    |a| == |b| && forall i :: 0 <= i < |a| ==> related(a[i], b[i])
  }

  lemma PointwiseConcat<A, B>(related: (A, B) -> bool, a: seq<A>, b: seq<B>, x: seq<A>, y: seq<B>)
    requires Pointwise(related, a, b) && Pointwise(related, x, y)
    ensures Pointwise(related, a + x, b + y)
  {
  }

  /** How an answer and its row go together. */
  function ShownBy(env: Env): (Response, Comment) -> bool { (r, row) => Shows(env, r, row) }

  lemma {:induction false} MapAllShows(env: Env, rows: seq<Comment>)
    ensures Pointwise(ShownBy(env), MapAll(env, rows), rows)
  {
    forall i | 0 <= i < |rows| ensures ShownBy(env)(MapAll(env, rows)[i], rows[i]) {
      MappedShows(env, rows[i]);
    }
  }

  /** The rows of `list` from `from` on, up to `perPage` of them. */
  function Stretch(list: seq<Comment>, from: nat, perPage: nat): seq<Comment> {
    if from >= |list| then [] else list[from..Min(from + perPage, |list|)]
  }

  lemma ClampsAre(page: int, perPage: int)
    ensures Pagination.ClampPage(page) == Max(1, page)
    ensures Pagination.ClampPerPage(perPage) == if perPage <= 0 then 20 else Min(perPage, 100)
  {
  }

  lemma SliceIsStretch(list: seq<Comment>, n: nat, offset: int)
    requires n >= 1
    ensures Pagination.Slice(list, n, offset) == Stretch(list, Max(0, offset), n)
  {
  }

  lemma ListedUnfolds(env: Env, t: Table, later: Table, q: Query, tie: int -> int, page: int, perPage: int,
                      f: QueryFault)
    ensures var reply := Listed(env, t, later, q, tie, page, perPage, f);
            var p, n := Pagination.ClampPage(page), Pagination.ClampPerPage(perPage);
            var rows := Pagination.PageOf(Select(later, q, tie), p, n);
            && (reply.Err? <==> Fails(f, |rows|))
            && (reply.Ok? ==> reply.value == ListResult(MapAll(env, rows), Count(t, q), p, n,
                                                        Pagination.CeilDiv(Count(t, q), n)))
  {
  }

  /** So many pages of size `n` hold `total` rows, and one less does not. */
  predicate Covers(pages: int, n: int, total: int) {
    (pages - 1) * n < total <= pages * n
  }

  /** A reply with page `p` of size `n`, which holds `rows`, and with this total; or an error. */
  ghost predicate IsReply(related: (Response, Comment) -> bool, reply: Result<ListResult>, total: int,
                          rows: seq<Comment>, p: int, n: int, f: QueryFault) {
    && (reply.Err? <==> Fails(f, |rows|))
    && (reply.Ok? ==>
          var r := reply.value;
          && r.page == p && r.perPage == n && r.total == total && Covers(r.totalPages, n, total)
          && Pointwise(related, r.comments, rows))
  }

  lemma CeilDivCovers(total: nat, n: int)
    requires n >= 1
    ensures Covers(Pagination.CeilDiv(total, n), n, total)
  {
    Pagination.CeilDivBounds(total, n);
  }

  lemma BuildsReply(related: (Response, Comment) -> bool, reply: Result<ListResult>, r: ListResult,
                    rows: seq<Comment>, f: QueryFault)
    requires (reply.Err? <==> Fails(f, |rows|)) && (reply.Ok? ==> reply.value == r)
    requires Pointwise(related, r.comments, rows) && Covers(r.totalPages, r.perPage, r.total)
    ensures IsReply(related, reply, r.total, rows, r.page, r.perPage, f)
  {
  }

  lemma ListedIsReply(env: Env, t: Table, later: Table, q: Query, tie: int -> int, page: int, perPage: int,
                      f: QueryFault, p: int, n: int, rows: seq<Comment>, related: (Response, Comment) -> bool)
    requires p == Pagination.ClampPage(page) && n == Pagination.ClampPerPage(perPage)
    requires Pointwise(related, MapAll(env, rows), rows)
    requires rows == Pagination.PageOf(Select(later, q, tie), p, n)
    ensures IsReply(related, Listed(env, t, later, q, tie, page, perPage, f), Count(t, q), rows, p, n, f)
  {
    ListedUnfolds(env, t, later, q, tie, page, perPage, f);
    CeilDivCovers(Count(t, q), n);
    BuildsReply(related, Listed(env, t, later, q, tie, page, perPage, f),
                ListResult(MapAll(env, rows), Count(t, q), p, n, Pagination.CeilDiv(Count(t, q), n)), rows, f);
  }

  lemma PageIsStretch(t: Table, q: Query, tie: int -> int, list: seq<Comment>, p: int, n: int)
    requires t.Valid() && Injective(tie) && Lists(t, q, tie, list) && n >= 1
    ensures Pagination.PageOf(Select(t, q, tie), p, n) == Stretch(list, Start(p, n), n)
  {
    SelectLists(t, q, tie);
    ListsIsUnique(t, q, tie, list, Select(t, q, tie));
    SliceIsStretch(list, n, Pagination.Offset(p, n));
  }

  /** The reply to a list: the page and its size clamped, the total counted before, and the page's stretch of
      the only list there is; or an error when a step fails. */
  lemma ListedSpec(env: Env, t: Table, later: Table, q: Query, tie: int -> int, page: int, perPage: int, f: QueryFault,
                   before: seq<Comment>, list: seq<Comment>)
    requires t.Valid() && later.Valid() && Injective(tie) && Lists(t, q, tie, before) && Lists(later, q, tie, list)
    ensures var p := Max(1, page);
            var n := if perPage <= 0 then 20 else Min(perPage, 100);
            IsReply(ShownBy(env), Listed(env, t, later, q, tie, page, perPage, f), |before|,
                    Stretch(list, Start(p, n), n), p, n, f)
  {
    var p, n := Pagination.ClampPage(page), Pagination.ClampPerPage(perPage);
    ClampsAre(page, perPage);
    SelectLists(t, q, tie);
    ListsIsUnique(t, q, tie, before, Select(t, q, tie));
    PageIsStretch(later, q, tie, list, p, n);
    var rows := Pagination.PageOf(Select(later, q, tie), p, n);
    MapAllShows(env, rows);
    ListedIsReply(env, t, later, q, tie, page, perPage, f, p, n, rows, ShownBy(env));
  }

  /** While the offset fits in 64 bits, page `page` starts after `page - 1` full pages. */
  lemma StartOfPage(page: int, perPage: int)
    requires 1 <= perPage && Pagination.OffsetFitsInt64(page, perPage)
    ensures Start(page, perPage) == (page - 1) * perPage
  {
    Pagination.OffsetFits(page, perPage);
  }

  lemma PageIsInList(list: seq<Comment>, p: int, n: int)
    requires n >= 1
    ensures forall row :: row in Pagination.PageOf(list, p, n) ==> row in list
  {
    SliceIsStretch(list, n, Pagination.Offset(p, n));
  }

  lemma MappedFrom(env: Env, rows: seq<Comment>, r: Response) returns (row: Comment)
    requires r in MapAll(env, rows)
    ensures row in rows && r == MapToResponse(env, row)
  {
    var i :| 0 <= i < |rows| && MapAll(env, rows)[i] == r;
    row := rows[i];
  }

  lemma ReplyComesFromRow(env: Env, t: Table, later: Table, q: Query, tie: int -> int, page: int, perPage: int,
                          f: QueryFault, r: Response) returns (row: Comment)
    requires var reply := Listed(env, t, later, q, tie, page, perPage, f); reply.Ok? && r in reply.value.comments
    ensures row in Select(later, q, tie) && r == MapToResponse(env, row)
  {
    ListedUnfolds(env, t, later, q, tie, page, perPage, f);
    var p, n := Pagination.ClampPage(page), Pagination.ClampPerPage(perPage);
    row := MappedFrom(env, Pagination.PageOf(Select(later, q, tie), p, n), r);
    PageIsInList(Select(later, q, tie), p, n);
  }

  /** A public reply shows approved comments only, and a reply for a post only comments on it. */
  lemma RepliesShowOnlyWanted(env: Env, t: Table, later: Table, q: Query, tie: int -> int, page: int, perPage: int,
                              f: QueryFault, r: Response)
    requires later.Valid() && Injective(tie)
    requires var reply := Listed(env, t, later, q, tie, page, perPage, f); reply.Ok? && r in reply.value.comments
    ensures q.approvedOnly ==> r.approved
    ensures q.postId != "" ==> r.postId == q.postId
    ensures r.id in later.rows && ShownBy(env)(r, later.rows[r.id])
  {
    var row := ReplyComesFromRow(env, t, later, q, tie, page, perPage, f, r);
    SelectLists(later, q, tie);
    MappedShows(env, row);
  }

  const NO_FAULT := QueryFault(false, false, -1)

  /** What a reader finds on page `page`. */
  function PageRead(env: Env, t: Table, q: Query, tie: int -> int, perPage: int, page: int): seq<Response> {
    var reply := Listed(env, t, t, q, tie, page, perPage, NO_FAULT);
    if reply.Ok? then reply.value.comments else []
  }

  /** What pages 1 to `n` hold, one after the other. */
  function Concatenated<A>(page: int -> seq<A>, n: nat): seq<A> {
    if n == 0 then [] else Concatenated(page, n - 1) + page(n)
  }

  lemma {:induction false} ConcatenatedPointwise<A, B>(related: (A, B) -> bool, a: int -> seq<A>, b: int -> seq<B>,
                                                       n: nat)
    requires forall page {:trigger a(page)} :: page >= 1 ==> Pointwise(related, a(page), b(page))
    ensures Pointwise(related, Concatenated(a, n), Concatenated(b, n))
  {
    if n > 0 {
      ConcatenatedPointwise(related, a, b, n - 1);
      PointwiseConcat(related, Concatenated(a, n - 1), Concatenated(b, n - 1), a(n), b(n));
    }
  }

  lemma {:induction false} PagesAreConcatenated<A>(list: seq<A>, perPage: int, n: nat)
    ensures Concatenated(page => Pagination.PageOf(list, page, perPage), n) == Pagination.Pages(list, perPage, n)
  {
    if n > 0 { PagesAreConcatenated(list, perPage, n - 1); }
  }

  /** The first `n` pages a reader is sent. */
  function Pages(env: Env, t: Table, q: Query, tie: int -> int, perPage: int, n: nat): seq<Response> {
    Concatenated(page => PageRead(env, t, q, tie, perPage, page), n)
  }

  lemma PageShows(env: Env, t: Table, q: Query, tie: int -> int, perPage: int, page: int, rows: seq<Comment>)
    requires page >= 1
    requires rows == Pagination.PageOf(Select(t, q, tie), page, Pagination.ClampPerPage(perPage))
    ensures Pointwise(ShownBy(env), PageRead(env, t, q, tie, perPage, page), rows)
  {
    ListedUnfolds(env, t, t, q, tie, page, perPage, NO_FAULT);
    MapAllShows(env, rows);
  }

  lemma PagesShowPages(env: Env, t: Table, q: Query, tie: int -> int, perPage: int, n: nat, list: seq<Comment>)
    requires list == Select(t, q, tie)
    ensures Pointwise(ShownBy(env), Pages(env, t, q, tie, perPage, n),
                      Pagination.Pages(list, Pagination.ClampPerPage(perPage), n))
  {
    var size := Pagination.ClampPerPage(perPage);
    var read := (page: int) => PageRead(env, t, q, tie, perPage, page);
    var rows := (page: int) => Pagination.PageOf(list, page, size);
    forall page | page >= 1 ensures Pointwise(ShownBy(env), read(page), rows(page)) {
      PageShows(env, t, q, tie, perPage, page, rows(page));
    }
    ConcatenatedPointwise(ShownBy(env), read, rows, n);
    PagesAreConcatenated(list, size, n);
  }

  /** On one table, reading pages 1 to the number of pages any reply names gives every row the list may show,
      once and in order. */
  lemma {:induction false} RepliesCoverList(env: Env, t: Table, q: Query, tie: int -> int, page: int, perPage: int,
                                            list: seq<Comment>)
    requires t.Valid() && Injective(tie) && Lists(t, q, tie, list) && |list| < Pagination.MAX_INT64
    ensures var reply := Listed(env, t, t, q, tie, page, perPage, NO_FAULT);
            reply.Ok? && Pointwise(ShownBy(env), Pages(env, t, q, tie, perPage, reply.value.totalPages), list)
  {
    var n := Pagination.ClampPerPage(perPage);
    SelectLists(t, q, tie);
    ListsIsUnique(t, q, tie, list, Select(t, q, tie));
    ListedUnfolds(env, t, t, q, tie, page, perPage, NO_FAULT);
    PagesShowPages(env, t, q, tie, perPage, Pagination.CeilDiv(|list|, n), list);
    Pagination.PagesCoverList(list, n);
  }
}
