/** The filtered, ordered list behind FindApproved and FindAll. `ORDER BY created_at` leaves ties
    open; `tie` is whatever fixed order the engine uses among equal timestamps. */
module Listing {
  import opened Comments

  datatype Query = Query(approvedOnly: bool, postId: string, ascending: bool)

  predicate Wanted(q: Query, c: Comment) {
    (q.approvedOnly ==> c.approved) && (q.postId != "" ==> c.postId == q.postId)
  }

  ghost predicate Injective(tie: int -> int) {
    forall a, b {:trigger tie(a), tie(b)} :: tie(a) == tie(b) ==> a == b
  }

  predicate Before(q: Query, tie: int -> int, a: Comment, b: Comment) {
    if a.createdAt == b.createdAt then tie(a.id) < tie(b.id)
    else (a.createdAt < b.createdAt) == q.ascending
  }

  function InsertSorted(q: Query, tie: int -> int, c: Comment, list: seq<Comment>): seq<Comment> {
    if list == [] || Before(q, tie, c, list[0]) then [c] + list
    else [list[0]] + InsertSorted(q, tie, c, list[1..])
  }

  /** The wanted rows among ids 1 to `n`, in order. */
  function SelectUpTo(t: Table, q: Query, tie: int -> int, n: nat): seq<Comment> {
    if n == 0 then []
    else if n in t.rows && Wanted(q, t.rows[n]) then InsertSorted(q, tie, t.rows[n], SelectUpTo(t, q, tie, n - 1))
    else SelectUpTo(t, q, tie, n - 1)
  }

  function Select(t: Table, q: Query, tie: int -> int): seq<Comment> {
    SelectUpTo(t, q, tie, t.lastId)
  }

  function Ids(t: Table, q: Query): set<int> { set id | id in t.rows && Wanted(q, t.rows[id]) }

  /** `SELECT COUNT(*)`. */
  function Count(t: Table, q: Query): nat { |Ids(t, q)| }

  ghost predicate Sorted(q: Query, tie: int -> int, list: seq<Comment>) {
    forall i, j :: 0 <= i < j < |list| ==> Before(q, tie, list[i], list[j])
  }

  /** Exactly the wanted rows of the table. */
  ghost predicate Holds(t: Table, q: Query, list: seq<Comment>) {
    forall c :: c in list <==> c.id in t.rows && t.rows[c.id] == c && Wanted(q, c)
  }

  lemma {:induction false} InsertSortedKeeps(q: Query, tie: int -> int, c: Comment, list: seq<Comment>)
    requires Injective(tie) && Sorted(q, tie, list) && forall x :: x in list ==> x.id != c.id
    ensures Sorted(q, tie, InsertSorted(q, tie, c, list))
    ensures forall x :: x in InsertSorted(q, tie, c, list) <==> x == c || x in list
    ensures |InsertSorted(q, tie, c, list)| == |list| + 1
  {
    if list == [] {
    } else if Before(q, tie, c, list[0]) {
      forall j | 0 <= j < |list| ensures Before(q, tie, c, list[j]) {}
    } else {
      var rest := InsertSorted(q, tie, c, list[1..]);
      InsertSortedKeeps(q, tie, c, list[1..]);
      assert list[0] in list && list == [list[0]] + list[1..];
      assert Before(q, tie, list[0], c);
      forall j | 0 <= j < |rest| ensures Before(q, tie, list[0], rest[j]) {
        assert rest[j] in rest;
      }
    }
  }

  lemma {:induction false} SelectUpToSpec(t: Table, q: Query, tie: int -> int, n: nat)
    requires t.Valid() && Injective(tie)
    ensures Sorted(q, tie, SelectUpTo(t, q, tie, n))
    ensures forall c :: c in SelectUpTo(t, q, tie, n) <==>
                        1 <= c.id <= n && c.id in t.rows && t.rows[c.id] == c && Wanted(q, c)
  {
    if n > 0 {
      SelectUpToSpec(t, q, tie, n - 1);
      if n in t.rows && Wanted(q, t.rows[n]) {
        InsertSortedKeeps(q, tie, t.rows[n], SelectUpTo(t, q, tie, n - 1));
      }
    }
  }

  function WantedIds(t: Table, q: Query, n: nat): set<int> { set id | id in Ids(t, q) && id <= n }

  lemma WantedIdsGrow(t: Table, q: Query, n: nat)
    requires t.Valid() && n > 0
    ensures |WantedIds(t, q, n)| == |WantedIds(t, q, n - 1)| + if n in t.rows && Wanted(q, t.rows[n]) then 1 else 0
  {
    var fewer := WantedIds(t, q, n - 1);
    assert WantedIds(t, q, n) == if n in t.rows && Wanted(q, t.rows[n]) then fewer + {n} else fewer;
  }

  lemma {:induction false} SelectUpToCount(t: Table, q: Query, tie: int -> int, n: nat)
    requires t.Valid() && Injective(tie)
    ensures |SelectUpTo(t, q, tie, n)| == |WantedIds(t, q, n)|
  {
    if n == 0 {
      assert WantedIds(t, q, n) == {};
    } else {
      SelectUpToCount(t, q, tie, n - 1);
      WantedIdsGrow(t, q, n);
      if n in t.rows && Wanted(q, t.rows[n]) {
        SelectUpToSpec(t, q, tie, n - 1);
        InsertSortedKeeps(q, tie, t.rows[n], SelectUpTo(t, q, tie, n - 1));
      }
    }
  }

  /** The list holds exactly the wanted rows, each once, in order; COUNT gives its length. */
  lemma SelectSpec(t: Table, q: Query, tie: int -> int)
    requires t.Valid() && Injective(tie)
    ensures Sorted(q, tie, Select(t, q, tie)) && Holds(t, q, Select(t, q, tie))
    ensures |Select(t, q, tie)| == Count(t, q)
    ensures forall i, j :: 0 <= i < j < |Select(t, q, tie)| ==>
              var a, b := Select(t, q, tie)[i].createdAt, Select(t, q, tie)[j].createdAt;
              if q.ascending then a <= b else a >= b
  {
    SelectUpToSpec(t, q, tie, t.lastId);
    SelectUpToCount(t, q, tie, t.lastId);
    assert WantedIds(t, q, t.lastId) == Ids(t, q);
  }

  lemma RestOfSorted(q: Query, tie: int -> int, list: seq<Comment>)
    requires Sorted(q, tie, list) && list != []
    ensures forall c :: c in list[1..] <==> c in list && c != list[0]
  {
    forall c ensures c in list[1..] <==> c in list && c != list[0] {
      assert list == [list[0]] + list[1..];
      if c in list[1..] {
        var k :| 1 <= k < |list| && list[k] == c;
        assert Before(q, tie, list[0], list[k]);
      }
    }
  }

  /** There is only one such list, however the engine goes about producing it. */
  lemma {:induction false} SortedIsUnique(q: Query, tie: int -> int, a: seq<Comment>, b: seq<Comment>)
    requires Injective(tie) && Sorted(q, tie, a) && Sorted(q, tie, b)
    requires forall c :: c in a <==> c in b
    ensures a == b
  {
    assert a != [] ==> a[0] in b;
    assert b != [] ==> b[0] in a;
    if a != [] && b != [] {
      var i :| 0 <= i < |b| && b[i] == a[0];
      var j :| 0 <= j < |a| && a[j] == b[0];
      assert a[0] == b[0];
      RestOfSorted(q, tie, a);
      RestOfSorted(q, tie, b);
      SortedIsUnique(q, tie, a[1..], b[1..]);
      assert a == [a[0]] + a[1..] && b == [b[0]] + b[1..];
    }
  }

  function ApprovedPart(list: seq<Comment>): seq<Comment> {
    if list == [] then []
    else (if list[0].approved then [list[0]] else []) + ApprovedPart(list[1..])
  }

  lemma {:induction false} ApprovedPartSpec(q: Query, tie: int -> int, list: seq<Comment>)
    requires Sorted(q, tie, list)
    ensures Sorted(q, tie, ApprovedPart(list))
    ensures forall c :: c in ApprovedPart(list) <==> c in list && c.approved
  {
    if list != [] {
      ApprovedPartSpec(q, tie, list[1..]);
      var rest := ApprovedPart(list[1..]);
      forall j | 0 <= j < |rest| ensures Before(q, tie, list[0], rest[j]) {
        assert rest[j] in list[1..];
      }
      assert list == [list[0]] + list[1..];
    }
  }

  /** For the same post and order, the public list is the approved part of the admin list. */
  lemma PublicListIsApprovedPart(t: Table, q: Query, tie: int -> int)
    requires t.Valid() && Injective(tie)
    ensures var public, admin := Select(t, q.(approvedOnly := true), tie), Select(t, q.(approvedOnly := false), tie);
            public == ApprovedPart(admin) && Count(t, q.(approvedOnly := true)) == |ApprovedPart(admin)|
  {
    var publicQuery, adminQuery := q.(approvedOnly := true), q.(approvedOnly := false);
    var public, admin := Select(t, publicQuery, tie), Select(t, adminQuery, tie);
    SelectSpec(t, publicQuery, tie);
    SelectSpec(t, adminQuery, tie);
    ApprovedPartSpec(adminQuery, tie, admin);
    assert Sorted(publicQuery, tie, ApprovedPart(admin)) by {
      forall i, j | 0 <= i < j < |ApprovedPart(admin)|
        ensures Before(publicQuery, tie, ApprovedPart(admin)[i], ApprovedPart(admin)[j])
      {
        assert Before(adminQuery, tie, ApprovedPart(admin)[i], ApprovedPart(admin)[j]);
      }
    }
    SortedIsUnique(publicQuery, tie, public, ApprovedPart(admin));
  }
}
