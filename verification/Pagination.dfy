/** The page arithmetic of List and ListAll: clamping, a 64-bit offset, LIMIT/OFFSET, and a page
    count that goes through float64. */
module Pagination {
  import opened Arithmetic

  const TWO53 := 0x20_0000_0000_0000
  const TWO62 := 0x4000_0000_0000_0000
  const MAX_INT64 := 0x8000_0000_0000_0000

  function ClampPage(page: int): int { if page <= 0 then 1 else page }

  function ClampPerPage(perPage: int): int {
    if perPage <= 0 then 20 else if perPage > 100 then 100 else perPage
  }

  /** Two's complement 64-bit wrap-around. */
  function Wrap64(x: int): int { (x + MAX_INT64) % (2 * MAX_INT64) - MAX_INT64 }

  function Offset(page: int, perPage: int): int { Wrap64(Wrap64(page - 1) * perPage) }

  /** `LIMIT limit OFFSET offset`: a negative offset counts as none, a negative limit as no limit. */
  function Slice<T>(list: seq<T>, limit: int, offset: int): seq<T> {
    var from := if offset < 0 then 0 else if offset > |list| then |list| else offset;
    if limit < 0 || limit > |list| - from then list[from..] else list[from..from + limit]
  }

  function PageOf<T>(list: seq<T>, page: int, perPage: int): seq<T> {
    Slice(list, perPage, Offset(page, perPage))
  }

  /** Pages 1 to `n`, one after the other. */
  function Pages<T>(list: seq<T>, perPage: int, n: nat): seq<T> {
    if n == 0 then [] else Pages(list, perPage, n - 1) + PageOf(list, n, perPage)
  }

  function CeilDiv(total: nat, perPage: int): nat
    requires perPage >= 1
  {
    (total + perPage - 1) / perPage
  }

  lemma CeilDivBounds(total: nat, perPage: int)
    requires perPage >= 1
    ensures var n := CeilDiv(total, perPage); (n - 1) * perPage < total <= n * perPage
  {
    var n := CeilDiv(total, perPage);
    assert total + perPage - 1 == n * perPage + (total + perPage - 1) % perPage;
  }

  /** The only 64-bit number that differs by a multiple of 2^64. */
  lemma WrapIsTwosComplement(x: int)
    ensures -0x8000_0000_0000_0000 <= Wrap64(x) < 0x8000_0000_0000_0000
    ensures (x - Wrap64(x)) % 0x1_0000_0000_0000_0000 == 0
  {
    var n := (x + MAX_INT64) / (2 * MAX_INT64);
    assert x - Wrap64(x) == n * (2 * MAX_INT64);
    assert n * (2 * MAX_INT64) % (2 * MAX_INT64) == 0;
  }

  lemma WrapFits(x: int)
    requires -MAX_INT64 <= x < MAX_INT64
    ensures Wrap64(x) == x
  {
  }

  lemma OffsetFits(page: int, perPage: int)
    requires 1 <= page < MAX_INT64 && 1 <= perPage && (page - 1) * perPage < MAX_INT64
    ensures Offset(page, perPage) == (page - 1) * perPage >= 0
  {
    WrapFits(page - 1);
    assert (page - 1) * perPage >= 0;
    WrapFits((page - 1) * perPage);
  }

  lemma {:induction false} PageStart(total: nat, page: int, perPage: int)
    requires 1 <= perPage && 1 <= page <= CeilDiv(total, perPage)
    ensures page - 1 <= (page - 1) * perPage < total
    ensures page * perPage == (page - 1) * perPage + perPage
    ensures page < CeilDiv(total, perPage) ==> page * perPage < total
    ensures page == CeilDiv(total, perPage) ==> total <= page * perPage
  {
    var n := CeilDiv(total, perPage);
    CeilDivBounds(total, perPage);
    MulMonotone(perPage, page - 1, n - 1);
    MulMonotone(page - 1, 1, perPage);
    if page < n { MulMonotone(perPage, page, n - 1); }
  }

  /** Every page up to the page count starts inside the list, so its offset cannot overflow. */
  lemma {:induction false} PagesStartInside(total: nat, page: int, perPage: int)
    requires 1 <= perPage && 1 <= page <= CeilDiv(total, perPage) && total < MAX_INT64
    ensures 0 <= (page - 1) * perPage < total && Offset(page, perPage) == (page - 1) * perPage
  {
    PageStart(total, page, perPage);
    OffsetFits(page, perPage);
  }

  lemma SliceInside<T>(list: seq<T>, limit: nat, from: nat)
    requires from <= |list|
    ensures Slice(list, limit, from) == list[from..Min(from + limit, |list|)]
  {
  }

  /** All pages but the last are full; the last holds the remainder. */
  lemma {:induction false} PageIsInterval<T>(list: seq<T>, page: int, perPage: int)
    requires 1 <= perPage && 1 <= page <= CeilDiv(|list|, perPage) && |list| < MAX_INT64
    ensures 0 <= (page - 1) * perPage < |list|
    ensures page < CeilDiv(|list|, perPage) ==> page * perPage < |list|
    ensures PageOf(list, page, perPage) ==
            list[(page - 1) * perPage..if page < CeilDiv(|list|, perPage) then page * perPage else |list|]
  {
    PageStart(|list|, page, perPage);
    PagesStartInside(|list|, page, perPage);
    SliceInside(list, perPage, (page - 1) * perPage);
  }

  lemma AppendInterval<T>(list: seq<T>, from: nat, to: nat)
    requires from <= to <= |list|
    ensures list[..from] + list[from..to] == list[..to]
  {
  }

  /** Where page `page` ends. */
  function End(total: nat, page: int, perPage: int): int
    requires 1 <= perPage
  {
    if page < CeilDiv(total, perPage) then page * perPage else total
  }

  lemma {:induction false} EndIsInside(total: nat, page: int, perPage: int)
    requires 1 <= perPage && 0 <= page <= CeilDiv(total, perPage)
    ensures 0 <= End(total, page, perPage) <= total
    ensures page >= 1 ==> End(total, page - 1, perPage) == (page - 1) * perPage <= End(total, page, perPage)
  {
    CeilDivBounds(total, perPage);
    if page >= 1 {
      PageStart(total, page, perPage);
    }
  }

  lemma {:induction false} PagesArePrefix<T>(list: seq<T>, perPage: int, n: nat)
    requires 1 <= perPage && n <= CeilDiv(|list|, perPage) && |list| < MAX_INT64
    ensures 0 <= End(|list|, n, perPage) <= |list|
    ensures Pages(list, perPage, n) == list[..End(|list|, n, perPage)]
  {
    EndIsInside(|list|, n, perPage);
    if n > 0 {
      PagesArePrefix(list, perPage, n - 1);
      PageIsInterval(list, n, perPage);
      AppendInterval(list, End(|list|, n - 1, perPage), End(|list|, n, perPage));
    } else {
      EmptyStart(list, perPage);
    }
  }

  lemma EmptyStart<T>(list: seq<T>, perPage: int)
    requires 1 <= perPage
    ensures End(|list|, 0, perPage) == 0
  {
    CeilDivBounds(|list|, perPage);
  }

  /** Reading pages 1 to the page count gives the whole list: no row lost, none repeated. */
  lemma {:induction false} PagesCoverList<T>(list: seq<T>, perPage: int)
    requires 1 <= perPage && |list| < MAX_INT64
    ensures Pages(list, perPage, CeilDiv(|list|, perPage)) == list
  {
    PagesArePrefix(list, perPage, CeilDiv(|list|, perPage));
  }

  lemma SliceIsEmptyIff<T>(list: seq<T>, limit: int, offset: int)
    requires limit >= 1
    ensures Slice(list, limit, offset) == [] <==> (list == [] || offset >= |list|)
  {
  }

  lemma {:induction false} LaterPagesStartPastEnd(total: nat, page: int, perPage: int)
    requires 1 <= perPage && CeilDiv(total, perPage) < page < MAX_INT64 && (page - 1) * perPage < MAX_INT64
    ensures Offset(page, perPage) >= total
  {
    CeilDivBounds(total, perPage);
    MulMonotone(perPage, CeilDiv(total, perPage), page - 1);
    OffsetFits(page, perPage);
  }

  /** Past the last page there is nothing to see exactly when the wrapped offset is past the end,
      which it always is while the offset fits in 64 bits. */
  lemma {:induction false} LaterPagesAreEmptyIff<T>(list: seq<T>, page: int, perPage: int)
    requires 1 <= perPage && CeilDiv(|list|, perPage) < page < MAX_INT64
    ensures PageOf(list, page, perPage) == [] <==> (list == [] || Offset(page, perPage) >= |list|)
    ensures (page - 1) * perPage < MAX_INT64 ==> PageOf(list, page, perPage) == []
  {
    SliceIsEmptyIff(list, perPage, Offset(page, perPage));
    if (page - 1) * perPage < MAX_INT64 {
      LaterPagesStartPastEnd(|list|, page, perPage);
    }
  }

  /** The witness: an offset that wraps to a negative number shows the first page again. */
  lemma {:induction false} OverflowShowsFirstPage<T>(list: seq<T>)
    requires list != []
    ensures PageOf(list, TWO62 + 1, 2) == PageOf(list, 1, 2) != []
  {
    WrapFits(TWO62);
    assert Offset(TWO62 + 1, 2) == -MAX_INT64;
    assert Offset(1, 2) == 0;
  }

  // ---- how long a page is ----------------------------------------------------------------

  /** A 64-bit page number whose offset does not overflow. */
  predicate OffsetFitsInt64(page: int, perPage: int) {
    1 <= page < MAX_INT64 && (page - 1) * perPage < MAX_INT64
  }

  /** How many of `total` rows a page shows. */
  function PageSize(total: nat, page: int, perPage: int): int {
    var from := (page - 1) * perPage;
    if from >= total then 0 else Min(perPage, total - from)
  }

  lemma PageOfLength<T>(list: seq<T>, page: int, perPage: int)
    requires 1 <= perPage && OffsetFitsInt64(page, perPage)
    ensures |PageOf(list, page, perPage)| == PageSize(|list|, page, perPage)
  {
    OffsetFits(page, perPage);
  }

  /** Different totals show on the page where the smaller one ends. */
  lemma {:induction false} SizesDiffer(a: nat, b: nat, perPage: int) returns (page: int)
    requires a != b && a < TWO53 && b < TWO53 && 1 <= perPage
    ensures OffsetFitsInt64(page, perPage) && PageSize(a, page, perPage) != PageSize(b, page, perPage)
  {
    var least := Min(a, b);
    var full := least / perPage;
    page := full + 1;
    assert full * perPage <= least < full * perPage + perPage;
    MulMonotone(full, 1, perPage);
    SmallerPage(least, if least == a then b else a, full, perPage);
  }

  lemma SmallerPage(a: nat, b: nat, full: nat, perPage: int)
    requires a < b && full * perPage <= a < full * perPage + perPage
    ensures PageSize(a, full + 1, perPage) < PageSize(b, full + 1, perPage)
  {
  }

  // ---- the page count through float64 ----------------------------------------------------

  function Pow2(e: nat): (r: nat)
    ensures r >= 1
  {
    if e == 0 then 1 else 2 * Pow2(e - 1)
  }

  function Abs(x: real): real { if x < 0.0 then -x else x }

  /** `x` is `m * 2^e`. */
  ghost predicate IsScaled(x: real, m: int, e: int) {
    if e >= 0 then x == (m * Pow2(e)) as real else x * (Pow2(-e) as real) == m as real
  }

  /** A finite binary64 number. */
  ghost predicate IsDouble(x: real) {
    exists m: int, e: int :: -TWO53 < m < TWO53 && -1074 <= e <= 971 && IsScaled(x, m, e)
  }

  /** `r` is what rounding `x` to nearest can give; either neighbour may win a tie. */
  ghost predicate Nearest(x: real, r: real) {
    IsDouble(r) && forall d :: IsDouble(d) ==> Abs(r - x) <= Abs(d - x)
  }

  /** `r` is `float64(total) / float64(perPage)`, each operation rounded. */
  ghost predicate FloatQuotient(total: int, perPage: int, a: real, b: real, r: real) {
    Nearest(total as real, a) && Nearest(perPage as real, b) && b != 0.0 && Nearest(a / b, r)
  }

  function Ceil(x: real): int { if x.Floor as real == x then x.Floor else x.Floor + 1 }

  lemma IntegersAreDoubles(n: nat)
    requires n <= TWO53
    ensures IsDouble(n as real)
  {
    if n < TWO53 {
      assert IsScaled(n as real, n, 0);
    } else {
      assert Pow2(1) == 2;
      assert IsScaled(n as real, TWO53 / 2, 1);
    }
  }

  lemma NearestToInteger(n: nat, r: real)
    requires n <= TWO53 && Nearest(n as real, r)
    ensures r == n as real
  {
    IntegersAreDoubles(n);
    assert Abs(n as real - n as real) == 0.0;
  }

  lemma {:induction false} Pow2Add(a: nat, b: nat)
    ensures Pow2(a + b) == Pow2(a) * Pow2(b)
  {
    if a > 0 { Pow2Add(a - 1, b); }
  }

  lemma Pow2OfTwenty()
    ensures Pow2(20) == 0x10_0000
  {
    assert Pow2(5) == 32;
    Pow2Add(5, 5);
    Pow2Add(10, 10);
  }

  lemma Pow2OfSixtyOne()
    ensures Pow2(61) == 0x2000_0000_0000_0000
  {
    Pow2OfTwenty();
    assert Pow2(40) == 0x100_0000_0000 by { Pow2Add(20, 20); }
    assert Pow2(60) == 0x1000_0000_0000_0000 by { Pow2Add(40, 20); }
  }

  /** A scale that puts `total / perPage` between 2^52 and 2^53. */
  lemma {:induction false} FindScale(total: nat, perPage: int, e: nat) returns (s: nat)
    requires 1 <= total && 1 <= perPage <= 100 && e <= 60 && total * Pow2(e) < TWO53 * perPage
    ensures s <= 60 && TWO53 * perPage <= 2 * total * Pow2(s) && total * Pow2(s) < TWO53 * perPage
    decreases 60 - e
  {
    if TWO53 * perPage <= 2 * total * Pow2(e) {
      s := e;
    } else {
      assert total * Pow2(e + 1) == 2 * total * Pow2(e);
      if e == 60 {
        MulMonotone(Pow2(61), 1, total);
        Pow2OfSixtyOne();
        assert false;
      }
      s := FindScale(total, perPage, e + 1);
    }
  }

  lemma DivideThenMultiply(a: real, b: real)
    requires b != 0.0
    ensures a / b * b == a
  {
  }

  lemma ScaledBelow(x: real, m: nat, e: int)
    requires m < TWO53 && 0 <= e <= 60 && x * (Pow2(e) as real) == m as real
    ensures IsDouble(x)
  {
    if e == 0 {
      assert IsScaled(x, m, 0);
    } else {
      assert IsScaled(x, m, -e);
    }
  }

  lemma HalveProduct(x: real, k: nat, m: nat)
    requires x * ((2 * k) as real) == (2 * m) as real
    ensures x * (k as real) == m as real
  {
    assert (2 * k) as real == 2.0 * k as real && (2 * m) as real == 2.0 * m as real;
  }

  /** `m / 2^e` is a double for every `m` up to 2^53. */
  lemma ScaledIsDouble(x: real, m: nat, e: nat)
    requires m <= TWO53 && e <= 60 && x * (Pow2(e) as real) == m as real
    ensures IsDouble(x)
  {
    if m < TWO53 {
      ScaledBelow(x, m, e);
    } else if e == 0 {
      IntegersAreDoubles(m);
    } else {
      HalveProduct(x, Pow2(e - 1), TWO53 / 2);
      ScaledBelow(x, TWO53 / 2, e - 1);
    }
  }

  /** `scaled / p` rounded to an integer. */
  lemma RoundQuotient(scaled: nat, p: int) returns (m: nat)
    requires 1 <= p
    ensures -p <= 2 * (m * p - scaled) <= p
    ensures scaled < TWO53 * p ==> m <= TWO53
  {
    m := (2 * scaled + p) / (2 * p);
    assert 2 * scaled + p == m * (2 * p) + (2 * scaled + p) % (2 * p);
    assert m * (2 * p) == 2 * (m * p);
    if m > TWO53 { MulMonotone(p, TWO53 + 1, m); }
  }

  lemma ScaleIsFine(total: nat, perPage: int, k: nat)
    requires 1 <= total < TWO53 && 1 <= perPage && TWO53 * perPage <= 2 * total * k
    ensures 2 * k > perPage
  {
    MulMonotone(perPage, total, TWO53 - 1);
    assert 2 * total * k == 2 * k * total;
    if 2 * k <= perPage {
      MulMonotone(total, 2 * k, perPage);
    }
  }

  /** `m / k` misses `total / perPage` by less than one `perPage`-th if the cross products do. */
  lemma QuotientError(m: nat, k: nat, total: nat, perPage: int)
    requires 1 <= k && 1 <= perPage && 2 * k > perPage
    requires -perPage <= 2 * (m * perPage - total * k) <= perPage
    ensures Abs(m as real / k as real - total as real / perPage as real) < 1.0 / perPage as real
  {
    var x, q := m as real / k as real, total as real / perPage as real;
    var kr, pr := k as real, perPage as real;
    var gap := x - q;
    assert x * kr == m as real && q * pr == total as real;
    assert gap * (kr * pr) == (x * kr) * pr - (q * pr) * kr;
    assert gap * (kr * pr) == (m * perPage - total * k) as real;
    ScaleDown(gap, kr, pr, (m * perPage - total * k) as real);
  }

  lemma SmallFactor(g: real, k: real, product: real)
    requires k > 0.0 && g * k == product && -k < product < k
    ensures -1.0 < g < 1.0
  {
    assert g == product / k;
  }

  lemma ScaleDown(gap: real, k: real, p: real, error: real)
    requires k > 0.0 && p > 0.0 && 2.0 * k > p && gap * (k * p) == error && -p <= 2.0 * error <= p
    ensures Abs(gap) < 1.0 / p
  {
    var g := gap * p;
    assert g * k == error;
    SmallFactor(g, k, error);
    assert gap == g / p;
  }

  lemma RoundedIsClose(total: nat, perPage: int, m: nat, k: nat)
    requires 1 <= total < TWO53 && 1 <= perPage && 1 <= k && TWO53 * perPage <= 2 * total * k
    requires -perPage <= 2 * (m * perPage - total * k) <= perPage
    ensures Abs(m as real / k as real - total as real / perPage as real) < 1.0 / perPage as real
  {
    ScaleIsFine(total, perPage, k);
    QuotientError(m, k, total, perPage);
  }

  lemma ScaledCloseDouble(total: nat, perPage: int, s: nat, k: nat) returns (d: real)
    requires 1 <= total < TWO53 && 1 <= perPage <= 100 && s <= 60 && k == Pow2(s)
    requires TWO53 * perPage <= 2 * total * k && total * k < TWO53 * perPage
    ensures IsDouble(d) && Abs(d - total as real / perPage as real) < 1.0 / perPage as real
  {
    var m := RoundQuotient(total * k, perPage);
    d := m as real / k as real;
    assert IsDouble(d) by {
      DivideThenMultiply(m as real, k as real);
      ScaledIsDouble(d, m, s);
    }
    RoundedIsClose(total, perPage, m, k);
  }

  /** Some double is closer to `total / perPage` than one `perPage`-th. */
  lemma CloseDouble(total: nat, perPage: int) returns (d: real)
    requires 1 <= total < TWO53 && 1 <= perPage <= 100
    ensures IsDouble(d) && Abs(d - total as real / perPage as real) < 1.0 / perPage as real
  {
    assert total * Pow2(0) == total;
    var s := FindScale(total, perPage, 0);
    d := ScaledCloseDouble(total, perPage, s, Pow2(s));
  }

  /** `int(math.Ceil(float64(total) / float64(perPage)))` is the exact number of pages. */
  lemma FloatPageCountIsExact(total: nat, perPage: int, a: real, b: real, r: real)
    requires total < TWO53 && 1 <= perPage <= 100 && FloatQuotient(total, perPage, a, b, r)
    ensures Ceil(r) == CeilDiv(total, perPage)
  {
    NearestToInteger(total, a);
    NearestToInteger(perPage, b);
    var q := total as real / perPage as real;
    var n := CeilDiv(total, perPage);
    CeilDivBounds(total, perPage);
    if total == 0 {
      NearestToInteger(0, r);
    } else {
      MulMonotone(n, 1, perPage);
      assert n <= total by { assert n * perPage < total + perPage; CeilDivSmall(total, perPage); }
      IntegersAreDoubles(n);
      QuotientBounds(total, perPage, n);
      assert r <= n as real by {
        assert Abs(r - q) <= Abs(n as real - q);
      }
      var d := CloseDouble(total, perPage);
      assert r > (n - 1) as real by {
        assert Abs(r - q) <= Abs(d - q);
      }
      CeilIs(r, n);
    }
  }

  lemma {:induction false} CeilDivSmall(total: nat, perPage: int)
    requires perPage >= 1
    ensures CeilDiv(total, perPage) <= total
  {
    CeilDivBounds(total, perPage);
    if CeilDiv(total, perPage) > total {
      MulMonotone(perPage, total, CeilDiv(total, perPage) - 1);
      MulMonotone(total, 1, perPage);
    }
  }

  lemma QuotientBounds(total: nat, perPage: int, n: nat)
    requires 1 <= perPage && (n - 1) * perPage < total <= n * perPage
    ensures total as real / perPage as real <= n as real
    ensures total as real / perPage as real - (n - 1) as real >= 1.0 / perPage as real
  {
    var p, q := perPage as real, total as real / perPage as real;
    assert q * p == total as real;
    assert ((n - 1) * perPage) as real == (n - 1) as real * p && (n * perPage) as real == n as real * p;
    assert (q - (n - 1) as real) * p >= 1.0;
    assert (n as real - q) * p >= 0.0;
    DivideBy(q - (n - 1) as real, p, 1.0);
    DivideBy(n as real - q, p, 0.0);
  }

  lemma DivideBy(x: real, p: real, y: real)
    requires p > 0.0 && x * p >= y
    ensures x >= y / p
  {
    assert x == x * p / p;
  }

  lemma CeilIs(r: real, n: int)
    requires (n - 1) as real < r <= n as real
    ensures Ceil(r) == n
  {
  }
}
