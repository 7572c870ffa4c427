/**
 * The diary record and the pure parts of the listing query: the page/limit
 * clamp, the owner/keyword/date filter, the newest-first order and the
 * offset window.
 *
 * Schema note: the `diaries` entity declares id, user, journal_date, content,
 * created_at and updated_at but no `title` or `mood` column, and the web
 * client's Diary type omits both as well; the service nevertheless writes and
 * filters on them. This model follows the service: `title` is a required
 * string and `mood` an optional one.
 */
module DiaryModel {
  import opened Wrappers
  import opened Text

  /** A stored diary. `createdAt`/`updatedAt` are ticks of the store's clock. */
  datatype Diary = Diary(
    id: nat,
    owner: nat,
    title: string,
    content: string,
    journalDate: string,
    mood: Option<string>,
    createdAt: nat,
    updatedAt: nat)

  /** What `create` receives; a `null` and a missing mood are the same input. */
  datatype CreateInput = CreateInput(title: string, content: string, journalDate: string, mood: Nullable<string>)

  /** What `update` receives: each field may be missing; `mood` may also be an explicit `null`. */
  datatype UpdateInput = UpdateInput(
    title: Option<string>,
    content: Option<string>,
    journalDate: Option<string>,
    mood: Nullable<string>)

  /** The listing query; every field may be missing. */
  datatype Query = Query(
    page: Option<int>,
    limit: Option<int>,
    keyword: Option<string>,
    fromDate: Option<string>,
    toDate: Option<string>)

  /** One page of a listing: the window of items, the count of all matches, and the page/limit used. */
  datatype Page = Page(items: seq<Diary>, total: nat, page: int, limit: int)

  const DefaultPage := 1
  const DefaultLimit := 10
  const MaxLimit := 100

  /** `Math.max(1, page ?? 1)` */
  function ClampPage(page: Option<int>): (r: int)
    ensures r >= 1
    ensures page.Some? && page.value >= 1 ==> r == page.value
    ensures page.None? ==> r == DefaultPage
    ensures page.Some? && page.value < 1 ==> r == 1
  {
    var p := if page.Some? then page.value else DefaultPage;
    if p < 1 then 1 else p
  }

  /** `Math.min(100, Math.max(1, limit ?? 10))` */
  function ClampLimit(limit: Option<int>): (r: int)
    ensures 1 <= r <= MaxLimit
    ensures limit.Some? && 1 <= limit.value <= MaxLimit ==> r == limit.value
    ensures limit.None? ==> r == DefaultLimit
    ensures limit.Some? && limit.value < 1 ==> r == 1
    ensures limit.Some? && limit.value > MaxLimit ==> r == MaxLimit
  {
    var l := if limit.Some? then limit.value else DefaultLimit;
    var atLeastOne := if l < 1 then 1 else l;
    if atLeastOne > MaxLimit then MaxLimit else atLeastOne
  }

  /** The row passes every active filter of the query; empty or missing filters are inactive. */
  predicate PassesFilters(d: Diary, q: Query) {
    && (Truthy(q.keyword) ==> Contains(d.title, q.keyword.value) || Contains(d.content, q.keyword.value))
    && (Truthy(q.fromDate) ==> !LexLess(d.journalDate, q.fromDate.value))
    && (Truthy(q.toDate) ==> !LexLess(q.toDate.value, d.journalDate))
  }

  /** The row is listed for `userId` under query `q`. */
  predicate Matches(d: Diary, userId: nat, q: Query) {
    d.owner == userId && PassesFilters(d, q)
  }

  /** The rows listed for `userId`, in table order. */
  function Filter(rows: seq<Diary>, userId: nat, q: Query): (r: seq<Diary>)
    ensures |r| <= |rows|
    ensures forall d :: d in r <==> d in rows && Matches(d, userId, q)
    ensures multiset(r) <= multiset(rows)
    ensures forall d :: multiset(r)[d] == if Matches(d, userId, q) then multiset(rows)[d] else 0
  {
    if rows == [] then []
    else
      var rest := Filter(rows[..|rows| - 1], userId, q);
      var last := rows[|rows| - 1];
      assert rows == rows[..|rows| - 1] + [last];
      if Matches(last, userId, q) then rest + [last] else rest
  }

  /** Sorting keeps exactly the same diaries. */
  lemma SortMembers(s: seq<Diary>)
    ensures forall d :: d in Sort(s) <==> d in s
  {
    forall d ensures d in Sort(s) <==> d in s {
      assert d in Sort(s) <==> d in multiset(Sort(s));
      assert d in s <==> d in multiset(s);
    }
  }

  /** The rows owned by `userId`, in table order. */
  function OwnedBy(rows: seq<Diary>, userId: nat): (r: seq<Diary>)
    ensures forall d :: d in r <==> d in rows && d.owner == userId
    ensures forall d :: multiset(r)[d] == if d.owner == userId then multiset(rows)[d] else 0
  {
    if rows == [] then []
    else
      var rest := OwnedBy(rows[..|rows| - 1], userId);
      var last := rows[|rows| - 1];
      assert rows == rows[..|rows| - 1] + [last];
      if last.owner == userId then rest + [last] else rest
  }

  /**
   * Owner isolation: the listing of `userId` depends only on that user's own
   * rows; whatever other owners have stored is invisible to it.
   */
  lemma {:induction false} FilterSeesOnlyOwner(rows: seq<Diary>, userId: nat, q: Query)
    ensures Filter(rows, userId, q) == Filter(OwnedBy(rows, userId), userId, q)
  {
    if rows != [] {
      var init := rows[..|rows| - 1];
      var last := rows[|rows| - 1];
      FilterSeesOnlyOwner(init, userId, q);
      var owned := OwnedBy(init, userId);
      if last.owner == userId {
        assert OwnedBy(rows, userId) == owned + [last];
        assert (owned + [last])[..|owned + [last]| - 1] == owned;
      } else {
        assert OwnedBy(rows, userId) == owned;
      }
    }
  }

  /** `a` is listed strictly before `b`: later journal date first, then later creation first. */
  predicate Before(a: Diary, b: Diary) {
    LexLess(b.journalDate, a.journalDate) || (a.journalDate == b.journalDate && a.createdAt > b.createdAt)
  }

  lemma BeforeTransitive(a: Diary, b: Diary, c: Diary)
    requires Before(a, b) && Before(b, c)
    ensures Before(a, c)
  {
    if LexLess(b.journalDate, a.journalDate) && LexLess(c.journalDate, b.journalDate) {
      LexTransitive(c.journalDate, b.journalDate, a.journalDate);
    }
  }

  lemma BeforeAsymmetric(a: Diary, b: Diary)
    requires Before(a, b)
    ensures !Before(b, a)
  {
    if LexLess(b.journalDate, a.journalDate) {
      LexAsymmetric(b.journalDate, a.journalDate);
      LexIrreflexive(a.journalDate);
    } else {
      LexIrreflexive(a.journalDate);
    }
  }

  lemma BeforeIrreflexive(a: Diary)
    ensures !Before(a, a)
  {
    LexIrreflexive(a.journalDate);
  }

  /** Whatever is not before `c` is not before anything that precedes `c`. */
  lemma BeforeTransitiveContra(a: Diary, b: Diary, c: Diary)
    requires Before(b, c) && !Before(a, c)
    ensures !Before(a, b)
  {
    if Before(a, b) {
      BeforeTransitive(a, b, c);
    }
  }

  /** Two rows with different creation times are ordered one way or the other. */
  lemma BeforeTotal(a: Diary, b: Diary)
    requires a.createdAt != b.createdAt
    ensures Before(a, b) || Before(b, a)
  {
    if a.journalDate != b.journalDate {
      LexTotal(a.journalDate, b.journalDate);
    }
  }

  /** No item is listed after an item it should precede. */
  predicate NewestFirst(s: seq<Diary>) {
    forall i, j :: 0 <= i < j < |s| ==> !Before(s[j], s[i])
  }

  /** Journal dates never increase along `s`. */
  predicate DatesDescending(s: seq<Diary>) {
    forall i, j :: 0 <= i < j < |s| ==> !LexLess(s[i].journalDate, s[j].journalDate)
  }

  lemma NewestFirstDatesDescending(s: seq<Diary>)
    requires NewestFirst(s)
    ensures DatesDescending(s)
  {
    forall i, j | 0 <= i < j < |s|
      ensures !LexLess(s[i].journalDate, s[j].journalDate)
    {
      assert !Before(s[j], s[i]);
    }
  }

  /** Places `d` into the newest-first sequence `s`, after every item it does not precede. */
  function Insert(d: Diary, s: seq<Diary>): (r: seq<Diary>)
    ensures multiset(r) == multiset(s) + multiset{d}
    ensures |r| == |s| + 1
  {
    if s == [] then [d]
    else if Before(d, s[0]) then [d] + s
    else
      assert s == [s[0]] + s[1..];
      [s[0]] + Insert(d, s[1..])
  }

  /** An item that no item of `s` precedes may go in front of `s`. */
  lemma PrependNewestFirst(x: Diary, s: seq<Diary>)
    requires NewestFirst(s)
    requires forall y :: y in s ==> !Before(y, x)
    ensures NewestFirst([x] + s)
  {
    var r := [x] + s;
    forall i, j | 0 <= i < j < |r| ensures !Before(r[j], r[i]) {
      if i == 0 {
        assert r[j] == s[j - 1] && r[j] in s;
      } else {
        assert r[i] == s[i - 1] && r[j] == s[j - 1];
      }
    }
  }

  lemma {:induction false} InsertNewestFirst(d: Diary, s: seq<Diary>)
    requires NewestFirst(s)
    ensures NewestFirst(Insert(d, s))
  {
    if s == [] {
    } else if Before(d, s[0]) {
      forall y | y in s ensures !Before(y, d) {
        var k :| 0 <= k < |s| && s[k] == y;
        if k == 0 {
          BeforeIrreflexive(s[0]);
        }
        BeforeTransitiveContra(y, d, s[0]);
      }
      PrependNewestFirst(d, s);
    } else {
      var tail := s[1..];
      NewestFirstTail(s);
      InsertNewestFirst(d, tail);
      var rest := Insert(d, tail);
      forall y | y in rest ensures !Before(y, s[0]) {
        assert y in multiset(rest);
        if y != d {
          assert y in multiset(tail);
          var k :| 0 <= k < |tail| && tail[k] == y;
          assert s[k + 1] == y;
        }
      }
      PrependNewestFirst(s[0], rest);
    }
  }

  /** The newest-first arrangement of `s` (the `ORDER BY journalDate DESC, createdAt DESC`). */
  function Sort(s: seq<Diary>): (r: seq<Diary>)
    ensures NewestFirst(r)
    ensures multiset(r) == multiset(s)
    ensures |r| == |s|
  {
    if s == [] then []
    else
      assert s == [s[0]] + s[1..];
      var rest := Sort(s[1..]);
      InsertNewestFirst(s[0], rest);
      Insert(s[0], rest)
  }

  /** Creation times are pairwise distinct, as the store's clock guarantees. */
  predicate CreatedDistinct(s: seq<Diary>) {
    forall i, j :: 0 <= i < j < |s| ==> s[i].createdAt != s[j].createdAt
  }

  lemma {:induction false} CreatedDistinctTail(s: seq<Diary>)
    requires |s| > 0 && CreatedDistinct(s)
    ensures CreatedDistinct(s[1..])
  {
    forall i, j | 0 <= i < j < |s| - 1 ensures s[1..][i].createdAt != s[1..][j].createdAt {
      assert s[1..][i] == s[i + 1] && s[1..][j] == s[j + 1];
    }
  }

  /** In a newest-first sequence with distinct creation times, the head precedes every other item. */
  lemma HeadPrecedesAll(a: seq<Diary>, x: Diary)
    requires NewestFirst(a) && CreatedDistinct(a)
    requires x in a
    ensures x == a[0] || Before(a[0], x)
  {
    var k :| 0 <= k < |a| && a[k] == x;
    if k != 0 {
      assert !Before(a[k], a[0]);
      BeforeTotal(a[0], a[k]);
    }
  }

  /** Two newest-first arrangements of one collection start with the same item. */
  lemma HeadsAgree(a: seq<Diary>, b: seq<Diary>)
    requires NewestFirst(a) && NewestFirst(b) && CreatedDistinct(a)
    requires multiset(a) == multiset(b) && |a| > 0
    ensures |b| > 0 && a[0] == b[0]
  {
    assert |a| == |multiset(a)| == |multiset(b)| == |b|;
    assert b[0] in multiset(a) && a[0] in multiset(b);
    HeadPrecedesAll(a, b[0]);
    var j :| 0 <= j < |b| && b[j] == a[0];
    if j != 0 {
      assert !Before(b[j], b[0]);
    }
  }

  lemma MultisetTails(a: seq<Diary>, b: seq<Diary>)
    requires multiset(a) == multiset(b) && |a| > 0 && |b| > 0 && a[0] == b[0]
    ensures multiset(a[1..]) == multiset(b[1..])
  {
    assert a == [a[0]] + a[1..] && b == [b[0]] + b[1..];
    calc {
      multiset(a[1..]);
      multiset(a) - multiset{a[0]};
      multiset(b) - multiset{b[0]};
      multiset(b[1..]);
    }
  }

  lemma NewestFirstTail(a: seq<Diary>)
    requires |a| > 0 && NewestFirst(a)
    ensures NewestFirst(a[1..])
  {
    var t := a[1..];
    forall i, j | 0 <= i < j < |t| ensures !Before(t[j], t[i]) {
      assert t[i] == a[i + 1] && t[j] == a[j + 1];
    }
  }

  /**
   * With distinct creation times the order is total, so there is exactly one
   * newest-first arrangement of a collection: any two agree element by element.
   */
  lemma {:induction false} NewestFirstUnique(a: seq<Diary>, b: seq<Diary>)
    requires NewestFirst(a) && NewestFirst(b)
    requires multiset(a) == multiset(b)
    requires CreatedDistinct(a)
    ensures a == b
    decreases |a|
  {
    if |a| == 0 {
      assert |b| == |multiset(b)| == 0;
    } else {
      HeadsAgree(a, b);
      MultisetTails(a, b);
      CreatedDistinctTail(a);
      NewestFirstTail(a);
      NewestFirstTail(b);
      NewestFirstUnique(a[1..], b[1..]);
      assert a == [a[0]] + a[1..] && b == [b[0]] + b[1..];
    }
  }

  /** Distinct creation times survive filtering. */
  lemma {:induction false} FilterKeepsCreatedDistinct(rows: seq<Diary>, userId: nat, q: Query)
    requires CreatedDistinct(rows)
    ensures CreatedDistinct(Filter(rows, userId, q))
  {
    if rows != [] {
      var init := rows[..|rows| - 1];
      var last := rows[|rows| - 1];
      assert CreatedDistinct(init) by {
        forall i, j | 0 <= i < j < |init| ensures init[i].createdAt != init[j].createdAt {
          assert init[i] == rows[i] && init[j] == rows[j];
        }
      }
      FilterKeepsCreatedDistinct(init, userId, q);
      var rest := Filter(init, userId, q);
      if Matches(last, userId, q) {
        var r := rest + [last];
        forall i, j | 0 <= i < j < |r| ensures r[i].createdAt != r[j].createdAt {
          if j == |r| - 1 {
            assert r[i] in init;
            var k :| 0 <= k < |init| && init[k] == r[i];
            assert rows[k] == r[i] && rows[|rows| - 1] == last;
          } else {
            assert r[i] == rest[i] && r[j] == rest[j];
          }
        }
      }
    }
  }

  /** Offset of page `page` when pages hold `limit` items. */
  function Offset(page: int, limit: int): (r: nat)
    requires page >= 1 && limit >= 1
    ensures page == 1 ==> r == 0
  {
    (page - 1) * limit
  }

  /** `OFFSET o LIMIT l` on `s`. */
  function Window(s: seq<Diary>, offset: nat, limit: nat): (r: seq<Diary>)
    ensures |r| <= limit
    ensures |r| == if offset >= |s| then 0 else if |s| - offset < limit then |s| - offset else limit
    ensures forall k :: 0 <= k < |r| ==> r[k] == s[offset + k]
  {
    if offset >= |s| then [] else s[offset..if offset + limit <= |s| then offset + limit else |s|]
  }

  /** Two adjacent windows of one size make up the window of twice that size. */
  lemma WindowsTile(s: seq<Diary>, offset: nat, limit: nat)
    ensures Window(s, offset, limit) + Window(s, offset + limit, limit) == Window(s, offset, 2 * limit)
  {
    var a, b, c := Window(s, offset, limit), Window(s, offset + limit, limit), Window(s, offset, 2 * limit);
    assert |a + b| == |c|;
    forall k | 0 <= k < |c| ensures (a + b)[k] == c[k] {
      if k >= |a| {
        assert (a + b)[k] == b[k - limit];
      }
    }
  }

  /**
   * Consecutive pages tile the listing: the next page starts where this one
   * ends, and the two together are the window of twice the size.
   */
  lemma PagesTile(s: seq<Diary>, page: int, limit: int)
    requires page >= 1 && limit >= 1
    ensures Offset(page + 1, limit) == Offset(page, limit) + limit
    ensures Window(s, Offset(page, limit), limit) + Window(s, Offset(page + 1, limit), limit)
         == Window(s, Offset(page, limit), 2 * limit)
  {
    assert page * limit == (page - 1) * limit + limit;
    WindowsTile(s, Offset(page, limit), limit);
  }

  /** Item `k` of `s` is item `k - offset` of every window that covers it. */
  lemma WindowCovers(s: seq<Diary>, offset: nat, limit: nat, k: nat)
    requires offset <= k < offset + limit && k < |s|
    ensures k - offset < |Window(s, offset, limit)| && Window(s, offset, limit)[k - offset] == s[k]
  {
  }

  /** Later pages start at least a whole page further on. */
  lemma {:induction false} OffsetMonotone(p: int, p': int, limit: int)
    requires 1 <= p < p' && limit >= 1
    ensures Offset(p, limit) + limit <= Offset(p', limit)
    decreases p' - p
  {
    var q := p' - 1;
    assert Offset(p', limit) == Offset(q, limit) + limit by {
      assert (q - 1) * limit + limit == q * limit;
    }
    if p < q {
      OffsetMonotone(p, q, limit);
    }
  }

  /** The page that holds item `k` of a listing. */
  function PageOf(k: nat, limit: int): (p: int)
    requires limit >= 1
    ensures p >= 1 && Offset(p, limit) <= k < Offset(p, limit) + limit
    decreases k
  {
    if k < limit then 1
    else
      var q := PageOf(k - limit, limit);
      assert q * limit == (q - 1) * limit + limit;
      q + 1
  }

  /**
   * Pages partition the listing: item `k` appears on page `PageOf(k, limit)`,
   * at position `k - Offset(...)`, and on no other page.
   */
  lemma ItemOnItsPage(s: seq<Diary>, k: nat, limit: int, other: int)
    requires k < |s| && limit >= 1 && other >= 1
    ensures var o := Offset(PageOf(k, limit), limit);
      k - o < |Window(s, o, limit)| && Window(s, o, limit)[k - o] == s[k]
    ensures Offset(other, limit) <= k < Offset(other, limit) + limit ==> other == PageOf(k, limit)
  {
    var p := PageOf(k, limit);
    WindowCovers(s, Offset(p, limit), limit, k);
    if other < p {
      OffsetMonotone(other, p, limit);
    } else if other > p {
      OffsetMonotone(p, other, limit);
    }
  }

  /** The number of items on page `page` of `total` matches, `limit` per page. */
  function PageSize(total: nat, page: int, limit: int): (r: nat)
    requires page >= 1 && limit >= 1
    ensures r <= limit
    ensures r > 0 <==> Offset(page, limit) < total
    ensures Offset(page, limit) + limit <= total ==> r == limit
  {
    var off := (page - 1) * limit;
    if off >= total then 0 else if total - off < limit then total - off else limit
  }

  /** The page size is the length of that page's OFFSET/LIMIT window of the listing. */
  lemma PageSizeIsWindowLength(s: seq<Diary>, page: int, limit: int)
    requires page >= 1 && limit >= 1
    ensures PageSize(|s|, page, limit) == |Window(s, Offset(page, limit), limit)|
  {
  }

  /** The shortened items of a listing form a run: a window of a newest-first sequence is newest first. */
  lemma WindowNewestFirst(s: seq<Diary>, offset: nat, limit: nat)
    requires NewestFirst(s)
    ensures NewestFirst(Window(s, offset, limit))
  {
    var w := Window(s, offset, limit);
    forall i, j | 0 <= i < j < |w| ensures !Before(w[j], w[i]) {
      assert w[i] == s[offset + i] && w[j] == s[offset + j];
    }
  }

  /** The fields of `d` after applying `input` at clock tick `now`. */
  function ApplyUpdate(d: Diary, input: UpdateInput, now: nat): (r: Diary)
    ensures r.id == d.id && r.owner == d.owner && r.createdAt == d.createdAt && r.updatedAt == now
    ensures r.title == (if input.title.Some? then input.title.value else d.title)
    ensures r.content == (if input.content.Some? then input.content.value else d.content)
    ensures r.journalDate == (if input.journalDate.Some? then input.journalDate.value else d.journalDate)
    ensures input.mood.Undefined? ==> r.mood == d.mood
    ensures input.mood.Null? ==> r.mood == None
    ensures input.mood.Defined? ==> r.mood == Some(input.mood.value)
  {
    d.(
      title := if input.title.Some? then input.title.value else d.title,
      content := if input.content.Some? then input.content.value else d.content,
      journalDate := if input.journalDate.Some? then input.journalDate.value else d.journalDate,
      mood := if input.mood.Undefined? then d.mood else Coalesce(input.mood),
      updatedAt := now)
  }

  /** An update with no fields present changes nothing but the update time. */
  lemma EmptyUpdateTouchesOnlyTime(d: Diary, now: nat)
    ensures ApplyUpdate(d, UpdateInput(None, None, None, Undefined), now) == d.(updatedAt := now)
  {
  }

  /** Applying the same update twice leaves the same fields as applying it once. */
  lemma UpdateIdempotent(d: Diary, input: UpdateInput, t1: nat, t2: nat)
    ensures ApplyUpdate(ApplyUpdate(d, input, t1), input, t2) == ApplyUpdate(d, input, t2)
  {
  }

  /** The row `create` stores for `input` under id `id` at clock tick `now`. */
  function NewDiary(id: nat, userId: nat, input: CreateInput, now: nat): (d: Diary)
    ensures d.id == id && d.owner == userId && d.createdAt == now && d.updatedAt == now
    ensures d.title == input.title && d.content == input.content && d.journalDate == input.journalDate
    ensures d.mood.Some? <==> input.mood.Defined?
    ensures d.mood.Some? ==> d.mood.value == input.mood.value
  {
    Diary(id, userId, input.title, input.content, input.journalDate, Coalesce(input.mood), now, now)
  }
}
