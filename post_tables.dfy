/**
 * The two tables of the post module and the read queries of the `Post`
 * store over them: `post(id, title, content)` and
 * `transaction(id, post_id, content, balance, timeStamp)`.
 *
 * A table is the sequence of its rows in insertion order. Ids come from an
 * auto-increment counter, so under the store invariant insertion order is
 * ascending id order, and the queries without ORDER BY return rows in it.
 */
module PostTables {
  import opened Wrappers

  /** A `post` row as the queries select it (`id`, `title`, `content`). */
  datatype PostRow = PostRow(id: int, title: string, content: string)

  /** A `transaction` row; `balance` and `timeStamp` are text columns, not numbers. */
  datatype TransactionRow = TransactionRow(id: int, postId: int, content: string, balance: string, timeStamp: string)

  /** What `getTransaction` selects: every column except `post_id`. */
  datatype TransactionView = TransactionView(id: int, content: string, balance: string, timeStamp: string)

  function View(t: TransactionRow): TransactionView {
    TransactionView(t.id, t.content, t.balance, t.timeStamp)
  }

  function Min(a: int, b: int): int {
    if a <= b then a else b
  }

  /** Insertion order is strictly ascending by id: what an auto-increment key gives. */
  predicate IdsAscending(posts: seq<PostRow>) {
    forall i, j :: 0 <= i < j < |posts| ==> posts[i].id < posts[j].id
  }

  predicate IdsDescending(posts: seq<PostRow>) {
    forall i, j :: 0 <= i < j < |posts| ==> posts[i].id > posts[j].id
  }

  predicate TransactionIdsAscending(txs: seq<TransactionRow>) {
    forall i, j :: 0 <= i < j < |txs| ==> txs[i].id < txs[j].id
  }

  /** Auto-increment keys start at 1. */
  predicate PositiveIds(posts: seq<PostRow>) {
    forall p :: p in posts ==> 1 <= p.id
  }

  predicate HasPost(posts: seq<PostRow>, id: int) {
    exists p :: p in posts && p.id == id
  }

  predicate HasTransaction(txs: seq<TransactionRow>, id: int) {
    exists t :: t in txs && t.id == id
  }

  // ---------------------------------------------------------------------------
  // Filters (WHERE clauses)

  /** `WHERE id < bound`, in table order. */
  function Below(posts: seq<PostRow>, bound: int): (r: seq<PostRow>)
    ensures |r| <= |posts|
    ensures forall p :: p in r <==> p in posts && p.id < bound
  {
    if posts == [] then []
    else (if posts[0].id < bound then [posts[0]] else []) + Below(posts[1..], bound)
  }

  /** The WHERE clause of `postsPagination`: no condition when `after <= 0`, else `id < after`. */
  function Where(posts: seq<PostRow>, after: int): (r: seq<PostRow>)
    ensures forall p :: p in r <==> p in posts && (after > 0 ==> p.id < after)
  {
    if after > 0 then Below(posts, after) else posts
  }

  /** `WHERE id <> id` on `post`: the rows a delete of `id` leaves. */
  function WithoutPost(posts: seq<PostRow>, id: int): (r: seq<PostRow>)
    ensures |r| <= |posts|
    ensures forall p :: p in r <==> p in posts && p.id != id
  {
    if posts == [] then []
    else (if posts[0].id != id then [posts[0]] else []) + WithoutPost(posts[1..], id)
  }

  /** The `transaction` rows a delete of transaction `id` leaves. */
  function WithoutTransaction(txs: seq<TransactionRow>, id: int): (r: seq<TransactionRow>)
    ensures |r| <= |txs|
    ensures forall t :: t in r <==> t in txs && t.id != id
  {
    if txs == [] then []
    else (if txs[0].id != id then [txs[0]] else []) + WithoutTransaction(txs[1..], id)
  }

  /** The `transaction` rows an ON DELETE CASCADE from post `postId` leaves. */
  function WithoutChildren(txs: seq<TransactionRow>, postId: int): (r: seq<TransactionRow>)
    ensures |r| <= |txs|
    ensures forall t :: t in r <==> t in txs && t.postId != postId
  {
    if txs == [] then []
    else (if txs[0].postId != postId then [txs[0]] else []) + WithoutChildren(txs[1..], postId)
  }

  // ---------------------------------------------------------------------------
  // Read queries

  /** Rows in the reverse of their order. */
  function Reverse(s: seq<PostRow>): (r: seq<PostRow>)
    ensures |r| == |s|
    ensures forall i :: 0 <= i < |s| ==> r[i] == s[|s| - 1 - i]
  {
    if s == [] then [] else Reverse(s[1..]) + [s[0]]
  }

  /**
   * `postsPagination(limit, after)`: the selected rows ordered by id
   * descending, at most `limit` of them. Descending order is the reverse of
   * table order because the table is kept in ascending id order.
   */
  function PostsPagination(posts: seq<PostRow>, limit: nat, after: int): (page: seq<PostRow>)
    requires IdsAscending(posts)
    ensures |page| == Min(limit, |Where(posts, after)|)
  {
    var rows := Reverse(Where(posts, after));
    if |rows| <= limit then rows else rows[..limit]
  }

  /** The set of distinct ids among some rows. */
  function IdSet(posts: seq<PostRow>): (ids: set<int>)
    ensures forall id :: id in ids <==> HasPost(posts, id)
    ensures |ids| <= |posts|
  {
    if posts == [] then {}
    else
      assert forall p :: p in posts <==> p == posts[0] || p in posts[1..];
      var rest := IdSet(posts[1..]);
      assert |{posts[0].id} + rest| <= |rest| + 1 by {
        if posts[0].id in rest {
          assert {posts[0].id} + rest == rest;
        }
      }
      {posts[0].id} + rest
  }

  /** `getTotal`: `countDistinct('id')` over the whole `post` table. */
  function GetTotal(posts: seq<PostRow>): (count: nat)
    ensures count <= |posts|
    ensures count == 0 <==> posts == []
  {
    var ids := IdSet(posts);
    assert posts != [] ==> posts[0].id in ids;
    |ids|
  }

  /** `getNextPageFlag(id)`: `countDistinct('id')` over the posts with id below `id`. */
  function GetNextPageFlag(posts: seq<PostRow>, id: int): (count: nat)
    ensures count <= |posts|
    ensures count <= GetTotal(posts)
  {
    var below := Below(posts, id);
    BelowIds(posts, id);
    SubsetCard(IdSet(below), IdSet(posts));
    |IdSet(below)|
  }

  /** The ids below a bound are ids of the table. */
  lemma BelowIds(posts: seq<PostRow>, bound: int)
    ensures IdSet(Below(posts, bound)) <= IdSet(posts)
  {
    forall k | k in IdSet(Below(posts, bound)) ensures k in IdSet(posts) {
      var p :| p in Below(posts, bound) && p.id == k;
      assert HasPost(posts, k);
    }
  }

  /** A subset is no larger than its superset. */
  lemma SubsetCard(a: set<int>, b: set<int>)
    requires a <= b
    ensures |a| <= |b|
  {
    assert b == a + (b - a);
  }

  /** `post(id)`: the first row with that id, or nothing. */
  function FindPost(posts: seq<PostRow>, id: int): (r: Option<PostRow>)
    ensures r.Some? <==> HasPost(posts, id)
    ensures r.Some? ==> r.value in posts && r.value.id == id
  {
    if posts == [] then None
    else if posts[0].id == id then Some(posts[0])
    else FindPost(posts[1..], id)
  }

  /** `getTransaction(id)`: the first row with that id without its `post_id`, or nothing. */
  function GetTransaction(txs: seq<TransactionRow>, id: int): (r: Option<TransactionView>)
    ensures r.Some? <==> HasTransaction(txs, id)
    ensures r.Some? ==> exists t :: t in txs && t.id == id && r.value == View(t)
  {
    if txs == [] then None
    else if txs[0].id == id then Some(View(txs[0]))
    else GetTransaction(txs[1..], id)
  }

  /** `getTransactionsForPostIds(postIds)`: `whereIn('post_id', postIds)`, in table order. */
  function GetTransactionsForPostIds(txs: seq<TransactionRow>, postIds: seq<int>): (r: seq<TransactionRow>)
    ensures |r| <= |txs|
    ensures forall t :: t in r <==> t in txs && t.postId in postIds
  {
    if txs == [] then []
    else (if txs[0].postId in postIds then [txs[0]] else []) + GetTransactionsForPostIds(txs[1..], postIds)
  }

  // ---------------------------------------------------------------------------
  // Counting

  /** On a table with distinct ids the distinct-id count is the row count. */
  lemma {:induction false} TotalCountsRows(posts: seq<PostRow>)
    requires IdsAscending(posts)
    ensures GetTotal(posts) == |posts|
  {
    if posts != [] {
      var rest := posts[1..];
      TotalCountsRows(rest);
      assert posts[0].id !in IdSet(rest) by {
        forall p | p in rest ensures p.id != posts[0].id {
          var k :| 0 <= k < |rest| && rest[k] == p;
          assert posts[k + 1] == p;
        }
      }
    }
  }

  /** On a table with distinct ids the next-page count is the number of posts below the cursor. */
  lemma NextPageFlagCountsRows(posts: seq<PostRow>, cursor: int)
    requires IdsAscending(posts)
    ensures GetNextPageFlag(posts, cursor) == |Below(posts, cursor)|
  {
    BelowIsPrefix(posts, cursor);
    TotalCountsRows(Below(posts, cursor));
  }

  /** The next-page count is positive exactly when some post lies below the cursor. */
  lemma NextPageFlagPositive(posts: seq<PostRow>, cursor: int)
    ensures GetNextPageFlag(posts, cursor) > 0 <==> exists p :: p in posts && p.id < cursor
  {
    var s := IdSet(Below(posts, cursor));
    if exists p :: p in posts && p.id < cursor {
      var p :| p in posts && p.id < cursor;
      assert p in Below(posts, cursor);
      assert p.id in s;
    }
  }

  // ---------------------------------------------------------------------------
  // The pagination window

  /** How many leading rows of an ascending table lie below `bound`. */
  function Cut(posts: seq<PostRow>, bound: int): (k: nat)
    ensures k <= |posts|
    ensures forall i :: 0 <= i < k ==> posts[i].id < bound
    ensures k < |posts| ==> posts[k].id >= bound
  {
    if posts == [] || posts[0].id >= bound then 0 else 1 + Cut(posts[1..], bound)
  }

  /** How many rows the WHERE clause of `postsPagination` selects. */
  function Selected(posts: seq<PostRow>, after: int): nat {
    if after > 0 then Cut(posts, after) else |posts|
  }

  lemma {:induction false} BelowNone(posts: seq<PostRow>, bound: int)
    requires forall i :: 0 <= i < |posts| ==> posts[i].id >= bound
    ensures Below(posts, bound) == []
  {
    if posts != [] {
      BelowNone(posts[1..], bound);
    }
  }

  /** Dropping the first row keeps a table ascending. */
  lemma AscendingTail(posts: seq<PostRow>)
    requires IdsAscending(posts) && posts != []
    ensures IdsAscending(posts[1..])
  {
    forall i, j | 0 <= i < j < |posts| - 1 ensures posts[1..][i].id < posts[1..][j].id {
      assert posts[1..][i] == posts[i + 1] && posts[1..][j] == posts[j + 1];
    }
  }

  /** On an ascending table, the rows below a bound are a prefix of the table. */
  lemma {:induction false} BelowIsPrefix(posts: seq<PostRow>, bound: int)
    requires IdsAscending(posts)
    ensures Below(posts, bound) == posts[..Cut(posts, bound)]
  {
    if posts == [] {
    } else if posts[0].id < bound {
      AscendingTail(posts);
      BelowIsPrefix(posts[1..], bound);
      BelowPrefixStep(posts, bound);
    } else {
      BelowPrefixStop(posts, bound);
    }
  }

  /** A first row below the bound extends the prefix selected from the rest by one. */
  lemma BelowPrefixStep(posts: seq<PostRow>, bound: int)
    requires posts != [] && posts[0].id < bound
    requires Below(posts[1..], bound) == posts[1..][..Cut(posts[1..], bound)]
    ensures Below(posts, bound) == posts[..Cut(posts, bound)]
  {
    var rest := posts[1..];
    assert Below(posts, bound) == [posts[0]] + Below(rest, bound);
    assert posts[..1 + Cut(rest, bound)] == [posts[0]] + rest[..Cut(rest, bound)];
  }

  /** On an ascending table whose first row is at or above the bound, nothing is selected. */
  lemma BelowPrefixStop(posts: seq<PostRow>, bound: int)
    requires IdsAscending(posts) && posts != [] && posts[0].id >= bound
    ensures Below(posts, bound) == posts[..Cut(posts, bound)] == []
  {
    forall i | 0 <= i < |posts| ensures posts[i].id >= bound {
      if i > 0 {
        assert posts[0].id < posts[i].id;
      }
    }
    BelowNone(posts, bound);
  }

  lemma WhereIsPrefix(posts: seq<PostRow>, after: int)
    requires IdsAscending(posts)
    ensures Where(posts, after) == posts[..Selected(posts, after)]
  {
    if after > 0 {
      BelowIsPrefix(posts, after);
    }
  }

  /** `page` lists rows `k - 1`, `k - 2`, ... of the table, newest first. */
  ghost predicate NewestFirst(page: seq<PostRow>, posts: seq<PostRow>, k: int) {
    && |page| <= k <= |posts|
    && forall i :: 0 <= i < |page| ==> page[i] == posts[k - 1 - i]
  }

  /** Position `i` of the page is row `k - 1 - i` of the table, where `k` rows were selected. */
  lemma PageRows(posts: seq<PostRow>, limit: nat, after: int)
    requires IdsAscending(posts)
    ensures var page := PostsPagination(posts, limit, after);
      && |page| == Min(limit, Selected(posts, after))
      && NewestFirst(page, posts, Selected(posts, after))
  {
    WhereIsPrefix(posts, after);
    var k := Selected(posts, after);
    var rows := Reverse(posts[..k]);
    var page := PostsPagination(posts, limit, after);
    assert page == if |rows| <= limit then rows else rows[..limit];
    forall i | 0 <= i < |page| ensures page[i] == posts[k - 1 - i] {
      assert page[i] == rows[i];
    }
  }

  lemma NewestFirstDescending(page: seq<PostRow>, posts: seq<PostRow>, k: int)
    requires IdsAscending(posts) && NewestFirst(page, posts, k)
    ensures IdsDescending(page)
  {
    forall i, j | 0 <= i < j < |page| ensures page[i].id > page[j].id {
      assert page[i] == posts[k - 1 - i] && page[j] == posts[k - 1 - j];
    }
  }

  /** Every row on the page is a table row among the first `k`. */
  lemma NewestFirstRows(page: seq<PostRow>, posts: seq<PostRow>, k: int)
    requires NewestFirst(page, posts, k)
    ensures forall p :: p in page ==> p in posts[..k]
  {
    forall p | p in page ensures p in posts[..k] {
      var i :| 0 <= i < |page| && page[i] == p;
      assert posts[..k][k - 1 - i] == p;
    }
  }

  lemma NewestFirstHas(page: seq<PostRow>, posts: seq<PostRow>, k: int, j: int)
    requires NewestFirst(page, posts, k) && k - |page| <= j < k
    ensures posts[j] in page
  {
    assert page[k - 1 - j] == posts[j];
  }

  /** A row among the first `k` that is not on the page is older than every row on it, and the page is full. */
  lemma NewestFirstMaximal(page: seq<PostRow>, posts: seq<PostRow>, k: int, j: int)
    requires IdsAscending(posts) && NewestFirst(page, posts, k)
    requires 0 <= j < k && posts[j] !in page
    ensures j < k - |page|
    ensures forall q :: q in page ==> posts[j].id < q.id
  {
    if j >= k - |page| {
      NewestFirstHas(page, posts, k, j);
      assert false;
    }
    forall q | q in page ensures posts[j].id < q.id {
      var i :| 0 <= i < |page| && page[i] == q;
    }
  }

  /**
   * `postsPagination(limit, after)` returns at most `limit` rows of the table,
   * strictly descending by id, each below `after` when `after > 0`; and a
   * selected row is left out only when the page is full and every row on it
   * is newer.
   */
  lemma PostsPaginationWindow(posts: seq<PostRow>, limit: nat, after: int)
    requires IdsAscending(posts)
    ensures var page := PostsPagination(posts, limit, after);
      && |page| <= limit
      && IdsDescending(page)
      && (forall p :: p in page ==> p in posts && (after > 0 ==> p.id < after))
      && (forall p :: p in posts && (after <= 0 || p.id < after) && p !in page ==>
            |page| == limit && forall q :: q in page ==> p.id < q.id)
  {
    var page := PostsPagination(posts, limit, after);
    var k := Selected(posts, after);
    PageRows(posts, limit, after);
    WhereIsPrefix(posts, after);
    NewestFirstDescending(page, posts, k);
    NewestFirstRows(page, posts, k);
    forall p | p in page ensures p in posts && (after > 0 ==> p.id < after) {
      assert p in Where(posts, after);
    }
    forall p | p in posts && (after <= 0 || p.id < after) && p !in page
      ensures |page| == limit && forall q :: q in page ==> p.id < q.id
    {
      assert p in Where(posts, after);
      var j :| 0 <= j < k && posts[..k][j] == p;
      NewestFirstMaximal(page, posts, k, j);
    }
  }

  /** The cursor of a page: the id of its last row, or 0 for an empty page. */
  function EndCursor(page: seq<PostRow>): (cursor: int)
    ensures page != [] ==> exists p :: p in page && p.id == cursor
    ensures IdsDescending(page) ==> forall i :: 0 <= i < |page| ==> cursor <= page[i].id
  {
    if |page| > 0 then page[|page| - 1].id else 0
  }

  /** In an ascending table, the rows below row `j`'s id are exactly the first `j`. */
  lemma CutAtRow(posts: seq<PostRow>, j: int)
    requires IdsAscending(posts) && 0 <= j < |posts|
    ensures Cut(posts, posts[j].id) == j
  {
    var c := Cut(posts, posts[j].id);
    if c != j {
      assert false;
    }
  }

  /** Feeding a page's end cursor back in selects exactly the rows older than the page. */
  lemma NextPageSelection(posts: seq<PostRow>, limit: nat, after: int)
    requires IdsAscending(posts) && PositiveIds(posts)
    ensures var page := PostsPagination(posts, limit, after);
      |page| > 0 ==> Selected(posts, EndCursor(page)) == Selected(posts, after) - |page|
  {
    var page := PostsPagination(posts, limit, after);
    var k := Selected(posts, after);
    PageRows(posts, limit, after);
    if |page| > 0 {
      EndCursorOfNewestFirst(page, posts, k);
      SelectedAtRow(posts, k - |page|);
    }
  }

  /** The end cursor of a newest-first page is the id of the oldest row it lists. */
  lemma EndCursorOfNewestFirst(page: seq<PostRow>, posts: seq<PostRow>, k: int)
    requires NewestFirst(page, posts, k) && |page| > 0
    ensures EndCursor(page) == posts[k - |page|].id
  {
    assert page[|page| - 1] == posts[k - |page|];
  }

  /** Requesting with row `j`'s id as the cursor selects the first `j` rows. */
  lemma SelectedAtRow(posts: seq<PostRow>, j: int)
    requires IdsAscending(posts) && PositiveIds(posts) && 0 <= j < |posts|
    ensures Selected(posts, posts[j].id) == j
  {
    assert posts[j] in posts;
    CutAtRow(posts, j);
  }

  /**
   * The posts a client sees by paging from cursor `after` with page size
   * `limit`, feeding each page's `endCursor` back in while `hasNextPage`.
   */
  ghost function PageThrough(posts: seq<PostRow>, limit: nat, after: int): seq<PostRow>
    requires IdsAscending(posts) && PositiveIds(posts) && limit > 0
    decreases Selected(posts, after)
  {
    var page := PostsPagination(posts, limit, after);
    if GetNextPageFlag(posts, EndCursor(page)) == 0 then page
    else
      NextPageFlagPositive(posts, EndCursor(page));
      NextPageSelection(posts, limit, after);
      page + PageThrough(posts, limit, EndCursor(page))
  }

  /** A newest-first page of all `k` rows is the reversed prefix. */
  lemma NewestFirstWhole(page: seq<PostRow>, posts: seq<PostRow>, k: int)
    requires NewestFirst(page, posts, k) && |page| == k
    ensures page == Reverse(posts[..k])
  {
  }

  /** A newest-first page of `m` rows followed by the reversed older rows is the reversed prefix. */
  lemma NewestFirstThenOlder(page: seq<PostRow>, posts: seq<PostRow>, k: int)
    requires NewestFirst(page, posts, k)
    ensures page + Reverse(posts[..k - |page|]) == Reverse(posts[..k])
  {
    var m := |page|;
    var rest := Reverse(posts[..k - m]);
    var all := Reverse(posts[..k]);
    forall i | 0 <= i < k ensures (page + rest)[i] == all[i] {
      if i >= m {
        assert rest[i - m] == posts[k - m - 1 - (i - m)];
      }
    }
  }

  /** When no post lies below the page's cursor, the page holds every selected row. */
  lemma LastPageIsWhole(posts: seq<PostRow>, limit: nat, after: int)
    requires IdsAscending(posts) && PositiveIds(posts) && limit > 0
    requires GetNextPageFlag(posts, EndCursor(PostsPagination(posts, limit, after))) == 0
    ensures PostsPagination(posts, limit, after) == Reverse(posts[..Selected(posts, after)])
  {
    var page := PostsPagination(posts, limit, after);
    var k := Selected(posts, after);
    PageRows(posts, limit, after);
    NextPageFlagPositive(posts, EndCursor(page));
    if |page| < k {
      assert false;
    }
    NewestFirstWhole(page, posts, k);
  }

  /** Paging from `after` enumerates every selected post exactly once, newest first. */
  lemma {:induction false} PageThroughSelected(posts: seq<PostRow>, limit: nat, after: int)
    requires IdsAscending(posts) && PositiveIds(posts) && limit > 0
    ensures PageThrough(posts, limit, after) == Reverse(posts[..Selected(posts, after)])
    decreases Selected(posts, after)
  {
    var page := PostsPagination(posts, limit, after);
    var cursor := EndCursor(page);
    if GetNextPageFlag(posts, cursor) == 0 {
      LastPageIsWhole(posts, limit, after);
    } else {
      NextPageFlagPositive(posts, cursor);
      NextPageSelection(posts, limit, after);
      assert PageThrough(posts, limit, after) == page + PageThrough(posts, limit, cursor);
      PageThroughSelected(posts, limit, cursor);
      PageRows(posts, limit, after);
      NewestFirstThenOlder(page, posts, Selected(posts, after));
    }
  }

  /**
   * Cursor coverage: paging from cursor 0 yields every post of the table
   * exactly once, in descending id order.
   */
  lemma PagingCoversAllPosts(posts: seq<PostRow>, limit: nat)
    requires IdsAscending(posts) && PositiveIds(posts) && limit > 0
    ensures PageThrough(posts, limit, 0) == Reverse(posts)
    ensures IdsDescending(PageThrough(posts, limit, 0))
  {
    assert Selected(posts, 0) == |posts|;
    assert posts[..|posts|] == posts;
    PageThroughSelected(posts, limit, 0);
    ReverseAscending(posts);
  }

  /** Reversing an ascending table gives a strictly descending sequence. */
  lemma ReverseAscending(posts: seq<PostRow>)
    requires IdsAscending(posts)
    ensures IdsDescending(Reverse(posts))
  {
    var r := Reverse(posts);
    forall i, j | 0 <= i < j < |r| ensures r[i].id > r[j].id {
      assert r[i] == posts[|posts| - 1 - i] && r[j] == posts[|posts| - 1 - j];
    }
  }
}
