/**
 * The GraphQL resolvers of the post module: the `posts` query that builds a
 * cursor window, the six mutations (write to the store, re-read, publish),
 * and the three subscription filters.
 *
 * The pub/sub bus is the append-only log of what was published on it. A
 * subscriber is the field it subscribed to with its variables; what it is
 * delivered is the part of the log on its topic that passes its filter.
 */
module PostResolvers {
  import opened Wrappers
  import opened PostTables
  import opened PostStore

  const POST_SUBSCRIPTION := "post_subscription"
  const POSTS_SUBSCRIPTION := "posts_subscription"
  const TRANSACTION_SUBSCRIPTION := "transaction_subscription"

  datatype Mutation = CREATED | UPDATED | DELETED

  /** The `postsUpdated` payload: a change to the post list. */
  datatype PostsUpdated = PostsUpdated(mutation: Mutation, id: int, node: Option<PostRow>)

  /** The `transactionUpdated` payload: a change to one post's transactions. */
  datatype TransactionUpdated = TransactionUpdated(mutation: Mutation, id: int, postId: int, node: Option<TransactionView>)

  datatype Payload =
    | PostsUpdatedPayload(postsUpdated: PostsUpdated)
    | PostUpdatedPayload(postUpdated: PostRow)
    | TransactionUpdatedPayload(transactionUpdated: TransactionUpdated)

  datatype Publication = Publication(topic: string, payload: Payload)

  /** Why a resolver fails: a dereference of a missing row, or a write the database refused. */
  datatype ResolverError = TypeError | DatabaseError(cause: StoreError)

  /** The pub/sub bus, as the log of every publication in order. */
  class PubSub {
    var log: seq<Publication>

    constructor ()
      ensures log == []
    {
      log := [];
    }

    method Publish(topic: string, payload: Payload)
      modifies this
      ensures log == old(log) + [Publication(topic, payload)]
    {
      log := log + [Publication(topic, payload)];
    }
  }

  // ---------------------------------------------------------------------------
  // Subscriptions

  /** `postUpdated` filter: the updated post is the one the subscriber watches. */
  predicate PostUpdatedFilter(payload: PostRow, id: int) {
    payload.id == id
  }

  /** `postsUpdated` filter: the changed post is at or above the subscriber's end cursor. */
  predicate PostsUpdatedFilter(payload: PostsUpdated, endCursor: int) {
    endCursor <= payload.id
  }

  /** `transactionUpdated` filter: the change belongs to the post the subscriber watches. */
  predicate TransactionUpdatedFilter(payload: TransactionUpdated, postId: int) {
    payload.postId == postId
  }

  /** A subscription with its variables. */
  datatype Subscriber = PostSubscriber(id: int) | PostsSubscriber(endCursor: int) | TransactionSubscriber(postId: int)

  /** A publication reaches a subscriber when it is on the subscriber's topic and passes its filter. */
  predicate Receives(sub: Subscriber, p: Publication) {
    match sub
    case PostSubscriber(id) =>
      p.topic == POST_SUBSCRIPTION && p.payload.PostUpdatedPayload? && PostUpdatedFilter(p.payload.postUpdated, id)
    case PostsSubscriber(endCursor) =>
      p.topic == POSTS_SUBSCRIPTION && p.payload.PostsUpdatedPayload? && PostsUpdatedFilter(p.payload.postsUpdated, endCursor)
    case TransactionSubscriber(postId) =>
      p.topic == TRANSACTION_SUBSCRIPTION && p.payload.TransactionUpdatedPayload?
      && TransactionUpdatedFilter(p.payload.transactionUpdated, postId)
  }

  /** The payloads a subscriber is delivered from a log, in publication order. */
  function Delivered(log: seq<Publication>, sub: Subscriber): (feed: seq<Payload>)
    ensures |feed| <= |log|
  {
    if log == [] then []
    else Delivered(log[..|log| - 1], sub) + (if Receives(sub, log[|log| - 1]) then [log[|log| - 1].payload] else [])
  }

  /** Publishing one more item delivers it to exactly the subscribers whose filter it passes. */
  lemma DeliveredAfterPublish(log: seq<Publication>, p: Publication, sub: Subscriber)
    ensures Delivered(log + [p], sub) == Delivered(log, sub) + (if Receives(sub, p) then [p.payload] else [])
  {
    assert (log + [p])[..|log|] == log;
  }

  /** Whether a payload belongs to what a subscriber watches. */
  predicate InScope(sub: Subscriber, x: Payload) {
    match sub
    case PostSubscriber(id) => x.PostUpdatedPayload? && PostUpdatedFilter(x.postUpdated, id)
    case PostsSubscriber(endCursor) => x.PostsUpdatedPayload? && PostsUpdatedFilter(x.postsUpdated, endCursor)
    case TransactionSubscriber(postId) => x.TransactionUpdatedPayload? && TransactionUpdatedFilter(x.transactionUpdated, postId)
  }

  /**
   * Everything delivered to a subscriber is in its scope, and every
   * publication on its topic within its scope is delivered.
   */
  lemma {:induction false} DeliveredIsScope(log: seq<Publication>, sub: Subscriber)
    ensures forall x :: x in Delivered(log, sub) ==> InScope(sub, x)
    ensures forall p :: p in log && Receives(sub, p) ==> p.payload in Delivered(log, sub)
  {
    if log != [] {
      var init := log[..|log| - 1];
      DeliveredIsScope(init, sub);
      assert log == init + [log[|log| - 1]];
    }
  }

  // ---------------------------------------------------------------------------
  // Query.posts

  datatype Edge = Edge(cursor: int, node: PostRow)
  datatype PageInfo = PageInfo(endCursor: int, hasNextPage: bool)
  datatype Posts = Posts(totalCount: nat, edges: seq<Edge>, pageInfo: PageInfo)

  /**
   * `Query.posts(limit, after)`: one edge per row of the page, cursor = id;
   * `endCursor` is the last edge's cursor or 0; `hasNextPage` counts posts
   * below `endCursor`; `totalCount` counts all posts.
   */
  method QueryPosts(store: Store, limit: nat, after: int) returns (result: Posts)
    requires store.Valid()
    ensures var page := PostsPagination(store.posts, limit, after);
      && |result.edges| == |page|
      && (forall i :: 0 <= i < |page| ==> result.edges[i] == Edge(page[i].id, page[i]))
      && result.pageInfo.endCursor == EndCursor(page)
    ensures forall i, j :: 0 <= i < j < |result.edges| ==> result.edges[i].cursor > result.edges[j].cursor
    ensures result.pageInfo.hasNextPage <==> exists p :: p in store.posts && p.id < result.pageInfo.endCursor
    ensures result.edges == [] ==> result.pageInfo.endCursor == 0 && !result.pageInfo.hasNextPage
    ensures result.totalCount == |store.posts|
  {
    var posts := PostsPagination(store.posts, limit, after);
    var edgesArray: seq<Edge> := [];
    for i := 0 to |posts|
      invariant |edgesArray| == i
      invariant forall k :: 0 <= k < i ==> edgesArray[k] == Edge(posts[k].id, posts[k])
    {
      edgesArray := edgesArray + [Edge(posts[i].id, PostRow(posts[i].id, posts[i].title, posts[i].content))];
    }
    var endCursor := if |edgesArray| > 0 then edgesArray[|edgesArray| - 1].cursor else 0;
    var total := GetTotal(store.posts);
    var nextPage := GetNextPageFlag(store.posts, endCursor);
    result := Posts(total, edgesArray, PageInfo(endCursor, nextPage > 0));

    PostsPaginationWindow(store.posts, limit, after);
    NextPageFlagPositive(store.posts, endCursor);
    TotalCountsRows(store.posts);
  }

  // ---------------------------------------------------------------------------
  // Mutations

  /** `addPost`: insert, re-read, publish CREATED on the posts topic, return the new post. */
  method AddPost(store: Store, pubsub: PubSub, title: string, content: string) returns (post: PostRow)
    requires store.Valid()
    modifies store, pubsub
    ensures store.Valid()
    ensures post == PostRow(old(store.nextPostId), title, content) && !HasPost(old(store.posts), post.id)
    ensures store.posts == old(store.posts) + [post] && store.transactions == old(store.transactions)
    ensures store.nextPostId == post.id + 1 && store.nextTransactionId == old(store.nextTransactionId)
    ensures pubsub.log == old(pubsub.log) + [Publication(POSTS_SUBSCRIPTION, PostsUpdatedPayload(PostsUpdated(CREATED, post.id, Some(post))))]
  {
    var id := store.AddPost(title, content);
    var found := FindPost(store.posts, id);
    assert store.posts[|store.posts| - 1] in store.posts;
    post := found.value;
    pubsub.Publish(POSTS_SUBSCRIPTION, PostsUpdatedPayload(PostsUpdated(CREATED, id, found)));
  }

  /**
   * `deletePost`: read the post, delete it; only when a row was deleted,
   * publish DELETED with the pre-delete row and return its id.
   */
  method DeletePost(store: Store, pubsub: PubSub, id: int) returns (deleted: Option<int>)
    requires store.Valid()
    modifies store, pubsub
    ensures store.Valid()
    ensures store.posts == WithoutPost(old(store.posts), id)
    ensures store.transactions == WithoutChildren(old(store.transactions), id)
    ensures store.nextPostId == old(store.nextPostId) && store.nextTransactionId == old(store.nextTransactionId)
    ensures deleted.Some? <==> HasPost(old(store.posts), id)
    ensures deleted.Some? ==>
              && deleted.value == id
              && pubsub.log == old(pubsub.log) + [Publication(POSTS_SUBSCRIPTION,
                   PostsUpdatedPayload(PostsUpdated(DELETED, id, FindPost(old(store.posts), id))))]
    ensures deleted.None? ==>
              && pubsub.log == old(pubsub.log)
              && store.posts == old(store.posts) && store.transactions == old(store.transactions)
  {
    var post := FindPost(store.posts, id);
    if post.None? {
      WithoutAbsentPost(store.posts, id);
      CascadeOfAbsentPost(store.posts, store.transactions, id);
    }
    var isDeleted := store.DeletePost(id);
    if isDeleted > 0 {
      pubsub.Publish(POSTS_SUBSCRIPTION, PostsUpdatedPayload(PostsUpdated(DELETED, id, post)));
      deleted := Some(post.value.id);
    } else {
      deleted := None;
    }
  }

  /**
   * `editPost`: update, re-read, publish UPDATED on the posts topic and then
   * the bare post on the single-post topic. When no post has the id, the
   * re-read gives nothing and reading its `id` throws before any publish.
   */
  method EditPost(store: Store, pubsub: PubSub, id: int, title: string, content: string)
    returns (r: Result<PostRow, ResolverError>)
    requires store.Valid()
    modifies store, pubsub
    ensures store.Valid()
    ensures |store.posts| == |old(store.posts)|
    ensures forall i :: 0 <= i < |store.posts| ==>
              store.posts[i] == if old(store.posts)[i].id == id then PostRow(id, title, content) else old(store.posts)[i]
    ensures store.transactions == old(store.transactions)
    ensures store.nextPostId == old(store.nextPostId) && store.nextTransactionId == old(store.nextTransactionId)
    ensures r.Failure? <==> !HasPost(old(store.posts), id)
    ensures r.Failure? ==> r.error == TypeError && pubsub.log == old(pubsub.log) && store.posts == old(store.posts)
    ensures r.Success? ==>
              && r.value == PostRow(id, title, content)
              && pubsub.log == old(pubsub.log) + [
                   Publication(POSTS_SUBSCRIPTION, PostsUpdatedPayload(PostsUpdated(UPDATED, id, Some(r.value)))),
                   Publication(POST_SUBSCRIPTION, PostUpdatedPayload(r.value))]
  {
    ghost var before := store.posts;
    var _ := store.EditPost(id, title, content);
    ghost var after := store.posts;
    var post := FindPost(store.posts, id);
    if post.None? {
      EditOfAbsentPost(before, after, id, title, content);
      r := Failure(TypeError);
      return;
    }
    ghost var k :| 0 <= k < |after| && after[k] == post.value;
    assert before[k] in before;
    pubsub.Publish(POSTS_SUBSCRIPTION, PostsUpdatedPayload(PostsUpdated(UPDATED, post.value.id, post)));
    pubsub.Publish(POST_SUBSCRIPTION, PostUpdatedPayload(post.value));
    r := Success(post.value);
  }

  /** An edit that matched no row leaves the table as it was. */
  lemma EditOfAbsentPost(before: seq<PostRow>, after: seq<PostRow>, id: int, title: string, content: string)
    requires |after| == |before|
    requires forall i :: 0 <= i < |after| ==> after[i] == if before[i].id == id then PostRow(id, title, content) else before[i]
    requires !HasPost(after, id)
    ensures after == before && !HasPost(before, id)
  {
    forall i | 0 <= i < |after| ensures after[i] == before[i] {
      assert after[i] in after;
    }
  }

  /**
   * `addTransaction`: insert, re-read, publish CREATED on the transaction
   * topic under the input's `postId`, return the row. A refused insert
   * publishes nothing.
   */
  method AddTransaction(store: Store, pubsub: PubSub, content: string, balance: string, timeStamp: string, postId: int)
    returns (r: Result<TransactionView, ResolverError>)
    requires store.Valid()
    modifies store, pubsub
    ensures store.Valid()
    ensures store.posts == old(store.posts) && store.nextPostId == old(store.nextPostId)
    ensures r.Failure? <==> !HasPost(old(store.posts), postId)
    ensures r.Failure? ==>
              && r.error == DatabaseError(ForeignKeyViolation)
              && pubsub.log == old(pubsub.log) && store.transactions == old(store.transactions)
              && store.nextTransactionId == old(store.nextTransactionId)
    ensures r.Success? ==>
              && r.value == TransactionView(old(store.nextTransactionId), content, balance, timeStamp)
              && !HasTransaction(old(store.transactions), r.value.id)
              && store.nextTransactionId == r.value.id + 1
              && store.transactions == old(store.transactions) + [TransactionRow(r.value.id, postId, content, balance, timeStamp)]
              && pubsub.log == old(pubsub.log) + [Publication(TRANSACTION_SUBSCRIPTION,
                   TransactionUpdatedPayload(TransactionUpdated(CREATED, r.value.id, postId, Some(r.value))))]
  {
    var inserted := store.AddTransaction(content, balance, timeStamp, postId);
    if inserted.Failure? {
      r := Failure(DatabaseError(inserted.error));
      return;
    }
    var id := inserted.value;
    var transaction := GetTransaction(store.transactions, id);
    assert store.transactions[|store.transactions| - 1] in store.transactions;
    assert transaction == Some(TransactionView(id, content, balance, timeStamp));
    pubsub.Publish(TRANSACTION_SUBSCRIPTION,
      TransactionUpdatedPayload(TransactionUpdated(CREATED, transaction.value.id, postId, transaction)));
    r := Success(transaction.value);
  }

  /**
   * `deleteTransaction`: delete, then publish DELETED with no node on the
   * transaction topic whether or not a row was deleted; return the input id.
   */
  method DeleteTransaction(store: Store, pubsub: PubSub, id: int, postId: int) returns (deletedId: int)
    requires store.Valid()
    modifies store, pubsub
    ensures store.Valid()
    ensures deletedId == id
    ensures store.posts == old(store.posts)
    ensures store.transactions == WithoutTransaction(old(store.transactions), id)
    ensures store.nextPostId == old(store.nextPostId) && store.nextTransactionId == old(store.nextTransactionId)
    ensures pubsub.log == old(pubsub.log) + [Publication(TRANSACTION_SUBSCRIPTION,
              TransactionUpdatedPayload(TransactionUpdated(DELETED, id, postId, None)))]
  {
    var _ := store.DeleteTransaction(id);
    pubsub.Publish(TRANSACTION_SUBSCRIPTION, TransactionUpdatedPayload(TransactionUpdated(DELETED, id, postId, None)));
    deletedId := id;
  }

  /**
   * `editTransaction`: update, re-read, publish UPDATED on the transaction
   * topic under the input's `id` and `postId` (with no node when the id is
   * unknown), return the re-read row.
   */
  method EditTransaction(store: Store, pubsub: PubSub, id: int, postId: int, content: string)
    returns (transaction: Option<TransactionView>)
    requires store.Valid()
    modifies store, pubsub
    ensures store.Valid()
    ensures store.posts == old(store.posts)
    ensures |store.transactions| == |old(store.transactions)|
    ensures forall i :: 0 <= i < |store.transactions| ==>
              store.transactions[i] == if old(store.transactions)[i].id == id
                                       then old(store.transactions)[i].(content := content)
                                       else old(store.transactions)[i]
    ensures transaction.Some? <==> HasTransaction(old(store.transactions), id)
    ensures transaction.Some? ==> transaction.value.id == id && transaction.value.content == content
    ensures forall k :: 0 <= k < |old(store.transactions)| && old(store.transactions)[k].id == id ==>
              transaction == Some(View(old(store.transactions)[k].(content := content)))
    ensures store.nextPostId == old(store.nextPostId) && store.nextTransactionId == old(store.nextTransactionId)
    ensures pubsub.log == old(pubsub.log) + [Publication(TRANSACTION_SUBSCRIPTION,
              TransactionUpdatedPayload(TransactionUpdated(UPDATED, id, postId, transaction)))]
  {
    var _ := store.EditTransaction(id, content);
    transaction := GetTransaction(store.transactions, id);
    if transaction.Some? {
      ghost var t :| t in store.transactions && t.id == id && transaction.value == View(t);
      ghost var k :| 0 <= k < |store.transactions| && store.transactions[k] == t;
      assert old(store.transactions)[k] in old(store.transactions);
      forall j | 0 <= j < |old(store.transactions)| && old(store.transactions)[j].id == id
        ensures transaction == Some(View(old(store.transactions)[j].(content := content)))
      {
        assert store.transactions[j].id == id;
      }
    }
    pubsub.Publish(TRANSACTION_SUBSCRIPTION, TransactionUpdatedPayload(TransactionUpdated(UPDATED, id, postId, transaction)));
  }

  // ---------------------------------------------------------------------------
  // Scenarios

  /**
   * Ids are not reused across resolvers: after `deletePost` removes a post,
   * a following `addPost` issues a different id.
   */
  method DeletedPostIdIsNotReused(store: Store, pubsub: PubSub, id: int, title: string, content: string)
    returns (post: PostRow)
    requires store.Valid() && HasPost(store.posts, id)
    modifies store, pubsub
    ensures post.id != id && post.id == old(store.nextPostId)
    ensures !HasPost(store.posts, id) && HasPost(store.posts, post.id)
  {
    var deleted := DeletePost(store, pubsub, id);
    post := AddPost(store, pubsub, title, content);
    assert post in store.posts;
  }

  /**
   * The server test's first page: with posts 1..20, `posts(limit 1, after 0)`
   * is the single post 20, `endCursor` 20, a next page, and a total of 20.
   */
  lemma FirstPageOfTwenty(posts: seq<PostRow>)
    requires |posts| == 20 && forall i :: 0 <= i < 20 ==> posts[i].id == i + 1
    ensures PostsPagination(posts, 1, 0) == [posts[19]]
    ensures EndCursor(PostsPagination(posts, 1, 0)) == 20
    ensures GetNextPageFlag(posts, 20) > 0
    ensures GetTotal(posts) == 20
  {
    assert IdsAscending(posts);
    PageRows(posts, 1, 0);
    assert posts[0] in posts;
    NextPageFlagPositive(posts, 20);
    TotalCountsRows(posts);
  }

  /**
   * A post added after a list subscriber loaded its page has a larger id than
   * every existing post, so its CREATED event passes the filter of every
   * subscriber whose end cursor is an existing post's id.
   */
  lemma NewPostReachesListSubscribers(posts: seq<PostRow>, nextPostId: int, node: PostRow, endCursor: int)
    requires forall p :: p in posts ==> p.id < nextPostId
    requires node.id == nextPostId && HasPost(posts, endCursor)
    ensures Receives(PostsSubscriber(endCursor),
                     Publication(POSTS_SUBSCRIPTION, PostsUpdatedPayload(PostsUpdated(CREATED, node.id, Some(node)))))
  {
  }

  /**
   * The server test "publishes post on add": with 20 posts stored, adding a
   * post delivers exactly one CREATED event for post 21 to a subscriber at
   * end cursor 10.
   */
  method PublishesPostOnAdd(store: Store, pubsub: PubSub, title: string, content: string)
    requires store.Valid() && store.nextPostId == 21
    modifies store, pubsub
    ensures Delivered(pubsub.log, PostsSubscriber(10)) == Delivered(old(pubsub.log), PostsSubscriber(10)) +
              [PostsUpdatedPayload(PostsUpdated(CREATED, 21, Some(PostRow(21, title, content))))]
  {
    var before := pubsub.log;
    var post := AddPost(store, pubsub, title, content);
    DeliveredAfterPublish(before, pubsub.log[|pubsub.log| - 1], PostsSubscriber(10));
    assert pubsub.log == before + [pubsub.log[|pubsub.log| - 1]];
  }
}
