# Posts and transactions: a Dafny model

This project models the post module of a universal JavaScript (React/Apollo
client, GraphQL/knex server) example application. A *post* owns a list of
*transactions*. The model covers four pieces of the module:

- **The schema** (`003_post.js`). Two tables with auto-incremented ids. Each
  transaction's `post_id` references a post, and deleting a post cascades to
  its transactions. `PostStore.Store` holds both tables and the next id of
  each. Its `Valid()` invariant states ascending unique positive ids, ids
  below the counter, and no orphaned transaction.
- **The data access class** (`sql.js`).
  - The read queries are pure functions in `PostTables`: `postsPagination`,
    `getTotal`, `getNextPageFlag`, `post`, `getTransaction` and
    `getTransactionsForPostIds`.
  - The writes are methods of `PostStore.Store`: `addPost`, `editPost`,
    `deletePost`, `addTransaction`, `editTransaction` and
    `deleteTransaction`.
- **The GraphQL resolvers** (`resolvers.js`), in `PostResolvers`.
  - The `posts` query builds its edges in a loop.
  - `addPost`, `editPost`, `addTransaction` and `editTransaction` write,
    re-read and publish. `deletePost` reads, deletes, and publishes only
    when a row was deleted. `deleteTransaction` deletes and always publishes.
  - The pub/sub bus is an append-only log of `(topic, payload)`.
  - The three subscription filters decide which subscriber receives what.
    `Delivered(log, subscriber)` is the feed each subscriber sees.
- **The client transaction reconciler** (`PostTransactions.jsx`), in
  `TransactionCache`.
  - `AddTransaction` and `DeleteTransaction` merge an event into the cached
    `post` query result.
  - The subscription's `updateQuery` dispatches on the mutation kind.
  - The `updateQueries` hooks belong to the optimistic add and delete
    mutations. The optimistic placeholder has a `null` id.
  - The other fields of the cached result are type parameters, so
    "nothing else changes" is an equation.

JavaScript semantics are modelled explicitly:
- `===` on ids, including `null`.
- The truthiness test of `filter(transaction => transaction.id)`: `null`
  and `0` are dropped.
- `findIndex` returns -1 when nothing matches.
- The `TypeError` a reducer throws when the cached `post` is `null`.
- The `undefined` a hook returns when no post is cached.
- The `TypeError` that `editPost` throws when the edited id does not exist.
  The resolver dereferences the missing re-read, so it publishes nothing.

The main results:
- Paging from cursor 0 with any positive `limit` visits every post exactly
  once, newest first. Each next request feeds in `endCursor` for as long as
  `hasNextPage` holds (`PagingCoversAllPosts`).
- Deleting a post removes its transactions and leaves no orphan.
- Add events in the cache are idempotent. Delete events are idempotent on a
  list whose ids are distinct. Both keep ids distinct.
- An optimistic add followed by its confirmation leaves exactly one
  confirmed entry.
- A subscriber receives exactly the publications on its topic that pass
  its filter.

Two behaviours of the client cache are worth stating plainly:
- `AddTransaction` does not replace a placeholder in place and does not
  insert by id order. It drops every entry whose id is falsy and appends
  the node (`PostTransactions.jsx:21-26`).
- `updateQuery` ignores `UPDATED` events (`PostTransactions.jsx:94-98`).

## Model

| member | source | states |
|---|---|---|
| TransactionCache.KeepConfirmed | packages/client/src/modules/post/containers/PostTransactions.jsx:21 | keeps exactly the entries with a truthy id, never grows, and leaves no placeholder |
| TransactionCache.FindIndex | packages/client/src/modules/post/containers/PostTransactions.jsx:33 | result is -1 exactly when no entry has the id; otherwise it is the first index holding the id |
| TransactionCache.AddTransaction | packages/client/src/modules/post/containers/PostTransactions.jsx:15-30 | throws exactly when no post is cached; otherwise only the transaction list changes, and afterwards it contains the node's id |
| TransactionCache.DeleteTransaction | packages/client/src/modules/post/containers/PostTransactions.jsx:32-47 | throws exactly when no post is cached; otherwise only the list changes, and it shrinks by one exactly when the id was present |
| TransactionCache.UpdateQuery | packages/client/src/modules/post/containers/PostTransactions.jsx:91-101 | only the list changes; it can throw only on a CREATED or DELETED event with no cached post |
| TransactionCache.AddTransactionHook | packages/client/src/modules/post/containers/PostTransactions.jsx:126-131 | returns a result exactly when a post is cached, and that result is the add reducer's |
| TransactionCache.DeleteTransactionHook | packages/client/src/modules/post/containers/PostTransactions.jsx:165-170 | returns a result exactly when a post is cached, and that result is the delete reducer's on the returned id |
| TransactionCache.OptimisticTransaction | packages/client/src/modules/post/containers/PostTransactions.jsx:116-124 | the optimistic response has a falsy id, so the add reducer drops it once a confirmed entry arrives |
| TransactionCache.KeepConfirmedAppend | packages/client/src/modules/post/containers/PostTransactions.jsx:21 | the filter distributes over concatenation, so it keeps order |
| TransactionCache.KeepConfirmedOfConfirmed | packages/client/src/modules/post/containers/PostTransactions.jsx:21 | the filter leaves a list with no placeholder unchanged |
| TransactionCache.KeepConfirmedDistinct | packages/client/src/modules/post/containers/PostTransactions.jsx:21 | the filter preserves distinct ids |
| TransactionCache.AddTransactionUnchangedIff | packages/client/src/modules/post/containers/PostTransactions.jsx:16-19 | the add reducer returns `prev` itself exactly when the node's id is already listed |
| TransactionCache.AddTransactionAppends | packages/client/src/modules/post/containers/PostTransactions.jsx:21-29 | for a new id, the list becomes the confirmed entries in order, followed by the node |
| TransactionCache.AddTransactionIdempotent | packages/client/src/modules/post/containers/PostTransactions.jsx:15-30 | delivering the same node twice equals delivering it once |
| TransactionCache.AddTransactionKeepsIdsDistinct | packages/client/src/modules/post/containers/PostTransactions.jsx:15-30 | adding keeps ids distinct, and keeps the list free of placeholders when the node has a real id |
| TransactionCache.DeleteTransactionUnchangedIff | packages/client/src/modules/post/containers/PostTransactions.jsx:33-38 | the delete reducer returns `prev` itself exactly when the id is not listed |
| TransactionCache.DeleteTransactionRemovesFirst | packages/client/src/modules/post/containers/PostTransactions.jsx:33-46 | for a listed id, the result is the list with its first occurrence spliced out |
| TransactionCache.RemoveAtDistinct | packages/client/src/modules/post/containers/PostTransactions.jsx:43 | splicing one entry out of a distinct list keeps it distinct, and removes that id entirely |
| TransactionCache.DeleteTransactionKeepsIdsDistinct | packages/client/src/modules/post/containers/PostTransactions.jsx:32-47 | deleting keeps ids distinct, and afterwards the id is absent |
| TransactionCache.UpdateQueryIgnoresOtherKinds | packages/client/src/modules/post/containers/PostTransactions.jsx:92-100 | any event other than CREATED or DELETED, UPDATED included, leaves the cache unchanged |
| TransactionCache.UpdateQueryCreatedIdempotent | packages/client/src/modules/post/containers/PostTransactions.jsx:94-95 | a duplicated CREATED delivery has no further effect |
| TransactionCache.UpdateQueryDeletedIdempotent | packages/client/src/modules/post/containers/PostTransactions.jsx:96-97 | a duplicated DELETED delivery has no further effect on a list with distinct ids |
| TransactionCache.OptimisticAddThenConfirm | packages/client/src/modules/post/containers/PostTransactions.jsx:113-133 | the optimistic placeholder is appended; its confirmation, delivered twice, leaves the old list plus the confirmed entry once, with distinct ids and no placeholder |
| TransactionCache.CreatedThenDeleted | packages/client/src/modules/post/containers/PostTransactions.jsx:91-101 | a CREATED event for a new id adds it, and the matching DELETED event restores the original cache |
| TransactionCache.CreatedThenDeleted3003 | packages/client/src/modules/post/containers/Post.spec.js:276-315 | in the client test's sequence, transaction 3003 appears after CREATED; after DELETED the list is the confirmed entries of the original and 3003 is gone, even when a placeholder was cached |
| PostTables.Below | packages/server/src/modules/post/sql.js:7-9 | keeps exactly the rows whose id is below the bound |
| PostTables.Where | packages/server/src/modules/post/sql.js:6-9 | selects exactly the posts below `after` when `after > 0`, and every post otherwise |
| PostTables.WithoutPost | packages/server/src/modules/post/sql.js:55-59 | keeps exactly the posts whose id differs |
| PostTables.WithoutTransaction | packages/server/src/modules/post/sql.js:84-88 | keeps exactly the transactions whose id differs |
| PostTables.WithoutChildren | packages/server/src/database/migrations/003_post.js:12-17 | keeps exactly the transactions of other posts |
| PostTables.Reverse | packages/server/src/modules/post/sql.js:15 | position i holds the row at mirrored position |
| PostTables.PostsPagination | packages/server/src/modules/post/sql.js:5-17 | returns as many rows as the smaller of `limit` and the selected row count |
| PostTables.IdSet | packages/server/src/modules/post/sql.js:30 | holds exactly the ids present in the table |
| PostTables.GetTotal | packages/server/src/modules/post/sql.js:28-32 | counts distinct ids: at most the number of rows, and zero exactly for an empty table |
| PostTables.GetNextPageFlag | packages/server/src/modules/post/sql.js:34-39 | counts distinct ids below the cursor: never more than the rows or the total |
| PostTables.FindPost | packages/server/src/modules/post/sql.js:41-47 | finds a row exactly when the id exists, and the row found is in the table with that id |
| PostTables.GetTransaction | packages/server/src/modules/post/sql.js:76-82 | finds a row exactly when the id exists, and returns the selected columns of such a row |
| PostTables.GetTransactionsForPostIds | packages/server/src/modules/post/sql.js:19-26 | returns exactly the transactions whose post id is requested |
| PostTables.TotalCountsRows | packages/server/src/modules/post/sql.js:28-32 | the distinct-id count equals the number of posts |
| PostTables.NextPageFlagCountsRows | packages/server/src/modules/post/sql.js:34-39 | on an ascending table the next-page count is the number of posts below the cursor |
| PostTables.NextPageFlagPositive | packages/server/src/modules/post/sql.js:34-39 | the count is positive exactly when some post has a smaller id than the cursor |
| PostTables.Cut | packages/server/src/modules/post/sql.js:7-9 | splits the ascending table at the first id not below the bound |
| PostTables.BelowNone | packages/server/src/modules/post/sql.js:7-9 | no row is selected when every id is at or above the bound |
| PostTables.BelowIsPrefix | packages/server/src/modules/post/sql.js:7-9 | in an ascending table, the rows below the bound form a prefix |
| PostTables.WhereIsPrefix | packages/server/src/modules/post/sql.js:6-14 | the `where` selection is a prefix of the table; with `after <= 0` it is the whole table |
| PostTables.PageRows | packages/server/src/modules/post/sql.js:5-17 | the page lists the last selected rows newest first |
| PostTables.NewestFirstDescending | packages/server/src/modules/post/sql.js:15 | a newest-first page is strictly descending by id |
| PostTables.NewestFirstRows | packages/server/src/modules/post/sql.js:11-14 | every row of the page is a selected row |
| PostTables.NewestFirstHas | packages/server/src/modules/post/sql.js:15-16 | each of the newest selected rows is on the page |
| PostTables.NewestFirstMaximal | packages/server/src/modules/post/sql.js:15-16 | a selected row left off the page is older than every row on it |
| PostTables.PostsPaginationWindow | packages/server/src/modules/post/sql.js:5-17 | the page has at most `limit` rows of the table, strictly descending, each below `after` when `after > 0`; a selected row is left out only when the page is full of newer rows |
| PostTables.NextPageSelection | packages/server/src/modules/post/resolvers.js:25-34 | requesting with a page's end cursor selects exactly the rows older than the page |
| PostTables.EndCursor | packages/server/src/modules/post/resolvers.js:25 | for a non-empty page the cursor is the id of one of its rows, and on a descending page it is the smallest id |
| PostTables.PageThrough | packages/server/src/modules/post/resolvers.js:25-34 | the client's paging loop: request a page, and while `hasNextPage` holds, request again with its `endCursor`; the posts seen, concatenated |
| PostTables.NewestFirstWhole | packages/server/src/modules/post/sql.js:15 | a page of all selected rows is their reverse |
| PostTables.NewestFirstThenOlder | packages/server/src/modules/post/sql.js:15 | a page followed by the older rows, newest first, is the whole selection newest first |
| PostTables.LastPageIsWhole | packages/server/src/modules/post/resolvers.js:25-34 | when no older post exists, the page is the whole selection newest first |
| PostTables.PageThroughSelected | packages/server/src/modules/post/resolvers.js:10-37 | paging from a cursor until `hasNextPage` is false yields every selected post once, newest first |
| PostTables.ReverseAscending | packages/server/src/modules/post/sql.js:15 | reversing an ascending table gives a strictly descending order |
| PostTables.PagingCoversAllPosts | packages/server/src/modules/post/resolvers.js:10-37 | paging from cursor 0 yields every post exactly once, strictly descending by id |
| PostStore.Store.constructor | packages/server/src/database/migrations/003_post.js:1-24 | both tables start empty, with both counters at 1 |
| PostStore.Store.Valid | packages/server/src/database/migrations/003_post.js:5-17 | the store invariant: ascending positive unique ids below each counter, and every transaction references an existing post |
| PostStore.Store.AddPost | packages/server/src/modules/post/sql.js:49-53 | appends a row under the next id, which is fresh and positive, and returns it; the invariant is kept |
| PostStore.Store.EditPost | packages/server/src/modules/post/sql.js:61-68 | rewrites title and content of the row with the id, changes nothing else, and counts 1 or 0 |
| PostStore.Store.DeletePost | packages/server/src/modules/post/sql.js:55-59 | removes the post and cascades to its transactions; the count is 1 exactly when the post existed |
| PostStore.Store.AddTransaction | packages/server/src/modules/post/sql.js:70-74 | fails, changing nothing, exactly when the referenced post is missing; otherwise appends the row under the next id |
| PostStore.Store.EditTransaction | packages/server/src/modules/post/sql.js:90-96 | rewrites the content of the transaction with the id, changes nothing else, and counts 1 or 0 |
| PostStore.Store.DeleteTransaction | packages/server/src/modules/post/sql.js:84-88 | removes the transaction with the id; the count is 1 exactly when it existed |
| PostStore.WithoutPostAscending | packages/server/src/modules/post/sql.js:55-59 | deleting a post keeps ids ascending |
| PostStore.WithoutAbsentPost | packages/server/src/modules/post/sql.js:55-59 | deleting a missing id changes nothing |
| PostStore.WithoutPostRemovesOne | packages/server/src/modules/post/sql.js:55-59 | deleting removes one row exactly when the id exists |
| PostStore.DeletePostDropsTotal | packages/server/src/modules/post/sql.js:28-32 | deleting an existing post lowers the total by one |
| PostStore.DeleteTwentyFirstPost | packages/server/src/modules/post/Post.spec.js:213-222 | in the server test, deleting post 21 of 21 leaves a total of 20 |
| PostStore.WithoutChildrenAscending | packages/server/src/database/migrations/003_post.js:17 | the cascade keeps transaction ids ascending |
| PostStore.WithoutTransactionAscending | packages/server/src/modules/post/sql.js:84-88 | deleting a transaction keeps ids ascending |
| PostStore.WithoutAbsentTransaction | packages/server/src/modules/post/sql.js:84-88 | deleting a missing transaction id changes nothing |
| PostStore.WithoutTransactionRemovesOne | packages/server/src/modules/post/sql.js:84-88 | deleting removes one transaction exactly when the id exists |
| PostStore.CascadeRemovesChildren | packages/server/src/database/migrations/003_post.js:12-17 | the cascade removes as many rows as the post had transactions, and none remains listed for it |
| PostStore.NoneListed | packages/server/src/modules/post/sql.js:19-26 | when no transaction references the requested posts, nothing is listed |
| PostStore.CascadeLeavesNoOrphans | packages/server/src/database/migrations/003_post.js:12-17 | after the cascade, every transaction still references an existing post |
| PostStore.CascadeOfAbsentPost | packages/server/src/database/migrations/003_post.js:12-17 | deleting a missing post cascades to nothing |
| PostResolvers.PubSub.constructor | packages/server/src/modules/post/resolvers.js:8 | the bus starts with nothing published |
| PostResolvers.PubSub.Publish | packages/server/src/modules/post/resolvers.js:52 | appends exactly one publication to the log |
| PostResolvers.PostUpdatedFilter | packages/server/src/modules/post/resolvers.js:139-141 | a `postUpdated` payload passes exactly when it is the watched post |
| PostResolvers.PostsUpdatedFilter | packages/server/src/modules/post/resolvers.js:147-149 | a `postsUpdated` payload passes exactly when its id is at or above the subscriber's end cursor |
| PostResolvers.TransactionUpdatedFilter | packages/server/src/modules/post/resolvers.js:155-157 | a `transactionUpdated` payload passes exactly when it belongs to the watched post |
| PostResolvers.Receives | packages/server/src/modules/post/resolvers.js:136-159 | a publication reaches a subscriber when its topic is the subscription's and it passes that subscription's filter |
| PostResolvers.Delivered | packages/server/src/modules/post/resolvers.js:136-159 | the feed a subscriber gets from the log, in order; never longer than the log |
| PostResolvers.DeliveredAfterPublish | packages/server/src/modules/post/resolvers.js:135-159 | a new publication reaches exactly the subscribers whose topic and filter it passes, after what they already had |
| PostResolvers.DeliveredIsScope | packages/server/src/modules/post/resolvers.js:135-159 | everything delivered is in the subscriber's scope, and every matching publication is delivered |
| PostResolvers.QueryPosts | packages/server/src/modules/post/resolvers.js:10-37 | one edge per page row with cursor = id; `endCursor` is the last cursor or 0; cursors are strictly descending; `hasNextPage` holds exactly when an older post exists; `totalCount` is the number of posts |
| PostResolvers.AddPost | packages/server/src/modules/post/resolvers.js:48-60 | inserts the post under a fresh id and advances the post counter past it, with the transaction counter unchanged; publishes CREATED with the stored row on the list topic; returns the row |
| PostResolvers.DeletePost | packages/server/src/modules/post/resolvers.js:61-77 | deletes with cascade and keeps both id counters; publishes DELETED with the pre-delete row and returns the id exactly when the post existed; otherwise changes and publishes nothing |
| PostResolvers.EditPost | packages/server/src/modules/post/resolvers.js:78-91 | updates the post and keeps both id counters; for a missing id, throws with nothing published; otherwise publishes UPDATED on the list topic, then the post on the single-post topic, and returns it |
| PostResolvers.AddTransaction | packages/server/src/modules/post/resolvers.js:93-106 | a missing post is a database error with nothing written, published or counted; otherwise the row is appended under a fresh id, the transaction counter moves past it, and CREATED is published under the input's post id; the post counter never changes |
| PostResolvers.DeleteTransaction | packages/server/src/modules/post/resolvers.js:107-119 | deletes and keeps both id counters; always publishes DELETED with no node and the input's post id; returns the input id |
| PostResolvers.EditTransaction | packages/server/src/modules/post/resolvers.js:120-133 | updates the content and keeps both id counters; the returned and published row is the stored row with that id and the new content, all columns included; there is a row exactly when the id exists; UPDATED is always published |
| PostResolvers.DeletedPostIdIsNotReused | packages/server/src/modules/post/resolvers.js:48-77 | after deleting an existing post, the next added post gets a different id, and the deleted id stays absent |
| PostResolvers.FirstPageOfTwenty | packages/server/src/modules/post/Post.spec.js:19-47 | with posts 1..20, `posts(1, 0)` is post 20 with end cursor 20, a next page and a total of 20 |
| PostResolvers.NewPostReachesListSubscribers | packages/server/src/modules/post/resolvers.js:144-151 | a post created under a fresh id passes the list filter of any subscriber whose end cursor is an existing id |
| PostResolvers.PublishesPostOnAdd | packages/server/src/modules/post/Post.spec.js:75-113 | with 20 posts stored, adding one delivers exactly CREATED for post 21 to a subscriber at end cursor 10 |

## Left out

- The React component lifecycle, which subscribes, re-subscribes on a post change and unsubscribes. Its only state is the subscription handle.
- The views and forms are rendering only.
- The client's `editTransaction` mutation and the local-state resolvers. They carry no reconciliation logic of their own.
- The Apollo transport. `subscribeToMore`, `withFilter`/`asyncIterator` delivery and the optimistic layer's rollback belong to the libraries. The bus is the log of publications, and delivery is the filter over it.
- Concurrency. `Promise.all` and `await` are taken in program order, and no two resolvers interleave.
- The batching of `createBatchResolver`, and the grouping that `orderedFor` does for `Post.transactions`. `GetTransactionsForPostIds` returns the matching rows; it does not group them per post.
- Query execution and the database engine. The SQL text knex generates is not modelled. Storage order is taken to be insertion order, which is ascending id order. The foreign key and the cascade are taken to be enforced as the migration declares them.
- The `created_at`/`updated_at` timestamp columns. No query reads them.
- Seeds, routing and configuration.
- A transaction with a `null` `post_id`. The column is nullable, but no code path writes one.
- GraphQL `ID` coercion between strings and numbers. Ids are integers.
- PostTables.PostsPagination: `limit` is a natural number. A negative `LIMIT` is not modelled, because its meaning depends on the engine.
- TransactionCache.UpdateQuery: a CREATED event must carry a node. The server always re-reads the created row before publishing. With a `null` node the JavaScript throws when the cached list is non-empty, because the `some` callback reads `node.id`. On an empty list it stores a list holding `null`, which the element type here cannot hold. That case is excluded rather than modelled.
- TransactionCache.Id: `undefined` is not a separate id. Every id the reducers compare comes from the server's rows or from the optimistic response's `null`, so no path supplies `undefined`.
