/**
 * The `Post` store's writes, on the two tables the post migration creates.
 * `Valid()` is what the schema guarantees: auto-increment ids (positive,
 * unique, increasing in insertion order, below the next id to hand out) and
 * a `post_id` foreign key on every transaction that names an existing post.
 * Deleting a post cascades to its transactions (ON DELETE CASCADE).
 */
module PostStore {
  import opened Wrappers
  import opened PostTables

  /** A write the database refuses. */
  datatype StoreError = ForeignKeyViolation

  /** Every transaction's `post_id` names an existing post. */
  predicate ReferencesExist(posts: seq<PostRow>, txs: seq<TransactionRow>) {
    forall t :: t in txs ==> HasPost(posts, t.postId)
  }

  class Store {
    var posts: seq<PostRow>
    var transactions: seq<TransactionRow>
    /** The next value of the `post` table's auto-increment sequence. */
    var nextPostId: int
    /** The next value of the `transaction` table's auto-increment sequence. */
    var nextTransactionId: int

    ghost predicate Valid()
      reads this
    {
      && 1 <= nextPostId && 1 <= nextTransactionId
      && IdsAscending(posts) && PositiveIds(posts)
      && (forall p :: p in posts ==> p.id < nextPostId)
      && TransactionIdsAscending(transactions)
      && (forall t :: t in transactions ==> 1 <= t.id < nextTransactionId)
      && ReferencesExist(posts, transactions)
    }

    /** Freshly migrated, empty tables. */
    constructor ()
      ensures Valid()
      ensures posts == [] && transactions == []
      ensures nextPostId == 1 && nextTransactionId == 1
    {
      posts, transactions := [], [];
      nextPostId, nextTransactionId := 1, 1;
    }

    /** `addPost({title, content})`: inserts one row under a new id and returns the id. */
    method AddPost(title: string, content: string) returns (id: int)
      requires Valid()
      modifies this
      ensures Valid()
      ensures id == old(nextPostId) && 1 <= id && !HasPost(old(posts), id)
      ensures posts == old(posts) + [PostRow(id, title, content)]
      ensures nextPostId == id + 1
      ensures transactions == old(transactions) && nextTransactionId == old(nextTransactionId)
    {
      id := nextPostId;
      posts := posts + [PostRow(id, title, content)];
      nextPostId := nextPostId + 1;
      forall t | t in transactions ensures HasPost(posts, t.postId) {
        var p :| p in old(posts) && p.id == t.postId;
        assert p in posts;
      }
    }

    /**
     * `editPost({id, title, content})`: rewrites `title` and `content` of the
     * row with that id and returns the number of rows updated.
     */
    method EditPost(id: int, title: string, content: string) returns (count: nat)
      requires Valid()
      modifies this
      ensures Valid()
      ensures count == if HasPost(old(posts), id) then 1 else 0
      ensures |posts| == |old(posts)|
      ensures forall i :: 0 <= i < |posts| ==>
                posts[i] == if old(posts)[i].id == id then PostRow(id, title, content) else old(posts)[i]
      ensures transactions == old(transactions)
      ensures nextPostId == old(nextPostId) && nextTransactionId == old(nextTransactionId)
    {
      count := if FindPost(posts, id).Some? then 1 else 0;
      var before := posts;
      posts := seq(|before|, i requires 0 <= i < |before| =>
                 if before[i].id == id then PostRow(id, title, content) else before[i]);
      assert forall i :: 0 <= i < |posts| ==> posts[i].id == before[i].id;
      forall t | t in transactions ensures HasPost(posts, t.postId) {
        var p :| p in before && p.id == t.postId;
        var i :| 0 <= i < |before| && before[i] == p;
        assert posts[i] in posts;
      }
    }

    /**
     * `deletePost(id)`: removes the row with that id, and by the cascade every
     * transaction of that post; returns the number of post rows removed.
     */
    method DeletePost(id: int) returns (count: nat)
      requires Valid()
      modifies this
      ensures Valid()
      ensures posts == WithoutPost(old(posts), id)
      ensures transactions == WithoutChildren(old(transactions), id)
      ensures count == |old(posts)| - |posts|
      ensures count == if HasPost(old(posts), id) then 1 else 0
      ensures nextPostId == old(nextPostId) && nextTransactionId == old(nextTransactionId)
    {
      WithoutPostRemovesOne(posts, id);
      WithoutPostAscending(posts, id);
      WithoutChildrenAscending(transactions, id);
      CascadeLeavesNoOrphans(posts, transactions, id);
      var before := posts;
      posts := WithoutPost(posts, id);
      transactions := WithoutChildren(transactions, id);
      count := |before| - |posts|;
    }

    /**
     * `addTransaction({content, balance, timeStamp, postId})`: inserts one row
     * under a new id and returns the id; the foreign key refuses a `postId`
     * that names no post.
     */
    method AddTransaction(content: string, balance: string, timeStamp: string, postId: int)
      returns (r: Result<int, StoreError>)
      requires Valid()
      modifies this
      ensures Valid()
      ensures r.Failure? <==> !HasPost(posts, postId)
      ensures posts == old(posts) && nextPostId == old(nextPostId)
      ensures r.Failure? ==> transactions == old(transactions) && nextTransactionId == old(nextTransactionId)
      ensures r.Success? ==>
                && r.value == old(nextTransactionId) && !HasTransaction(old(transactions), r.value)
                && transactions == old(transactions) + [TransactionRow(r.value, postId, content, balance, timeStamp)]
                && nextTransactionId == r.value + 1
    {
      if FindPost(posts, postId).None? {
        r := Failure(ForeignKeyViolation);
        return;
      }
      var id := nextTransactionId;
      transactions := transactions + [TransactionRow(id, postId, content, balance, timeStamp)];
      nextTransactionId := nextTransactionId + 1;
      r := Success(id);
    }

    /**
     * `editTransaction({id, content})`: rewrites `content` of the row with
     * that id, leaving `post_id`, `balance` and `timeStamp`, and returns the
     * number of rows updated.
     */
    method EditTransaction(id: int, content: string) returns (count: nat)
      requires Valid()
      modifies this
      ensures Valid()
      ensures count == if HasTransaction(old(transactions), id) then 1 else 0
      ensures |transactions| == |old(transactions)|
      ensures forall i :: 0 <= i < |transactions| ==>
                transactions[i] == if old(transactions)[i].id == id then old(transactions)[i].(content := content)
                                   else old(transactions)[i]
      ensures posts == old(posts)
      ensures nextPostId == old(nextPostId) && nextTransactionId == old(nextTransactionId)
    {
      count := if GetTransaction(transactions, id).Some? then 1 else 0;
      var before := transactions;
      transactions := seq(|before|, i requires 0 <= i < |before| =>
                        if before[i].id == id then before[i].(content := content) else before[i]);
      forall t | t in transactions ensures 1 <= t.id < nextTransactionId && HasPost(posts, t.postId) {
        var i :| 0 <= i < |transactions| && transactions[i] == t;
        assert before[i] in before;
      }
    }

    /** `deleteTransaction(id)`: removes the row with that id and returns the number of rows removed. */
    method DeleteTransaction(id: int) returns (count: nat)
      requires Valid()
      modifies this
      ensures Valid()
      ensures transactions == WithoutTransaction(old(transactions), id)
      ensures count == |old(transactions)| - |transactions|
      ensures count == if HasTransaction(old(transactions), id) then 1 else 0
      ensures posts == old(posts)
      ensures nextPostId == old(nextPostId) && nextTransactionId == old(nextTransactionId)
    {
      WithoutTransactionRemovesOne(transactions, id);
      WithoutTransactionAscending(transactions, id);
      var before := transactions;
      transactions := WithoutTransaction(transactions, id);
      count := |before| - |transactions|;
    }
  }

  // ---------------------------------------------------------------------------
  // Deleting posts

  /** Deleting keeps the remaining posts in ascending id order. */
  lemma {:induction false} WithoutPostAscending(posts: seq<PostRow>, id: int)
    requires IdsAscending(posts)
    ensures IdsAscending(WithoutPost(posts, id))
  {
    if posts != [] {
      var rest := WithoutPost(posts[1..], id);
      WithoutPostAscending(posts[1..], id);
      forall q | q in rest ensures posts[0].id < q.id {
        var k :| 0 <= k < |posts[1..]| && posts[1..][k] == q;
        assert posts[k + 1] == q;
      }
    }
  }

  /** Deleting an id that is absent leaves the table as it was. */
  lemma {:induction false} WithoutAbsentPost(posts: seq<PostRow>, id: int)
    requires !HasPost(posts, id)
    ensures WithoutPost(posts, id) == posts
  {
    if posts != [] {
      assert posts[0] in posts;
      WithoutAbsentPost(posts[1..], id);
    }
  }

  /** On a table with unique ids, a delete removes one row if the id is present and none otherwise. */
  lemma {:induction false} WithoutPostRemovesOne(posts: seq<PostRow>, id: int)
    requires IdsAscending(posts)
    ensures |posts| - |WithoutPost(posts, id)| == if HasPost(posts, id) then 1 else 0
  {
    if posts != [] {
      var rest := posts[1..];
      if posts[0].id == id {
        assert !HasPost(rest, id) by {
          forall p | p in rest ensures p.id != id {
            var k :| 0 <= k < |rest| && rest[k] == p;
            assert posts[k + 1] == p;
          }
        }
        WithoutAbsentPost(rest, id);
      } else {
        WithoutPostRemovesOne(rest, id);
        assert HasPost(posts, id) <==> HasPost(rest, id) by {
          assert forall p :: p in posts <==> p == posts[0] || p in rest;
        }
      }
    }
  }

  /** After deleting an existing post, `getTotal` is one less. */
  lemma DeletePostDropsTotal(posts: seq<PostRow>, id: int)
    requires IdsAscending(posts) && HasPost(posts, id)
    ensures GetTotal(WithoutPost(posts, id)) == GetTotal(posts) - 1
  {
    WithoutPostRemovesOne(posts, id);
    WithoutPostAscending(posts, id);
    TotalCountsRows(posts);
    TotalCountsRows(WithoutPost(posts, id));
  }

  /** The test's instance: with 21 posts, deleting post 21 leaves a total of 20. */
  lemma DeleteTwentyFirstPost(posts: seq<PostRow>)
    requires IdsAscending(posts) && |posts| == 21 && posts[20].id == 21
    ensures GetTotal(posts) == 21
    ensures GetTotal(WithoutPost(posts, 21)) == 20
  {
    assert posts[20] in posts;
    TotalCountsRows(posts);
    DeletePostDropsTotal(posts, 21);
  }

  // ---------------------------------------------------------------------------
  // Deleting transactions and the cascade

  lemma {:induction false} WithoutChildrenAscending(txs: seq<TransactionRow>, postId: int)
    requires TransactionIdsAscending(txs)
    ensures TransactionIdsAscending(WithoutChildren(txs, postId))
  {
    if txs != [] {
      var rest := WithoutChildren(txs[1..], postId);
      WithoutChildrenAscending(txs[1..], postId);
      forall q | q in rest ensures txs[0].id < q.id {
        var k :| 0 <= k < |txs[1..]| && txs[1..][k] == q;
        assert txs[k + 1] == q;
      }
    }
  }

  lemma {:induction false} WithoutTransactionAscending(txs: seq<TransactionRow>, id: int)
    requires TransactionIdsAscending(txs)
    ensures TransactionIdsAscending(WithoutTransaction(txs, id))
  {
    if txs != [] {
      var rest := WithoutTransaction(txs[1..], id);
      WithoutTransactionAscending(txs[1..], id);
      forall q | q in rest ensures txs[0].id < q.id {
        var k :| 0 <= k < |txs[1..]| && txs[1..][k] == q;
        assert txs[k + 1] == q;
      }
    }
  }

  lemma {:induction false} WithoutAbsentTransaction(txs: seq<TransactionRow>, id: int)
    requires !HasTransaction(txs, id)
    ensures WithoutTransaction(txs, id) == txs
  {
    if txs != [] {
      assert txs[0] in txs;
      WithoutAbsentTransaction(txs[1..], id);
    }
  }

  /** On a table with unique ids, a delete removes one transaction if the id is present and none otherwise. */
  lemma {:induction false} WithoutTransactionRemovesOne(txs: seq<TransactionRow>, id: int)
    requires TransactionIdsAscending(txs)
    ensures |txs| - |WithoutTransaction(txs, id)| == if HasTransaction(txs, id) then 1 else 0
  {
    if txs != [] {
      var rest := txs[1..];
      if txs[0].id == id {
        assert !HasTransaction(rest, id) by {
          forall t | t in rest ensures t.id != id {
            var k :| 0 <= k < |rest| && rest[k] == t;
            assert txs[k + 1] == t;
          }
        }
        WithoutAbsentTransaction(rest, id);
      } else {
        WithoutTransactionRemovesOne(rest, id);
        assert HasTransaction(txs, id) <==> HasTransaction(rest, id) by {
          assert forall t :: t in txs <==> t == txs[0] || t in rest;
        }
      }
    }
  }

  /** The cascade removes exactly the post's transactions: as many rows as `getTransactionsForPostIds([postId])` lists. */
  lemma {:induction false} CascadeRemovesChildren(txs: seq<TransactionRow>, postId: int)
    ensures |txs| - |WithoutChildren(txs, postId)| == |GetTransactionsForPostIds(txs, [postId])|
    ensures GetTransactionsForPostIds(WithoutChildren(txs, postId), [postId]) == []
  {
    if txs != [] {
      CascadeRemovesChildren(txs[1..], postId);
    }
    var left := WithoutChildren(txs, postId);
    forall i | 0 <= i < |left| ensures left[i].postId !in [postId] {
      assert left[i] in left;
    }
    NoneListed(left, [postId]);
  }

  lemma {:induction false} NoneListed(txs: seq<TransactionRow>, postIds: seq<int>)
    requires forall i :: 0 <= i < |txs| ==> txs[i].postId !in postIds
    ensures GetTransactionsForPostIds(txs, postIds) == []
  {
    if txs != [] {
      NoneListed(txs[1..], postIds);
    }
  }

  /** Deleting a post with its transactions leaves no transaction pointing at a missing post. */
  lemma CascadeLeavesNoOrphans(posts: seq<PostRow>, txs: seq<TransactionRow>, id: int)
    requires ReferencesExist(posts, txs)
    ensures ReferencesExist(WithoutPost(posts, id), WithoutChildren(txs, id))
  {
    forall t | t in WithoutChildren(txs, id) ensures HasPost(WithoutPost(posts, id), t.postId) {
      var p :| p in posts && p.id == t.postId;
      assert p in WithoutPost(posts, id);
    }
  }

  /** A post that does not exist has no transactions, so its cascade removes nothing. */
  lemma {:induction false} CascadeOfAbsentPost(posts: seq<PostRow>, txs: seq<TransactionRow>, id: int)
    requires ReferencesExist(posts, txs) && !HasPost(posts, id)
    ensures WithoutChildren(txs, id) == txs
  {
    if txs != [] {
      assert txs[0] in txs;
      assert txs[0].postId != id;
      CascadeOfAbsentPost(posts, txs[1..], id);
      assert [txs[0]] + txs[1..] == txs;
    }
  }
}
