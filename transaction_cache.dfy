/**
 * The client-side reconciler of a post's transaction list: the two reducers
 * that merge a created or deleted transaction into the cached result of the
 * `post` query, the subscription's `updateQuery` that picks one of them, and
 * the `updateQueries` hooks of the optimistic add and delete mutations.
 *
 * Everything the reducers do not touch is kept abstract: `P` stands for the
 * other fields of the cached post and `Q` for the other fields of the query
 * result, so "nothing else changes" is an equation on those fields.
 */
module TransactionCache {
  import opened Wrappers

  /** A transaction id as the cache holds it: `null` for an optimistic placeholder, otherwise a number. */
  datatype Id = Null | Num(n: int)

  /** JavaScript truthiness of an id, as `filter(transaction => transaction.id)` tests it: null and 0 are falsy. */
  predicate Truthy(id: Id) {
    id.Num? && id.n != 0
  }

  datatype Transaction = Transaction(id: Id, content: string, balance: string, timeStamp: string)

  /** The cached `post`: its transaction list and every other field of it. */
  datatype PostView<P> = PostView(transactions: seq<Transaction>, fields: P)

  /** The cached result of the `post` query; `post` is `null` when no post was loaded. */
  datatype QueryResult<P, Q> = QueryResult(post: Option<PostView<P>>, fields: Q)

  /** What a reducer throws when it dereferences `prev.post.transactions` on a `null` post. */
  datatype Thrown = TypeError

  /** A `transactionUpdated` payload as the subscription delivers it. */
  datatype TransactionUpdated = TransactionUpdated(mutation: string, id: Id, postId: Id, node: Option<Transaction>)

  /** `transactions.some(transaction => transaction.id === id)` */
  predicate HasId(txs: seq<Transaction>, id: Id) {
    exists i :: 0 <= i < |txs| && txs[i].id == id
  }

  /** No two entries of the list share an id (a `null` placeholder counts as an id). */
  predicate DistinctIds(txs: seq<Transaction>) {
    forall i, j :: 0 <= i < j < |txs| ==> txs[i].id != txs[j].id
  }

  /** Every entry carries a real (truthy) id: no optimistic placeholder is left. */
  predicate AllConfirmed(txs: seq<Transaction>) {
    forall i :: 0 <= i < |txs| ==> Truthy(txs[i].id)
  }

  /** The transaction list of a cached result that has a post. */
  function List<P, Q>(q: QueryResult<P, Q>): seq<Transaction>
    requires q.post.Some?
  {
    q.post.value.transactions
  }

  /** `transactions.filter(transaction => transaction.id)`: the entries with a truthy id, in their original order. */
  function KeepConfirmed(txs: seq<Transaction>): (r: seq<Transaction>)
    ensures |r| <= |txs|
    ensures forall t :: t in r <==> t in txs && Truthy(t.id)
    ensures AllConfirmed(r)
  {
    if txs == [] then []
    else (if Truthy(txs[0].id) then [txs[0]] else []) + KeepConfirmed(txs[1..])
  }

  /** `transactions.findIndex(x => x.id === id)`: the first index holding `id`, or -1. */
  function FindIndex(txs: seq<Transaction>, id: Id): (r: int)
    ensures -1 <= r < |txs|
    ensures r == -1 <==> !HasId(txs, id)
    ensures r >= 0 ==> txs[r].id == id && forall j :: 0 <= j < r ==> txs[j].id != id
  {
    if txs == [] then -1
    else if txs[0].id == id then 0
    else
      var k := FindIndex(txs[1..], id);
      if k < 0 then -1 else k + 1
  }

  /** The cached result with its post's transaction list replaced by `txs`. */
  function WithList<P, Q>(prev: QueryResult<P, Q>, txs: seq<Transaction>): QueryResult<P, Q>
    requires prev.post.Some?
  {
    prev.(post := Some(prev.post.value.(transactions := txs)))
  }

  /** `r` differs from `prev` in at most the post's transaction list. */
  ghost predicate OnlyListChanged<P, Q>(prev: QueryResult<P, Q>, r: QueryResult<P, Q>) {
    && r.fields == prev.fields
    && r.post.Some? == prev.post.Some?
    && (r.post.Some? ==> r.post.value.fields == prev.post.value.fields)
  }

  /**
   * `AddTransaction(prev, node)`: a node whose id is already in the list is
   * ignored; otherwise every placeholder is dropped and `node` is appended.
   */
  function AddTransaction<P, Q>(prev: QueryResult<P, Q>, node: Transaction): (r: Result<QueryResult<P, Q>, Thrown>)
    ensures r.Failure? <==> prev.post.None?
    ensures r.Success? ==> OnlyListChanged(prev, r.value)
    ensures r.Success? ==> HasId(List(r.value), node.id)
  {
    match prev.post
    case None => Failure(TypeError)
    case Some(p) =>
      if HasId(p.transactions, node.id) then Success(prev)
      else
        var txs := KeepConfirmed(p.transactions) + [node];
        assert txs[|txs| - 1].id == node.id;
        Success(WithList(prev, txs))
  }

  /**
   * `DeleteTransaction(prev, id)`: an id not in the list is ignored; otherwise
   * the first entry with that id is spliced out.
   */
  function DeleteTransaction<P, Q>(prev: QueryResult<P, Q>, id: Id): (r: Result<QueryResult<P, Q>, Thrown>)
    ensures r.Failure? <==> prev.post.None?
    ensures r.Success? ==> OnlyListChanged(prev, r.value)
    ensures r.Success? ==> |List(r.value)| == |List(prev)| - (if HasId(List(prev), id) then 1 else 0)
  {
    match prev.post
    case None => Failure(TypeError)
    case Some(p) =>
      var index := FindIndex(p.transactions, id);
      if index < 0 then Success(prev)
      else Success(WithList(prev, p.transactions[..index] + p.transactions[index + 1..]))
  }

  /** The `updateQuery` of the transaction subscription: CREATED adds, DELETED deletes, anything else is ignored. */
  function UpdateQuery<P, Q>(prev: QueryResult<P, Q>, event: TransactionUpdated): (r: Result<QueryResult<P, Q>, Thrown>)
    requires event.mutation == "CREATED" ==> event.node.Some?
    ensures r.Success? ==> OnlyListChanged(prev, r.value)
    ensures r.Failure? ==> prev.post.None? && (event.mutation == "CREATED" || event.mutation == "DELETED")
  {
    if event.mutation == "CREATED" then AddTransaction(prev, event.node.value)
    else if event.mutation == "DELETED" then DeleteTransaction(prev, event.id)
    else Success(prev)
  }

  /** The optimistic response of the `addTransaction` mutation: the input fields under a `null` id. */
  function OptimisticTransaction(content: string, balance: string, timeStamp: string): (t: Transaction)
    ensures !Truthy(t.id)
    ensures KeepConfirmed([t]) == []
  {
    Transaction(Null, content, balance, timeStamp)
  }

  /** `updateQueries.post` of `addTransaction`: applies only when a post is cached, and returns `undefined` otherwise. */
  function AddTransactionHook<P, Q>(prev: QueryResult<P, Q>, addTransaction: Transaction): (r: Option<QueryResult<P, Q>>)
    ensures r.Some? <==> prev.post.Some?
    ensures r.Some? ==> AddTransaction(prev, addTransaction) == Success(r.value)
  {
    if prev.post.Some? then Some(AddTransaction(prev, addTransaction).value) else None
  }

  /** `updateQueries.post` of `deleteTransaction`: removes by the id the mutation returned, only when a post is cached. */
  function DeleteTransactionHook<P, Q>(prev: QueryResult<P, Q>, deleteTransactionId: Id): (r: Option<QueryResult<P, Q>>)
    ensures r.Some? <==> prev.post.Some?
    ensures r.Some? ==> DeleteTransaction(prev, deleteTransactionId) == Success(r.value)
  {
    if prev.post.Some? then Some(DeleteTransaction(prev, deleteTransactionId).value) else None
  }

  // ---------------------------------------------------------------------------
  // Properties of the list filter

  /** Filtering distributes over concatenation, so it keeps the relative order of the kept entries. */
  lemma {:induction false} KeepConfirmedAppend(a: seq<Transaction>, b: seq<Transaction>)
    ensures KeepConfirmed(a + b) == KeepConfirmed(a) + KeepConfirmed(b)
  {
    if a == [] {
      assert a + b == b;
    } else {
      assert (a + b)[1..] == a[1..] + b;
      KeepConfirmedAppend(a[1..], b);
    }
  }

  /** A list without placeholders passes the filter untouched. */
  lemma {:induction false} KeepConfirmedOfConfirmed(txs: seq<Transaction>)
    requires AllConfirmed(txs)
    ensures KeepConfirmed(txs) == txs
  {
    if txs != [] {
      KeepConfirmedOfConfirmed(txs[1..]);
    }
  }

  /** The filter keeps ids distinct. */
  lemma {:induction false} KeepConfirmedDistinct(txs: seq<Transaction>)
    requires DistinctIds(txs)
    ensures DistinctIds(KeepConfirmed(txs))
  {
    if txs != [] {
      var rest := KeepConfirmed(txs[1..]);
      KeepConfirmedDistinct(txs[1..]);
      forall t | t in rest ensures t.id != txs[0].id {
        var k :| 0 <= k < |txs[1..]| && txs[1..][k] == t;
        assert txs[k + 1] == t;
      }
    }
  }

  // ---------------------------------------------------------------------------
  // AddTransaction

  /** The reducer returns `prev` itself exactly when a post is cached and the node's id is already in its list. */
  lemma AddTransactionUnchangedIff<P, Q>(prev: QueryResult<P, Q>, node: Transaction)
    ensures AddTransaction(prev, node) == Success(prev) <==> prev.post.Some? && HasId(List(prev), node.id)
  {
    if prev.post.Some? && !HasId(List(prev), node.id) {
      var txs := KeepConfirmed(List(prev)) + [node];
      assert txs[|txs| - 1] == node;
    }
  }

  /** Without a duplicate, the new list is the old confirmed entries in order, then `node` last. */
  lemma AddTransactionAppends<P, Q>(prev: QueryResult<P, Q>, node: Transaction)
    requires prev.post.Some? && !HasId(List(prev), node.id)
    ensures AddTransaction(prev, node).Success?
    ensures var txs := List(AddTransaction(prev, node).value);
      && |txs| == |KeepConfirmed(List(prev))| + 1
      && txs[|txs| - 1] == node
      && txs[..|txs| - 1] == KeepConfirmed(List(prev))
  {
    var txs := List(AddTransaction(prev, node).value);
    assert txs == KeepConfirmed(List(prev)) + [node];
  }

  /** Adding the same node twice is the same as adding it once. */
  lemma AddTransactionIdempotent<P, Q>(prev: QueryResult<P, Q>, node: Transaction)
    requires prev.post.Some?
    ensures AddTransaction(AddTransaction(prev, node).value, node) == AddTransaction(prev, node)
  {
    var once := AddTransaction(prev, node).value;
    AddTransactionUnchangedIff(once, node);
  }

  /** A list whose ids are distinct keeps them distinct; with a truthy node id it also holds no placeholder. */
  lemma AddTransactionKeepsIdsDistinct<P, Q>(prev: QueryResult<P, Q>, node: Transaction)
    requires prev.post.Some? && DistinctIds(List(prev))
    ensures DistinctIds(List(AddTransaction(prev, node).value))
    ensures AllConfirmed(List(prev)) && Truthy(node.id) ==> AllConfirmed(List(AddTransaction(prev, node).value))
  {
    var old_ := List(prev);
    if !HasId(old_, node.id) {
      var kept := KeepConfirmed(old_);
      KeepConfirmedDistinct(old_);
      var txs := kept + [node];
      assert List(AddTransaction(prev, node).value) == txs;
      forall i, j | 0 <= i < j < |txs| ensures txs[i].id != txs[j].id {
        if j == |txs| - 1 {
          assert txs[i] in kept;
          assert txs[i] in old_;
        }
      }
    }
  }

  // ---------------------------------------------------------------------------
  // DeleteTransaction

  /** The reducer returns `prev` itself exactly when a post is cached and no entry has the id. */
  lemma DeleteTransactionUnchangedIff<P, Q>(prev: QueryResult<P, Q>, id: Id)
    ensures DeleteTransaction(prev, id) == Success(prev) <==> prev.post.Some? && !HasId(List(prev), id)
  {
  }

  /** With the id present, exactly the first entry holding it is removed and the rest keep their order. */
  lemma DeleteTransactionRemovesFirst<P, Q>(prev: QueryResult<P, Q>, id: Id)
    requires prev.post.Some? && HasId(List(prev), id)
    ensures exists k ::
              && 0 <= k < |List(prev)| && List(prev)[k].id == id
              && (forall j :: 0 <= j < k ==> List(prev)[j].id != id)
              && List(DeleteTransaction(prev, id).value) == List(prev)[..k] + List(prev)[k + 1..]
  {
    var k := FindIndex(List(prev), id);
    assert List(DeleteTransaction(prev, id).value) == List(prev)[..k] + List(prev)[k + 1..];
  }

  /** Removing one entry keeps ids distinct, and removes a distinct id from the list entirely. */
  lemma {:induction false} RemoveAtDistinct(txs: seq<Transaction>, k: int)
    requires 0 <= k < |txs| && DistinctIds(txs)
    ensures DistinctIds(txs[..k] + txs[k + 1..])
    ensures !HasId(txs[..k] + txs[k + 1..], txs[k].id)
  {
    var r := txs[..k] + txs[k + 1..];
    assert forall m :: 0 <= m < |r| ==> r[m] == (if m < k then txs[m] else txs[m + 1]);
  }

  /** On a list with distinct ids, delete keeps them distinct and leaves no entry with the deleted id. */
  lemma DeleteTransactionKeepsIdsDistinct<P, Q>(prev: QueryResult<P, Q>, id: Id)
    requires prev.post.Some? && DistinctIds(List(prev))
    ensures DistinctIds(List(DeleteTransaction(prev, id).value))
    ensures !HasId(List(DeleteTransaction(prev, id).value), id)
  {
    var k := FindIndex(List(prev), id);
    if k >= 0 {
      RemoveAtDistinct(List(prev), k);
    }
  }

  // ---------------------------------------------------------------------------
  // The subscription's updateQuery

  /** UPDATED events, and every mutation kind other than CREATED and DELETED, leave the cache as it was. */
  lemma UpdateQueryIgnoresOtherKinds<P, Q>(prev: QueryResult<P, Q>, event: TransactionUpdated)
    requires event.mutation != "CREATED" && event.mutation != "DELETED"
    ensures UpdateQuery(prev, event) == Success(prev)
  {
  }

  /** Delivering the same CREATED event twice leaves the cache as delivering it once. */
  lemma UpdateQueryCreatedIdempotent<P, Q>(prev: QueryResult<P, Q>, event: TransactionUpdated)
    requires event.mutation == "CREATED" && event.node.Some? && prev.post.Some?
    ensures UpdateQuery(UpdateQuery(prev, event).value, event) == UpdateQuery(prev, event)
  {
    AddTransactionIdempotent(prev, event.node.value);
  }

  /** On a list with distinct ids, delivering the same DELETED event twice is the same as delivering it once. */
  lemma UpdateQueryDeletedIdempotent<P, Q>(prev: QueryResult<P, Q>, event: TransactionUpdated)
    requires event.mutation == "DELETED" && prev.post.Some? && DistinctIds(List(prev))
    ensures UpdateQuery(UpdateQuery(prev, event).value, event) == UpdateQuery(prev, event)
  {
    DeleteTransactionKeepsIdsDistinct(prev, event.id);
  }

  /**
   * An optimistic add (placeholder id) followed by its confirmation, and then
   * a second delivery of the confirmed record (the mutation result and the
   * subscription event both carry it), leaves exactly the old entries and the
   * confirmed record once, with the placeholder gone.
   */
  lemma OptimisticAddThenConfirm<P, Q>(prev: QueryResult<P, Q>, content: string, balance: string, timeStamp: string,
                                       confirmed: Transaction, echo: Transaction)
    requires prev.post.Some? && AllConfirmed(List(prev)) && DistinctIds(List(prev))
    requires Truthy(confirmed.id) && !HasId(List(prev), confirmed.id) && echo.id == confirmed.id
    ensures var optimistic := AddTransactionHook(prev, OptimisticTransaction(content, balance, timeStamp)).value;
      var final := AddTransaction(AddTransaction(optimistic, confirmed).value, echo).value;
      && List(optimistic) == List(prev) + [OptimisticTransaction(content, balance, timeStamp)]
      && List(final) == List(prev) + [confirmed]
      && DistinctIds(List(final)) && AllConfirmed(List(final))
  {
    var placeholder := OptimisticTransaction(content, balance, timeStamp);
    assert !HasId(List(prev), Null);
    KeepConfirmedOfConfirmed(List(prev));
    var optimistic := AddTransaction(prev, placeholder).value;
    assert List(optimistic) == List(prev) + [placeholder];
    assert !HasId(List(optimistic), confirmed.id) by {
      assert forall i :: 0 <= i < |List(optimistic)| ==> List(optimistic)[i] == (if i < |List(prev)| then List(prev)[i] else placeholder);
    }
    KeepConfirmedAppend(List(prev), [placeholder]);
    assert KeepConfirmed([placeholder]) == [];
    var confirmedOnce := AddTransaction(optimistic, confirmed).value;
    assert List(confirmedOnce) == List(prev) + [confirmed];
    AddTransactionUnchangedIff(confirmedOnce, echo);
    AddTransactionKeepsIdsDistinct(prev, confirmed);
    AddTransactionAppends(prev, confirmed);
  }

  /**
   * The client test's sequence: a CREATED event for a new id makes it appear,
   * and a DELETED event for the same id then restores the confirmed list.
   */
  lemma CreatedThenDeleted<P, Q>(prev: QueryResult<P, Q>, node: Transaction)
    requires prev.post.Some? && AllConfirmed(List(prev)) && !HasId(List(prev), node.id)
    ensures var created := UpdateQuery(prev, TransactionUpdated("CREATED", node.id, Null, Some(node))).value;
      var deleted := UpdateQuery(created, TransactionUpdated("DELETED", node.id, Null, Some(node))).value;
      && HasId(List(created), node.id)
      && List(deleted) == List(prev)
      && deleted == prev
  {
    KeepConfirmedOfConfirmed(List(prev));
    var created := AddTransaction(prev, node).value;
    var txs := List(prev);
    assert List(created) == txs + [node];
    var k := FindIndex(List(created), node.id);
    assert k == |txs| by {
      assert List(created)[|txs|].id == node.id;
    }
    assert (txs + [node])[..k] + (txs + [node])[k + 1..] == txs;
  }

  /**
   * The test's concrete instance: transaction 3003 appears on CREATED and is
   * gone after DELETED, whether or not the cache still held a placeholder.
   */
  lemma CreatedThenDeleted3003<P, Q>(prev: QueryResult<P, Q>)
    requires prev.post.Some? && !HasId(List(prev), Num(3003))
    ensures var node := Transaction(Num(3003), "Post transaction 3", "", "");
      var created := UpdateQuery(prev, TransactionUpdated("CREATED", Num(3003), Num(3), Some(node))).value;
      var deleted := UpdateQuery(created, TransactionUpdated("DELETED", Num(3003), Num(3), Some(node))).value;
      && HasId(List(created), Num(3003))
      && List(deleted) == KeepConfirmed(List(prev))
      && !HasId(List(deleted), Num(3003))
  {
    var node := Transaction(Num(3003), "Post transaction 3", "", "");
    var kept := KeepConfirmed(List(prev));
    AddTransactionAppends(prev, node);
    var created := AddTransaction(prev, node).value;
    assert List(created) == kept + [node];
    assert !HasId(kept, Num(3003)) by {
      forall i | 0 <= i < |kept| ensures kept[i].id != Num(3003) {
        assert kept[i] in List(prev);
      }
    }
    var k := FindIndex(List(created), Num(3003));
    assert k == |kept| by {
      assert List(created)[|kept|].id == Num(3003);
    }
    assert (kept + [node])[..k] + (kept + [node])[k + 1..] == kept;
  }
}
