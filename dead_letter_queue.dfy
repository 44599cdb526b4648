/**
 * A bounded store of failed work items. Storing into a full queue evicts the
 * oldest record; a retry pass hands every stored item to a callback once, in
 * FIFO order, drops the items that now succeed and puts back the others
 * until they have failed three retries. Each public operation holds the
 * queue's mutex for its whole body, so operations are modelled in sequence.
 */
module DeadLetterQueues {

  datatype FailedItem<T> = FailedItem(item: T, error: string, failureTime: int, failedStage: string, retryCount: int)

  const DefaultMaxSize := 1000
  const MaxRetries := 3
  /** analyzeFailurePatterns reports stages with more failures than this. */
  const HighFailureThreshold := 10

  /** storeFailure: drop the front record when full, then append. */
  function Stored<T>(q: seq<FailedItem<T>>, maxSize: nat, f: FailedItem<T>): seq<FailedItem<T>>
  {
    (if |q| >= maxSize && |q| > 0 then q[1..] else q) + [f]
  }

  /** What one retry of `f` leaves in the queue: nothing on success or on the third failure. */
  function RetryOne<T>(f: FailedItem<T>, succeeded: bool): seq<FailedItem<T>>
  {
    if succeeded then []
    else
      var again := f.(retryCount := f.retryCount + 1);
      if again.retryCount < MaxRetries then [again] else []
  }

  /** retryFailures: the queue after every item of `q` has been retried with the matching outcome. */
  function AfterRetry<T>(q: seq<FailedItem<T>>, succeeded: seq<bool>): seq<FailedItem<T>>
    requires |succeeded| == |q|
  {
    if q == [] then []
    else AfterRetry(q[..|q| - 1], succeeded[..|q| - 1]) + RetryOne(q[|q| - 1], succeeded[|q| - 1])
  }

  /** One more record handed to the callback, in the last-split form both specifications use. */
  lemma RetryStep<T>(q: seq<FailedItem<T>>, succeeded: seq<bool>, i: nat)
    requires |succeeded| == |q| && i < |q|
    ensures Items(q[..i + 1]) == Items(q[..i]) + [q[i].item]
    ensures AfterRetry(q[..i + 1], succeeded[..i + 1]) == AfterRetry(q[..i], succeeded[..i]) + RetryOne(q[i], succeeded[i])
  {
    assert q[..i + 1][..i] == q[..i];
    assert succeeded[..i + 1][..i] == succeeded[..i];
  }

  /** The items of `q`, in queue order. */
  function Items<T>(q: seq<FailedItem<T>>): seq<T>
  {
    if q == [] then [] else Items(q[..|q| - 1]) + [q[|q| - 1].item]
  }

  /** The callback sees every stored item once, in FIFO order. */
  lemma {:induction false} ItemsInOrder<T>(q: seq<FailedItem<T>>)
    ensures |Items(q)| == |q| && forall i :: 0 <= i < |q| ==> Items(q)[i] == q[i].item
  {
    if q != [] {
      ItemsInOrder(q[..|q| - 1]);
    }
  }

  function StageOf<T>(f: FailedItem<T>): string
  {
    f.failedStage
  }

  function ErrorOf<T>(f: FailedItem<T>): string
  {
    f.error
  }

  /** Number of records of `q` whose `key` is `k`. */
  function KeyCount<T>(q: seq<FailedItem<T>>, key: FailedItem<T> -> string, k: string): nat
  {
    if q == [] then 0
    else KeyCount(q[..|q| - 1], key, k) + (if key(q[|q| - 1]) == k then 1 else 0)
  }

  /** The std::map<std::string, int> that `counts[key(record)]++` builds over `q`. */
  function TallyBy<T>(q: seq<FailedItem<T>>, key: FailedItem<T> -> string): map<string, nat>
  {
    if q == [] then map[]
    else
      var m := TallyBy(q[..|q| - 1], key);
      var k := key(q[|q| - 1]);
      m[k := (if k in m then m[k] else 0) + 1]
  }

  lemma TallyByStep<T>(q: seq<FailedItem<T>>, key: FailedItem<T> -> string, i: nat)
    requires i < |q|
    ensures var m := TallyBy(q[..i], key);
      TallyBy(q[..i + 1], key) == m[key(q[i]) := (if key(q[i]) in m then m[key(q[i])] else 0) + 1]
  {
    assert q[..i + 1][..i] == q[..i];
  }

  lemma {:induction false} KeyCountAbsent<T>(q: seq<FailedItem<T>>, key: FailedItem<T> -> string, k: string)
    requires forall i :: 0 <= i < |q| ==> key(q[i]) != k
    ensures KeyCount(q, key, k) == 0
  {
    if q != [] {
      KeyCountAbsent(q[..|q| - 1], key, k);
    }
  }

  /** The tally holds exactly the keys that occur, each with its number of records. */
  lemma {:induction false} TallyByExact<T>(q: seq<FailedItem<T>>, key: FailedItem<T> -> string, k: string)
    ensures k in TallyBy(q, key) <==> exists i :: 0 <= i < |q| && key(q[i]) == k
    ensures k in TallyBy(q, key) ==> TallyBy(q, key)[k] == KeyCount(q, key, k)
  {
    if q != [] {
      var n := |q| - 1;
      var init := q[..n];
      TallyByExact(init, key, k);
      assert forall i :: 0 <= i < n ==> init[i] == q[i];
      if exists i :: 0 <= i < |q| && key(q[i]) == k {
        var i :| 0 <= i < |q| && key(q[i]) == k;
        if i < n {
          assert key(init[i]) == k;
        }
      }
      if key(q[n]) == k && k !in TallyBy(init, key) {
        KeyCountAbsent(init, key, k);
      }
    }
  }

  /** Every queued record has been retried at most twice. */
  predicate RetryBounded<T>(q: seq<FailedItem<T>>)
  {
    forall i :: 0 <= i < |q| ==> 0 <= q[i].retryCount < MaxRetries
  }

  class DeadLetterQueue<T> {
    var queue: seq<FailedItem<T>>
    const maxSize: nat

    ghost predicate Valid()
      reads this
    {
      |queue| <= maxSize && RetryBounded(queue)
    }

    constructor (maxSize: nat := DefaultMaxSize)
      ensures Valid() && this.maxSize == maxSize && queue == []
    {
      this.maxSize := maxSize;
      queue := [];
    }

    /** storeFailure; `now` is the wall-clock reading. A full queue of capacity 0 has no front to drop. */
    method StoreFailure(item: T, error: string, stage: string, now: int)
      requires Valid() && maxSize >= 1
      modifies this
      ensures Valid()
      ensures queue == Stored(old(queue), maxSize, FailedItem(item, error, now, stage, 0))
    {
      if |queue| >= maxSize {
        queue := queue[1..];
      }
      queue := queue + [FailedItem(item, error, now, stage, 0)];
    }

    /**
     * retryFailures. `succeeded[i]` is whether the callback returned normally
     * on the i-th stored item; `calls` are the items handed to it, in order.
     */
    method RetryFailures(succeeded: seq<bool>) returns (calls: seq<T>)
      requires Valid() && |succeeded| == |queue|
      modifies this
      ensures Valid()
      ensures calls == Items(old(queue))
      ensures queue == AfterRetry(old(queue), succeeded)
    {
      var tempQueue := queue;
      queue := [];
      calls := [];
      var i := 0;
      while i < |tempQueue|
        invariant 0 <= i <= |tempQueue|
        invariant calls == Items(tempQueue[..i])
        invariant queue == AfterRetry(tempQueue[..i], succeeded[..i])
      {
        var failed := tempQueue[i];
        calls := calls + [failed.item];
        RetryStep(tempQueue, succeeded, i);
        if !succeeded[i] {
          failed := failed.(retryCount := failed.retryCount + 1);
          if failed.retryCount < MaxRetries {
            assert RetryOne(tempQueue[i], succeeded[i]) == [failed];
            queue := queue + [failed];
          } else {
            assert RetryOne(tempQueue[i], succeeded[i]) == [];
          }
        } else {
          assert RetryOne(tempQueue[i], succeeded[i]) == [];
        }
        i := i + 1;
      }
      assert tempQueue[..i] == tempQueue;
      assert succeeded[..i] == succeeded;
      AfterRetryShrinks(tempQueue, succeeded);
      AfterRetryBounded(tempQueue, succeeded);
    }

    /**
     * analyzeFailurePatterns: counts by stage and by error text, and the
     * stages it reports as high-failure.
     */
    method AnalyzeFailurePatterns() returns (byStage: map<string, nat>, byError: map<string, nat>, flagged: set<string>)
      ensures forall s :: s in byStage <==> exists i :: 0 <= i < |queue| && queue[i].failedStage == s
      ensures forall s :: s in byStage ==> byStage[s] == KeyCount(queue, StageOf, s)
      ensures forall e :: e in byError <==> exists i :: 0 <= i < |queue| && queue[i].error == e
      ensures forall e :: e in byError ==> byError[e] == KeyCount(queue, ErrorOf, e)
      ensures forall s :: s in flagged <==> s in byStage && byStage[s] > HighFailureThreshold
    {
      byStage, byError := map[], map[];
      var i := 0;
      while i < |queue|
        invariant 0 <= i <= |queue|
        invariant byStage == TallyBy(queue[..i], StageOf)
        invariant byError == TallyBy(queue[..i], ErrorOf)
      {
        var failed := queue[i];
        TallyByStep(queue, StageOf, i);
        TallyByStep(queue, ErrorOf, i);
        byStage := byStage[failed.failedStage := (if failed.failedStage in byStage then byStage[failed.failedStage] else 0) + 1];
        byError := byError[failed.error := (if failed.error in byError then byError[failed.error] else 0) + 1];
        i := i + 1;
      }
      assert queue[..i] == queue;
      flagged := set s | s in byStage && byStage[s] > HighFailureThreshold;
      forall s
        ensures (s in byStage <==> exists i :: 0 <= i < |queue| && queue[i].failedStage == s)
        ensures s in byStage ==> byStage[s] == KeyCount(queue, StageOf, s)
      {
        TallyByExact(queue, StageOf, s);
      }
      forall e
        ensures (e in byError <==> exists i :: 0 <= i < |queue| && queue[i].error == e)
        ensures e in byError ==> byError[e] == KeyCount(queue, ErrorOf, e)
      {
        TallyByExact(queue, ErrorOf, e);
      }
    }

    function Size(): nat
      reads this
    {
      |queue|
    }

    function Empty(): (empty: bool)
      reads this
      ensures empty <==> Size() == 0
    {
      |queue| == 0
    }

    method Clear()
      requires Valid()
      modifies this
      ensures Valid() && queue == []
    {
      queue := [];
    }
  }

  // ---------------------------------------------------------------------
  // Properties
  // ---------------------------------------------------------------------

  lemma StoreBelowCapacity<T>(q: seq<FailedItem<T>>, maxSize: nat, f: FailedItem<T>)
    requires |q| < maxSize
    ensures Stored(q, maxSize, f) == q + [f]
  {
  }

  lemma StoreAtCapacity<T>(q: seq<FailedItem<T>>, maxSize: nat, f: FailedItem<T>)
    requires 1 <= maxSize && |q| == maxSize
    ensures Stored(q, maxSize, f) == q[1..] + [f]
    ensures |Stored(q, maxSize, f)| == maxSize
  {
  }

  lemma StoreKeepsBounds<T>(q: seq<FailedItem<T>>, maxSize: nat, f: FailedItem<T>)
    requires 1 <= maxSize && |q| <= maxSize && RetryBounded(q) && f.retryCount == 0
    ensures |Stored(q, maxSize, f)| <= maxSize && RetryBounded(Stored(q, maxSize, f))
  {
  }

  /** Storing four records into a queue of capacity three keeps the last three. */
  lemma CapacityThreeEvictsOldest<T>(f1: FailedItem<T>, f2: FailedItem<T>, f3: FailedItem<T>, f4: FailedItem<T>)
    ensures Stored(Stored(Stored(Stored([], 3, f1), 3, f2), 3, f3), 3, f4) == [f2, f3, f4]
  {
    assert Stored(Stored(Stored([], 3, f1), 3, f2), 3, f3) == [f1, f2, f3];
  }

  lemma {:induction false} AfterRetryShrinks<T>(q: seq<FailedItem<T>>, succeeded: seq<bool>)
    requires |succeeded| == |q|
    ensures |AfterRetry(q, succeeded)| <= |q|
  {
    if q != [] {
      AfterRetryShrinks(q[..|q| - 1], succeeded[..|q| - 1]);
    }
  }

  lemma {:induction false} AfterRetryBounded<T>(q: seq<FailedItem<T>>, succeeded: seq<bool>)
    requires |succeeded| == |q| && RetryBounded(q)
    ensures RetryBounded(AfterRetry(q, succeeded))
  {
    if q != [] {
      AfterRetryBounded(q[..|q| - 1], succeeded[..|q| - 1]);
    }
  }

  /** The records a retry pass keeps: it failed, and had been retried at most once before. */
  predicate Kept<T>(f: FailedItem<T>, succeeded: bool)
  {
    !succeeded && f.retryCount + 1 < MaxRetries
  }

  /** The indices of the records a retry pass keeps, in increasing order. */
  function KeptIndices<T>(q: seq<FailedItem<T>>, succeeded: seq<bool>): seq<nat>
    requires |succeeded| == |q|
  {
    if q == [] then []
    else KeptIndices(q[..|q| - 1], succeeded[..|q| - 1]) + (if Kept(q[|q| - 1], succeeded[|q| - 1]) then [|q| - 1] else [])
  }

  /** The kept indices are in range and strictly increasing. */
  lemma {:induction false} KeptIndicesInOrder<T>(q: seq<FailedItem<T>>, succeeded: seq<bool>)
    requires |succeeded| == |q|
    ensures forall k :: 0 <= k < |KeptIndices(q, succeeded)| ==> KeptIndices(q, succeeded)[k] < |q|
    ensures forall k, l :: 0 <= k < l < |KeptIndices(q, succeeded)| ==> KeptIndices(q, succeeded)[k] < KeptIndices(q, succeeded)[l]
  {
    if q != [] {
      var n := |q| - 1;
      KeptIndicesInOrder(q[..n], succeeded[..n]);
      var idx' := KeptIndices(q[..n], succeeded[..n]);
      assert |q[..n]| == n;
      assert forall k :: 0 <= k < |idx'| ==> idx'[k] < n;
      assert KeptIndices(q, succeeded) == idx' + (if Kept(q[n], succeeded[n]) then [n] else []);
    }
  }

  /** An index is kept exactly when its record is. */
  lemma {:induction false} KeptIndicesMembers<T>(q: seq<FailedItem<T>>, succeeded: seq<bool>)
    requires |succeeded| == |q|
    ensures var idx := KeptIndices(q, succeeded);
      forall i :: 0 <= i < |q| ==> (i in idx <==> Kept(q[i], succeeded[i]))
  {
    if q != [] {
      var n := |q| - 1;
      var q', s' := q[..n], succeeded[..n];
      KeptIndicesMembers(q', s');
      KeptIndicesInOrder(q', s');
      var idx' := KeptIndices(q', s');
      var idx := KeptIndices(q, succeeded);
      assert idx == idx' + (if Kept(q[n], succeeded[n]) then [n] else []);
      assert n !in idx';
      forall i | 0 <= i < |q|
        ensures i in idx <==> Kept(q[i], succeeded[i])
      {
        if i < n {
          assert q'[i] == q[i] && s'[i] == succeeded[i];
          assert i in idx <==> i in idx';
        }
      }
    }
  }

  /** The record at position k after the pass is the k-th kept record with its count raised. */
  lemma {:induction false} AfterRetryAtKept<T>(q: seq<FailedItem<T>>, succeeded: seq<bool>)
    requires |succeeded| == |q|
    ensures var idx := KeptIndices(q, succeeded);
      var r := AfterRetry(q, succeeded);
      && |r| == |idx|
      && (forall k :: 0 <= k < |idx| ==> idx[k] < |q| && r[k] == q[idx[k]].(retryCount := q[idx[k]].retryCount + 1))
  {
    if q != [] {
      var n := |q| - 1;
      var q', s' := q[..n], succeeded[..n];
      AfterRetryAtKept(q', s');
      var idx' := KeptIndices(q', s');
      assert forall k :: 0 <= k < |idx'| ==> q'[idx'[k]] == q[idx'[k]];
    }
  }

  /**
   * After a retry pass the queue is exactly the records whose retry failed and
   * whose incremented retry count is below three, each with that count, in
   * their original relative order.
   */
  lemma AfterRetryExactly<T>(q: seq<FailedItem<T>>, succeeded: seq<bool>)
    requires |succeeded| == |q|
    ensures var idx := KeptIndices(q, succeeded);
      var r := AfterRetry(q, succeeded);
      && |r| == |idx|
      && (forall k :: 0 <= k < |idx| ==> idx[k] < |q| && r[k] == q[idx[k]].(retryCount := q[idx[k]].retryCount + 1))
      && (forall k, l :: 0 <= k < l < |idx| ==> idx[k] < idx[l])
      && (forall i :: 0 <= i < |q| ==> (i in idx <==> Kept(q[i], succeeded[i])))
  {
    KeptIndicesInOrder(q, succeeded);
    KeptIndicesMembers(q, succeeded);
    AfterRetryAtKept(q, succeeded);
  }

  /** A pass in which every retry fails raises every surviving record's retry count. */
  lemma {:induction false} AllFailRaisesRetries<T>(q: seq<FailedItem<T>>, succeeded: seq<bool>, m: int)
    requires |succeeded| == |q| && forall i :: 0 <= i < |q| ==> !succeeded[i]
    requires forall i :: 0 <= i < |q| ==> q[i].retryCount >= m
    ensures forall j :: 0 <= j < |AfterRetry(q, succeeded)| ==> AfterRetry(q, succeeded)[j].retryCount >= m + 1
  {
    if q != [] {
      var n := |q| - 1;
      AllFailRaisesRetries(q[..n], succeeded[..n], m);
    }
  }

  function AllFailed(n: nat): (s: seq<bool>)
    ensures |s| == n && forall i :: 0 <= i < n ==> !s[i]
  {
    seq(n, i => false)
  }

  /** Three passes in which every retry fails empty any well-formed queue. */
  lemma ThreeFailingPassesEmpty<T>(q: seq<FailedItem<T>>)
    requires RetryBounded(q)
    ensures var q1 := AfterRetry(q, AllFailed(|q|));
      var q2 := AfterRetry(q1, AllFailed(|q1|));
      AfterRetry(q2, AllFailed(|q2|)) == []
  {
    var q1 := AfterRetry(q, AllFailed(|q|));
    AllFailRaisesRetries(q, AllFailed(|q|), 0);
    AfterRetryBounded(q, AllFailed(|q|));
    var q2 := AfterRetry(q1, AllFailed(|q1|));
    AllFailRaisesRetries(q1, AllFailed(|q1|), 1);
    AfterRetryBounded(q1, AllFailed(|q1|));
    var q3 := AfterRetry(q2, AllFailed(|q2|));
    AllFailRaisesRetries(q2, AllFailed(|q2|), 2);
    AfterRetryBounded(q2, AllFailed(|q2|));
  }

  /** A fresh record whose retries always fail survives two passes, with its count raised, and the third drops it. */
  lemma SingleFailingItemRetriedThreeTimes<T>(f: FailedItem<T>)
    requires f.retryCount == 0
    ensures AfterRetry([f], [false]) == [f.(retryCount := 1)]
    ensures AfterRetry([f.(retryCount := 1)], [false]) == [f.(retryCount := 2)]
    ensures AfterRetry([f.(retryCount := 2)], [false]) == []
  {
    assert [f][..0] == [] && [false][..0] == [];
    assert RetryOne(f, false) == [f.(retryCount := 1)];
    assert RetryOne(f.(retryCount := 1), false) == [f.(retryCount := 2)];
    assert RetryOne(f.(retryCount := 2), false) == [];
  }
}
