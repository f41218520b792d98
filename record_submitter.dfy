/**
 * Batching of journal records in SeaStore
 * (crimson/os/seastore/journal/record_submitter.cc).
 *
 * A RecordBatch collects records (EMPTY -> PENDING), is encoded and written
 * as one I/O (PENDING -> SUBMITTING), and is reset when the write completes
 * (SUBMITTING -> EMPTY). The RecordSubmitter owns io_depth + 1 batches: one is
 * the current batch taking new records, the free ones wait in a pool, and the
 * rest are being written. Its state follows the number of outstanding writes:
 * IDLE with none, PENDING below the I/O depth, FULL at the I/O depth.
 *
 * Futures and promises are reduced to what they signal: whether a batch
 * holds an io_promise, and whether a submitter waits for a flush once it is
 * no longer FULL. Journal writes are asynchronous: a write is issued by one
 * call and its completion is a later call.
 */
module RecordSubmitter {
  import opened Wrappers

  datatype BatchState = Empty | Pending | Submitting

  /** record_group_size_t as far as the batch uses it: encoded and metadata length. */
  datatype GroupSize = GroupSize(encodedLength: nat, mdLength: nat)

  /** The result of a journal write: where it starts and how long it is. */
  datatype WriteResult = WriteResult(startSeq: nat, length: nat)

  /** promise_result_t: the write result and the metadata length of the batch. */
  datatype PromiseResult = PromiseResult(write: WriteResult, mdLength: nat)

  /** A batch of records written as one journal I/O. */
  class RecordBatch {
    /** Position of the batch in the submitter's array. */
    const index: nat
    const batchCapacity: nat
    const batchFlushSize: nat
    var state: BatchState
    /** pending.get_size(): records added since the last encode. */
    var numRecords: nat
    /** pending.size: size of the pending group. */
    var pendingSize: GroupSize
    var submittingSize: nat
    var submittingLength: nat
    var submittingMdlength: nat
    /** io_promise.has_value() */
    var hasPromise: bool

    predicate Valid()
      reads this
    {
      && (hasPromise <==> state != Empty)
      && (state == Pending <==> numRecords > 0)
      && (numRecords == 0 ==> pendingSize == GroupSize(0, 0))
      && (state != Submitting ==> submittingSize == 0 && submittingLength == 0 && submittingMdlength == 0)
    }

    /** initialize(index, batch_capacity, batch_flush_size): an empty batch. */
    constructor(index: nat, batchCapacity: nat, batchFlushSize: nat)
      ensures Valid() && state == Empty && numRecords == 0
      ensures this.index == index && this.batchCapacity == batchCapacity && this.batchFlushSize == batchFlushSize
    {
      this.index := index;
      this.batchCapacity := batchCapacity;
      this.batchFlushSize := batchFlushSize;
      state := Empty;
      numRecords := 0;
      pendingSize := GroupSize(0, 0);
      submittingSize := 0;
      submittingLength := 0;
      submittingMdlength := 0;
      hasPromise := false;
    }

    /**
     * add_pending: append a record whose group size afterwards is `newSize`;
     * an empty batch gets a fresh io_promise, and the batch is PENDING after.
     */
    method AddPending(newSize: GroupSize)
      requires Valid() && state != Submitting
      modifies this
      ensures Valid() && state == Pending && hasPromise
      ensures numRecords == old(numRecords) + 1 && pendingSize == newSize
      ensures submittingSize == old(submittingSize) && submittingLength == old(submittingLength)
      ensures submittingMdlength == old(submittingMdlength)
    {
      numRecords := numRecords + 1;
      pendingSize := newSize;
      if state == Empty {
        hasPromise := true;
      }
      state := Pending;
    }

    /**
     * encode_batch: a pending batch with records becomes SUBMITTING; the
     * record count and group lengths move to the submitting fields and the
     * pending group is cleared. Returns the group size written.
     */
    method EncodeBatch() returns (gsize: GroupSize)
      requires Valid() && state == Pending && numRecords > 0 && hasPromise
      modifies this
      ensures Valid() && state == Submitting && hasPromise
      ensures gsize == old(pendingSize)
      ensures submittingSize == old(numRecords)
      ensures submittingLength == old(pendingSize).encodedLength
      ensures submittingMdlength == old(pendingSize).mdLength
      ensures numRecords == 0 && pendingSize == GroupSize(0, 0)
    {
      state := Submitting;
      submittingSize := numRecords;
      gsize := pendingSize;
      submittingLength := gsize.encodedLength;
      submittingMdlength := gsize.mdLength;
      numRecords := 0;
      pendingSize := GroupSize(0, 0);
    }

    /**
     * set_result: the write of a submitting batch completed (or failed,
     * None); the batch is EMPTY again with its submitting fields zeroed, and
     * the value handed to the waiting records is returned.
     */
    method SetResult(result: Option<WriteResult>) returns (delivered: Option<PromiseResult>)
      requires Valid() && state == Submitting && hasPromise
      requires result.Some? ==> result.value.length == submittingLength
      modifies this
      ensures Valid() && state == Empty && !hasPromise
      ensures submittingSize == 0 && submittingLength == 0 && submittingMdlength == 0
      ensures numRecords == old(numRecords) && pendingSize == old(pendingSize)
      ensures delivered == if result.Some? then Some(PromiseResult(result.value, old(submittingMdlength))) else None
    {
      delivered := if result.Some? then Some(PromiseResult(result.value, submittingMdlength)) else None;
      state := Empty;
      submittingSize := 0;
      submittingLength := 0;
      submittingMdlength := 0;
      hasPromise := false;
    }

    /**
     * submit_pending_fast: an empty batch encodes a single record as its own
     * group, bypassing the pending list; the batch itself does not change.
     */
    method SubmitPendingFast(newSize: GroupSize) returns (size: GroupSize)
      requires Valid() && state == Empty
      ensures size == newSize
    {
      size := newSize;
    }
  }

  datatype SubmitterState = Idle | PendingIo | Full

  /** update_state: the submitter state for `n` outstanding writes; more than the limit aborts. */
  function StateOf(n: nat, limit: nat): (s: SubmitterState)
    requires n <= limit
    ensures s == Idle <==> n == 0
    ensures s == PendingIo <==> 0 < n < limit
    ensures s == Full <==> 0 < n == limit
  {
    if n == 0 then Idle else if n < limit then PendingIo else Full
  }

  datatype Action = Roll | SubmitFull | SubmitNotFull

  /**
   * check_action: roll the journal segment if the evaluated write does not
   * fit, otherwise submit, flagging whether the evaluated batch is full.
   */
  function CheckAction(needsRoll: bool, isFull: bool): (a: Action)
    ensures a == Roll <==> needsRoll
    ensures a == SubmitFull <==> !needsRoll && isFull
    ensures a == SubmitNotFull <==> !needsRoll && !isFull
  {
    if needsRoll then Roll else if isFull then SubmitFull else SubmitNotFull
  }

  /** How submit handled a record. */
  datatype SubmitPath = FastWrite | Batched(flushed: bool)

  /** The set of elements of a sequence. */
  function Elems(s: seq<nat>): (r: set<nat>)
    ensures forall x :: x in r <==> x in s
  {
    set x | x in s
  }

  /** Distinct elements: the set has as many elements as the sequence. */
  lemma {:induction false} DistinctCard(s: seq<nat>)
    requires forall k, l :: 0 <= k < l < |s| ==> s[k] != s[l]
    ensures |Elems(s)| == |s|
  {
    if s != [] {
      DistinctCard(s[1..]);
      assert Elems(s) == {s[0]} + Elems(s[1..]);
      assert s[0] !in Elems(s[1..]);
    }
  }

  /** A set of numbers below `n` that avoids `i` has at most n - 1 elements. */
  lemma {:induction false} CardBelowAvoiding(u: set<nat>, n: nat, i: nat)
    requires i < n
    requires forall x :: x in u ==> x < n && x != i
    ensures |u| <= n - 1
    decreases n
  {
    if n - 1 == i {
      CardBelow(u, n - 1);
    } else {
      CardBelowAvoiding(u - {n - 1}, n - 1, i);
    }
  }

  /** A set of numbers below `n` has at most n elements. */
  lemma {:induction false} CardBelow(u: set<nat>, n: nat)
    requires forall x :: x in u ==> x < n
    ensures |u| <= n
    decreases n
  {
    if n > 0 {
      CardBelow(u - {n - 1}, n - 1);
    } else {
      assert u == {};
    }
  }

  /**
   * The batches of a new submitter, each initialized empty with its
   * position as index, and the free list holding every one of them.
   */
  method NewBatches(count: nat, batchCapacity: nat, batchFlushSize: nat)
    returns (bs: seq<RecordBatch>, free: seq<nat>)
    ensures |bs| == count && free == seq(count, k => k)
    ensures forall j :: 0 <= j < count ==>
      fresh(bs[j]) && bs[j].Valid() && bs[j].index == j && bs[j].state == Empty
  {
    bs := [];
    free := [];
    var i := 0;
    while i < count
      invariant 0 <= i <= count && |bs| == i
      invariant forall j :: 0 <= j < i ==> fresh(bs[j]) && bs[j].Valid() && bs[j].index == j && bs[j].state == Empty
      invariant free == seq(i, k => k)
    {
      var b := new RecordBatch(i, batchCapacity, batchFlushSize);
      bs := bs + [b];
      free := free + [i];
      i := i + 1;
    }
  }

  /** The journal record submitter with its pool of io_depth + 1 batches. */
  class Submitter {
    const ioDepthLimit: nat
    /** batches: the array of io_depth + 1 batches. */
    const batches: seq<RecordBatch>
    /** free_batch_ptrs, by batch index. */
    var freeBatches: seq<nat>
    /** p_current_batch, by batch index. */
    var current: nat
    var numOutstandingIo: nat
    var state: SubmitterState
    /** wait_unfull_flush_promise.has_value() */
    var waitUnfullFlush: bool
    /** The batches whose write is in flight. */
    ghost var inFlight: set<nat>

    ghost predicate Valid()
      reads this, batches
    {
      && ioDepthLimit > 0 && |batches| == ioDepthLimit + 1
      && (forall i :: 0 <= i < |batches| ==> batches[i].index == i)
      && (forall i {:trigger batches[i].Valid()} :: 0 <= i < |batches| ==> batches[i].Valid())
      && current < |batches| && current !in freeBatches && current !in inFlight
      && batches[current].state != Submitting
      && (forall k :: 0 <= k < |freeBatches| ==>
            freeBatches[k] < |batches| && freeBatches[k] !in inFlight && batches[freeBatches[k]].state == Empty)
      && (forall k, l :: 0 <= k < l < |freeBatches| ==> freeBatches[k] != freeBatches[l])
      && (forall i :: i in inFlight ==> i < |batches|)
      && (forall i {:trigger batches[i]} :: 0 <= i < |batches| && i in inFlight ==> batches[i].state == Submitting)
      && |freeBatches| + 1 + |inFlight| == |batches|
      && |inFlight| <= numOutstandingIo <= ioDepthLimit
      && state == StateOf(numOutstandingIo, ioDepthLimit)
      && (waitUnfullFlush ==> state == Full && batches[current].state == Pending)
    }

    /**
     * RecordSubmitter(io_depth, batch_capacity, ...): io_depth + 1 empty
     * batches, all put in the free pool, then the first one popped as the
     * current batch.
     */
    constructor(ioDepth: nat, batchCapacity: nat, batchFlushSize: nat)
      requires ioDepth > 0 && batchCapacity > 0
      ensures Valid()
      ensures numOutstandingIo == 0 && state == Idle && !waitUnfullFlush && inFlight == {}
      ensures current == 0 && freeBatches == seq(ioDepth, k => k + 1)
      ensures forall i :: 0 <= i < |batches| ==> fresh(batches[i]) && batches[i].state == Empty
    {
      var bs, free := NewBatches(ioDepth + 1, batchCapacity, batchFlushSize);
      ioDepthLimit := ioDepth;
      batches := bs;
      current := free[0];
      freeBatches := free[1..];
      numOutstandingIo := 0;
      state := Idle;
      waitUnfullFlush := false;
      inFlight := {};
      new;
      assert forall k :: 0 <= k < |freeBatches| ==> freeBatches[k] == k + 1;
    }

    /** update_state: recompute the state from the outstanding-write count. */
    method UpdateState()
      requires numOutstandingIo <= ioDepthLimit
      modifies this
      ensures numOutstandingIo == old(numOutstandingIo) && current == old(current)
      ensures state == StateOf(numOutstandingIo, ioDepthLimit)
      ensures freeBatches == old(freeBatches) && waitUnfullFlush == old(waitUnfullFlush)
      ensures inFlight == old(inFlight)
    {
      if numOutstandingIo == 0 {
        state := Idle;
      } else if numOutstandingIo < ioDepthLimit {
        state := PendingIo;
      } else {
        state := Full;
      }
    }

    /**
     * flush_current_batch: the current batch is encoded and its write issued;
     * the next free batch becomes current and the write counts as
     * outstanding. Returns the group size written.
     */
    method FlushCurrentBatch() returns (gsize: GroupSize)
      requires Valid() && batches[current].state == Pending
      requires numOutstandingIo < ioDepthLimit
      modifies this, batches[current]
      ensures Valid()
      ensures inFlight == old(inFlight) + {old(current)}
      ensures current == old(freeBatches)[0] && freeBatches == old(freeBatches)[1..]
      ensures numOutstandingIo == old(numOutstandingIo) + 1
      ensures waitUnfullFlush == old(waitUnfullFlush)
      ensures gsize == old(batches[current].pendingSize)
      ensures batches[old(current)].submittingSize == old(batches[current].numRecords)
    {
      var b := current;
      assert |freeBatches| > 0 && !waitUnfullFlush;
      assert forall i :: 0 <= i < |batches| && i != b ==> batches[i] != batches[b];
      // pop_free_batch, then increment_io, then encode_batch
      current := freeBatches[0];
      freeBatches := freeBatches[1..];
      numOutstandingIo := numOutstandingIo + 1;
      state := StateOf(numOutstandingIo, ioDepthLimit);
      gsize := batches[b].EncodeBatch();
      inFlight := inFlight + {b};

    }

    /**
     * decrement_io_with_flush: one write completed. The count drops by one;
     * a submitter leaving FULL with a flush waiting flushes the current
     * batch, otherwise a non-empty current batch is flushed when the
     * submitter went idle or `wantsFlush` (fullness above the preferred
     * ratio, or the batch needs a flush). Reports whether it flushed, which
     * puts one write back in flight.
     */
    method DecrementIoWithFlush(wantsFlush: bool) returns (flushed: bool)
      requires Valid() && |inFlight| < numOutstandingIo
      modifies this, batches[current]
      ensures Valid()
      ensures numOutstandingIo == old(numOutstandingIo) - 1 + (if flushed then 1 else 0)
      ensures flushed <==>
        (old(state) == Full && old(waitUnfullFlush)) ||
        (old(batches[current].state) == Pending && (old(numOutstandingIo) == 1 || wantsFlush))
      ensures !waitUnfullFlush
      ensures !flushed ==> current == old(current) && freeBatches == old(freeBatches) && inFlight == old(inFlight)
      ensures flushed ==> inFlight == old(inFlight) + {old(current)} && freeBatches == old(freeBatches)[1..]
    {
      var prv := state;
      numOutstandingIo := numOutstandingIo - 1;
      UpdateState();
      if prv == Full && waitUnfullFlush {
        waitUnfullFlush := false;
        var _ := FlushCurrentBatch();
        return true;
      }
      flushed := batches[current].state != Empty && (state == Idle || wantsFlush);
      if flushed {
        var _ := FlushCurrentBatch();
      }
    }

    /**
     * finish_submit_batch: the write of an in-flight batch completed; the
     * batch is reset with the result, returned to the free pool, and the
     * outstanding-write count is decremented (possibly flushing).
     */
    method FinishSubmitBatch(idx: nat, result: Option<WriteResult>, wantsFlush: bool)
      returns (delivered: Option<PromiseResult>, flushed: bool)
      requires Valid() && idx in inFlight
      requires result.Some? ==> result.value.length == batches[idx].submittingLength
      modifies this, batches[idx], batches[current]
      ensures Valid()
      ensures numOutstandingIo == old(numOutstandingIo) - 1 + (if flushed then 1 else 0)
      ensures idx !in inFlight && batches[idx].state == Empty
      ensures !flushed ==> freeBatches == old(freeBatches) + [idx] && current == old(current)
      ensures flushed ==> freeBatches == (old(freeBatches) + [idx])[1..]
      ensures delivered == if result.Some? then Some(PromiseResult(result.value, old(batches[idx].submittingMdlength))) else None
    {
      delivered := batches[idx].SetResult(result);
      freeBatches := freeBatches + [idx];
      inFlight := inFlight - {idx};
      flushed := DecrementIoWithFlush(wantsFlush);
    }

    /**
     * submit: one record whose group size in the current batch would be
     * `newSize`. The flush is wanted when the submitter is idle,
     * `overPreferred` (fullness above the preferred ratio) or `evalFull`
     * holds, or the batch reaches its capacity. An empty current batch takes
     * the fast path (a direct write) unless the submitter is FULL; otherwise
     * the record is added to the current batch, which is flushed at once,
     * or, when FULL, once a write completes (unless an atomic roll follows).
     */
    method Submit(newSize: GroupSize, overPreferred: bool, evalFull: bool, withAtomicRoll: bool)
      returns (path: SubmitPath)
      requires Valid() && !waitUnfullFlush
      modifies this, batches[current]
      ensures Valid()
      ensures path == FastWrite ==> numOutstandingIo == old(numOutstandingIo) + 1 && inFlight == old(inFlight) && current == old(current)
      ensures path == FastWrite <==>
        old(batches[current].state) == Empty && old(state) != Full &&
        (old(state) == Idle || overPreferred || evalFull || old(batches[current].numRecords) + 1 >= batches[old(current)].batchCapacity)
      ensures path.Batched? ==>
        (path.flushed <==>
          (old(state) != Full &&
           (old(state) == Idle || overPreferred || evalFull || old(batches[current].numRecords) + 1 >= batches[old(current)].batchCapacity)))
      ensures path.Batched? && !path.flushed ==> numOutstandingIo == old(numOutstandingIo) && current == old(current)
      ensures path.Batched? && !path.flushed ==>
                && batches[current].state == Pending && batches[current].pendingSize == newSize
                && batches[current].numRecords == old(batches[current].numRecords) + 1
      ensures path.Batched? && path.flushed ==> numOutstandingIo == old(numOutstandingIo) + 1 && inFlight == old(inFlight) + {old(current)}
      ensures path.Batched? && path.flushed ==>
                && batches[old(current)].state == Submitting
                && batches[old(current)].submittingSize == old(batches[current].numRecords) + 1
      ensures waitUnfullFlush <==>
        old(state) == Full && !withAtomicRoll &&
        (overPreferred || evalFull || old(batches[current].numRecords) + 1 >= batches[old(current)].batchCapacity)
    {
      var b := batches[current];
      var needsFlush := state == Idle || overPreferred || evalFull || b.numRecords + 1 >= b.batchCapacity;
      if b.state == Empty && needsFlush && state != Full {
        SubmitFast(newSize);
        return FastWrite;
      }
      path := SubmitBatched(newSize, needsFlush, withAtomicRoll);
    }

    /** The fast path of submit: the record is written as a group of its own. */
    method SubmitFast(newSize: GroupSize)
      requires Valid() && batches[current].state == Empty && state != Full
      modifies this
      ensures Valid()
      ensures numOutstandingIo == old(numOutstandingIo) + 1 && inFlight == old(inFlight) && current == old(current)
      ensures waitUnfullFlush == old(waitUnfullFlush)
    {
      numOutstandingIo := numOutstandingIo + 1;
      UpdateState();
      var _ := batches[current].SubmitPendingFast(newSize);
    }

    /**
     * The batched path of submit: the record joins the current batch, which
     * is flushed at once when a flush is needed and the submitter is not
     * FULL; when FULL, the flush waits for a write to complete unless an
     * atomic roll follows.
     */
    method SubmitBatched(newSize: GroupSize, needsFlush: bool, withAtomicRoll: bool) returns (path: SubmitPath)
      requires Valid() && !waitUnfullFlush
      modifies this, batches[current]
      ensures Valid()
      ensures path.Batched? && (path.flushed <==> needsFlush && old(state) != Full)
      ensures !path.flushed ==> numOutstandingIo == old(numOutstandingIo) && current == old(current)
      ensures !path.flushed ==> freeBatches == old(freeBatches) && inFlight == old(inFlight)
      ensures !path.flushed ==>
                && batches[current].state == Pending && batches[current].pendingSize == newSize
                && batches[current].numRecords == old(batches[current].numRecords) + 1
      ensures path.flushed ==> numOutstandingIo == old(numOutstandingIo) + 1 && inFlight == old(inFlight) + {old(current)}
      ensures path.flushed ==> current == old(freeBatches)[0] && freeBatches == old(freeBatches)[1..]
      ensures path.flushed ==>
                && batches[old(current)].state == Submitting
                && batches[old(current)].submittingSize == old(batches[current].numRecords) + 1
      ensures waitUnfullFlush <==> needsFlush && old(state) == Full && !withAtomicRoll
    {
      batches[current].AddPending(newSize);
      if needsFlush {
        if state == Full {
          if !withAtomicRoll {
            waitUnfullFlush := true;
          }
          path := Batched(false);
        } else {
          var _ := FlushCurrentBatch();
          path := Batched(true);
        }
      } else {
        path := Batched(false);
      }
    }
  }

  /**
   * The pool never runs dry while a write can still be issued: below the
   * I/O depth at least one batch is free.
   */
  lemma FreeBatchAvailable(s: Submitter)
    requires s.Valid() && s.numOutstandingIo < s.ioDepthLimit
    ensures |s.freeBatches| > 0
  {
  }

  /**
   * Every batch is accounted for: it is the current batch, waits in the free
   * pool, or is being written.
   */
  lemma PoolCoversAllBatches(s: Submitter, i: nat)
    requires s.Valid() && i < |s.batches|
    ensures i == s.current || i in s.freeBatches || i in s.inFlight
  {
    if i != s.current && i !in s.freeBatches && i !in s.inFlight {
      var u := {s.current} + Elems(s.freeBatches) + s.inFlight;
      DistinctCard(s.freeBatches);
      assert Elems(s.freeBatches) * s.inFlight == {};
      assert |u| == |s.batches|;
      CardBelowAvoiding(u, |s.batches|, i);
    }
  }
}
