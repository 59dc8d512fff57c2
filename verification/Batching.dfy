/** Queues that are uploaded in batches: client events, limited by count and by serialized bytes,
    and delivery updates, limited by count. */
module Batching {
  import opened Prelude

  /** The size of an event is the length of its JSON serialization. */
  datatype Limits<!T> = Limits(maxBatch: nat, maxBytes: nat, maxQueue: nat, size: T -> nat) {
    predicate Valid() { 1 <= maxBatch && 1 <= maxQueue }
  }

  function Bytes<T>(events: seq<T>, size: T -> nat): nat {
    if events == [] then 0 else Bytes(events[..|events| - 1], size) + size(events[|events| - 1])
  }

  /** What the server accepts in one call. A single event may exceed the byte limit. */
  predicate Fits<T>(batch: seq<T>, limits: Limits<T>) {
    && |batch| <= limits.maxBatch
    && (|batch| <= 1 || Bytes(batch, limits.size) <= limits.maxBytes)
  }

  lemma {:induction false} BytesAppend<T>(xs: seq<T>, ys: seq<T>, size: T -> nat)
    ensures Bytes(xs + ys, size) == Bytes(xs, size) + Bytes(ys, size)
  {
    if ys == [] {
      assert xs + ys == xs;
    } else {
      BytesAppend(xs, ys[..|ys| - 1], size);
      AppendInit(xs, ys);
    }
  }

  lemma {:induction false} BytesOfOne<T>(x: T, size: T -> nat)
    ensures Bytes([x], size) == size(x)
  {
    assert [x][..0] == [];
  }

  /** A stretch of a batch that fits also fits. */
  lemma {:induction false} FitsWithin<T>(batch: seq<T>, from: nat, to: nat, limits: Limits<T>)
    requires Fits(batch, limits) && from <= to <= |batch|
    ensures Fits(batch[from..to], limits)
  {
    assert batch == batch[..from] + batch[from..to] + batch[to..];
    BytesAppend(batch[..from] + batch[from..to], batch[to..], limits.size);
    BytesAppend(batch[..from], batch[from..to], limits.size);
  }

  /** Extend a batch of `n` events as far as the limits allow. */
  function Fill<T>(events: seq<T>, n: nat, limits: Limits<T>): (m: nat)
    requires n <= |events|
    ensures n <= m <= |events|
    decreases |events| - n
  {
    if n < |events| && n < limits.maxBatch && (n == 0 || Bytes(events[..n + 1], limits.size) <= limits.maxBytes)
    then Fill(events, n + 1, limits)
    else n
  }

  function FirstBatch<T>(events: seq<T>, limits: Limits<T>): (m: nat)
    ensures m <= |events|
  {
    Fill(events, 0, limits)
  }

  lemma {:induction false} FillFits<T>(events: seq<T>, n: nat, limits: Limits<T>)
    requires n <= |events| && Fits(events[..n], limits)
    ensures Fits(events[..Fill(events, n, limits)], limits)
    ensures forall m :: Fill(events, n, limits) < m <= |events| ==> !Fits(events[..m], limits)
    decreases |events| - n
  {
    if n < |events| {
      if Fits(events[..n + 1], limits) {
        FillFits(events, n + 1, limits);
      } else {
        forall m | n < m <= |events|
          ensures !Fits(events[..m], limits)
        {
          if Fits(events[..m], limits) {
            assert events[..m][0..n + 1] == events[..n + 1];
            FitsWithin(events[..m], 0, n + 1, limits);
          }
        }
      }
    }
  }

  /** The first batch is the longest stretch from the front of the queue that the server accepts. */
  lemma {:induction false} FirstBatchIsLongest<T>(events: seq<T>, limits: Limits<T>)
    ensures Fits(events[..FirstBatch(events, limits)], limits)
    ensures forall m :: 0 <= m <= |events| && Fits(events[..m], limits) ==> m <= FirstBatch(events, limits)
    ensures limits.Valid() && events != [] ==> 0 < FirstBatch(events, limits)
  {
    FillFits(events, 0, limits);
    if limits.Valid() && events != [] {
      assert Fits(events[..1], limits);
    }
  }

  /** What that means for the counts: the batch is a single event or within the byte limit, and one event
      more would not be allowed. */
  lemma {:induction false} FirstBatchExactly<T>(events: seq<T>, limits: Limits<T>)
    requires limits.Valid() && events != []
    ensures var n := FirstBatch(events, limits);
            && 1 <= n <= |events| && n <= limits.maxBatch
            && (n > 1 ==> Bytes(events[..n], limits.size) <= limits.maxBytes)
            && (n == |events| || n == limits.maxBatch || Bytes(events[..n + 1], limits.size) > limits.maxBytes)
  {
    FirstBatchIsLongest(events, limits);
    var n := FirstBatch(events, limits);
    if n < |events| {
      assert !Fits(events[..n + 1], limits);
    }
  }

  lemma {:induction false} BytesPush<T>(front: seq<T>, x: T, size: T -> nat)
    ensures Bytes(front + [x], size) == Bytes(front, size) + size(x)
  {
    assert (front + [x])[..|front|] == front;
  }

  /** Moving one event from the rest to the front of the queue. */
  lemma {:induction false} FrontGrows<T>(all: seq<T>, front: seq<T>, rest: seq<T>)
    requires front + rest == all && rest != []
    ensures all[..|front| + 1] == front + [rest[0]]
    ensures front + [rest[0]] + rest[1..] == all
  {
    var moved := front + [rest[0]];
    assert |moved + rest[1..]| == |all|;
    forall i | 0 <= i < |all|
      ensures (moved + rest[1..])[i] == all[i]
    {
      assert all[i] == (front + rest)[i];
    }
  }

  function Batches<T>(events: seq<T>, limits: Limits<T>): seq<seq<T>>
    requires limits.Valid()
    decreases |events|
  {
    if events == [] then []
    else
      FirstBatchIsLongest(events, limits);
      var n := FirstBatch(events, limits);
      [events[..n]] + Batches(events[n..], limits)
  }

  /** The batches are the queue cut into pieces, in order. */
  lemma {:induction false} BatchesSplit<T>(events: seq<T>, limits: Limits<T>)
    requires limits.Valid()
    ensures Flatten(Batches(events, limits)) == events
    decreases |events|
  {
    if events != [] {
      FirstBatchIsLongest(events, limits);
      var n := FirstBatch(events, limits);
      BatchesSplit(events[n..], limits);
      FlattenCons(events[..n], Batches(events[n..], limits));
      assert events[..n] + events[n..] == events;
    }
  }

  lemma {:induction false} BatchesFit<T>(events: seq<T>, limits: Limits<T>)
    requires limits.Valid()
    ensures forall b :: b in Batches(events, limits) ==> b != [] && Fits(b, limits)
    decreases |events|
  {
    if events != [] {
      FirstBatchIsLongest(events, limits);
      BatchesFit(events[FirstBatch(events, limits)..], limits);
    }
  }

  /** Two ways to the same stretch of the queue: the part of batch events[j..j'] that lies behind k. */
  lemma {:induction false} SameStretch<T>(events: seq<T>, j: nat, k: nat, j': nat)
    requires j <= k <= j' <= |events|
    ensures events[k..][..j' - k] == events[j..j'][k - j..j' - j]
  {
    var front, back := events[k..][..j' - k], events[j..j'][k - j..j' - j];
    forall i | 0 <= i < j' - k
      ensures front[i] == back[i]
    {
      assert front[i] == events[k + i] == events[j..j'][k - j + i];
    }
  }

  lemma {:induction false} DropTwice<T>(events: seq<T>, k: nat, n: nat)
    requires k + n <= |events|
    ensures events[k..][n..] == events[k + n..]
  {
  }

  /** A split of what is left of the queue begins with its first batch. */
  lemma {:induction false} SplitFront<T>(events: seq<T>, j: nat, split: seq<seq<T>>)
    requires j < |events| && events[j..] == FlattenFront(split)
    ensures split != [] && j + |split[0]| <= |events|
    ensures events[j..j + |split[0]|] == split[0]
    ensures events[j + |split[0]|..] == FlattenFront(split[1..])
  {
    var b, rest := split[0], FlattenFront(split[1..]);
    assert |events[j..]| == |b| + |rest|;
    assert events[j..][..|b|] == b && events[j..][|b|..] == rest;
    DropTwice(events, j, |b|);
  }

  /** Cutting each batch as long as possible is optimal: from position `k`, no in-order split of
      the queue from an earlier position `j` into acceptable batches uses fewer of them. */
  lemma {:induction false} GreedyStaysAhead<T>(events: seq<T>, j: nat, k: nat, split: seq<seq<T>>, limits: Limits<T>)
    requires limits.Valid() && j <= k <= |events|
    requires events[j..] == FlattenFront(split) && forall b :: b in split ==> Fits(b, limits)
    ensures |Batches(events[k..], limits)| <= |split|
    decreases |split|
  {
    if k < |events| {
      SplitFront(events, j, split);
      var b, rest := split[0], split[1..];
      var j' := j + |b|;
      if j' <= k {
        GreedyStaysAhead(events, j', k, rest, limits);
      } else {
        var tail := events[k..];
        FitsWithin(b, k - j, |b|, limits);
        SameStretch(events, j, k, j');
        FirstBatchIsLongest(tail, limits);
        assert Fits(tail[..j' - k], limits);
        var n := FirstBatch(tail, limits);
        DropTwice(events, k, n);
        GreedyStaysAhead(events, j', k + n, rest, limits);
      }
    }
  }

  function FlattenFront<T>(parts: seq<seq<T>>): seq<T> {
    if parts == [] then [] else parts[0] + FlattenFront(parts[1..])
  }

  lemma {:induction false} FlattenFrontIsFlatten<T>(parts: seq<seq<T>>)
    ensures FlattenFront(parts) == Flatten(parts)
  {
    if parts != [] {
      FlattenFrontIsFlatten(parts[1..]);
      FlattenCons(parts[0], parts[1..]);
      assert [parts[0]] + parts[1..] == parts;
    }
  }

  lemma {:induction false} GreedyIsOptimal<T>(events: seq<T>, split: seq<seq<T>>, limits: Limits<T>)
    requires limits.Valid()
    requires Flatten(split) == events && forall b :: b in split ==> Fits(b, limits)
    ensures |Batches(events, limits)| <= |split|
  {
    FlattenFrontIsFlatten(split);
    assert events[0..] == events;
    GreedyStaysAhead(events, 0, 0, split, limits);
  }

  // ---------- the queue and the calls that empty it ----------

  /** `handed` is every batch given to the client so far, whether or not the call succeeded. Call
      number i succeeds when `accepts(i)`. */
  datatype Queue<T> = Queue(pending: seq<T>, handed: seq<seq<T>>) {
    function All(): seq<T> { Flatten(handed) + pending }
  }

  datatype Outcome = Done | WriteFailed | Backpressure

  function FlushQueue<T>(q: Queue<T>, limits: Limits<T>, accepts: nat -> bool): (Queue<T>, Outcome)
    requires limits.Valid()
    decreases |q.pending|
  {
    if q.pending == [] then (q, Done)
    else
      FirstBatchIsLongest(q.pending, limits);
      var n := FirstBatch(q.pending, limits);
      var q' := Queue(q.pending[n..], q.handed + [q.pending[..n]]);
      if accepts(|q.handed|) then FlushQueue(q', limits, accepts) else (q', WriteFailed)
  }

  lemma {:induction false} HandOver<T>(q: Queue<T>, n: nat)
    requires n <= |q.pending|
    ensures Queue(q.pending[n..], q.handed + [q.pending[..n]]).All() == q.All()
  {
    var batch, rest := q.pending[..n], q.pending[n..];
    FlattenPush(q.handed, batch);
    assert batch + rest == q.pending;
    Reassociate(Flatten(q.handed), batch, rest);
  }

  /** A flush moves events from the queue to the client, in order and without loss or copy; it ends
      well exactly when nothing is left, and is never refused for lack of room. */
  lemma {:induction false} FlushConserves<T>(q: Queue<T>, limits: Limits<T>, accepts: nat -> bool)
    requires limits.Valid()
    ensures FlushQueue(q, limits, accepts).0.All() == q.All()
    ensures |FlushQueue(q, limits, accepts).0.pending| <= |q.pending|
    ensures FlushQueue(q, limits, accepts).1 != Backpressure
    ensures FlushQueue(q, limits, accepts).1 == Done ==> FlushQueue(q, limits, accepts).0.pending == []
    ensures (forall call: nat :: accepts(call)) ==> FlushQueue(q, limits, accepts).1 == Done
    decreases |q.pending|
  {
    if q.pending != [] {
      FirstBatchIsLongest(q.pending, limits);
      var n := FirstBatch(q.pending, limits);
      var q' := Queue(q.pending[n..], q.handed + [q.pending[..n]]);
      HandOver(q, n);
      FlushConserves(q', limits, accepts);
    }
  }

  /** A flush hands over the greedy batches up to and including the first whose call fails. */
  lemma {:induction false} FlushHandsBatches<T>(q: Queue<T>, limits: Limits<T>, accepts: nat -> bool) returns (n: nat)
    requires limits.Valid()
    ensures n <= |Batches(q.pending, limits)|
    ensures FlushQueue(q, limits, accepts).0.handed == q.handed + Batches(q.pending, limits)[..n]
    ensures FlushQueue(q, limits, accepts).1 == Done ==> n == |Batches(q.pending, limits)|
    ensures FlushQueue(q, limits, accepts).1 == WriteFailed ==> 0 < n && !accepts(|q.handed| + n - 1)
    ensures forall call: nat :: |q.handed| <= call < |q.handed| + n - 1 ==> accepts(call)
    decreases |q.pending|
  {
    if q.pending == [] {
      n := 0;
    } else {
      FirstBatchIsLongest(q.pending, limits);
      var m := FirstBatch(q.pending, limits);
      var q' := Queue(q.pending[m..], q.handed + [q.pending[..m]]);
      var batches := Batches(q.pending, limits);
      assert batches[1..] == Batches(q'.pending, limits) && batches[..1] == [q.pending[..m]];
      if accepts(|q.handed|) {
        n := FlushHandsBatches(q', limits, accepts);
        SliceJoin(batches, 1, n);
        Reassociate(q.handed, batches[..1], batches[1..][..n]);
        n := n + 1;
      } else {
        n := 1;
      }
    }
  }

  /** Some call from number `from` up to, not including, number `to` did not succeed. */
  ghost predicate SomeCallFailed(from: nat, to: nat, accepts: nat -> bool) {
    exists call: nat :: from <= call < to && !accepts(call)
  }

  /** A flush is done exactly when every batch of the queue was accepted. It reports a failed write
      exactly when a call that it made was not accepted, and makes no call after that one. */
  lemma {:induction false} FlushFailsExactly<T>(q: Queue<T>, limits: Limits<T>, accepts: nat -> bool)
    requires limits.Valid()
    ensures FlushQueue(q, limits, accepts).1 == Done
            <==> !SomeCallFailed(|q.handed|, |q.handed| + |Batches(q.pending, limits)|, accepts)
    ensures var (q', outcome) := FlushQueue(q, limits, accepts);
            && |q'.handed| >= |q.handed|
            && (outcome == WriteFailed <==> SomeCallFailed(|q.handed|, |q'.handed|, accepts))
            && !SomeCallFailed(|q.handed|, |q'.handed| - (if outcome == WriteFailed then 1 else 0), accepts)
    decreases |q.pending|
  {
    if q.pending != [] {
      FirstBatchIsLongest(q.pending, limits);
      var n := FirstBatch(q.pending, limits);
      var q1 := Queue(q.pending[n..], q.handed + [q.pending[..n]]);
      assert |Batches(q.pending, limits)| == 1 + |Batches(q1.pending, limits)|;
      if accepts(|q.handed|) {
        FlushFailsExactly(q1, limits, accepts);
        FailedFrom(|q.handed|, |q.handed| + |Batches(q.pending, limits)|, accepts);
        FailedFrom(|q.handed|, |FlushQueue(q, limits, accepts).0.handed|, accepts);
      } else {
        assert SomeCallFailed(|q.handed|, |q.handed| + 1, accepts);
      }
    }
  }

  lemma {:induction false} FailedFrom(from: nat, to: nat, accepts: nat -> bool)
    requires accepts(from)
    ensures SomeCallFailed(from, to, accepts) <==> SomeCallFailed(from + 1, to, accepts)
  {
  }

  lemma {:induction false} FailedJoin(from: nat, mid: nat, to: nat, accepts: nat -> bool)
    requires from <= mid <= to
    ensures SomeCallFailed(from, to, accepts) <==> SomeCallFailed(from, mid, accepts) || SomeCallFailed(mid, to, accepts)
  {
  }

  /** `enqueue_and_flush`: the events go through the queue in chunks of at most `maxQueue`. */
  function Upload<T>(q: Queue<T>, events: seq<T>, limits: Limits<T>, accepts: nat -> bool): (Queue<T>, Outcome)
    requires limits.Valid()
    decreases |events|
  {
    if events == [] then (q, Done)
    else
      var n := ChunkLength(events, limits);
      if |q.pending| + n > limits.maxQueue then (q, Backpressure)
      else
        var (q', outcome) := FlushQueue(q.(pending := q.pending + events[..n]), limits, accepts);
        if outcome != Done then (q', outcome) else Upload(q', events[n..], limits, accepts)
  }

  function ChunkLength<T>(events: seq<T>, limits: Limits<T>): nat {
    if |events| < limits.maxQueue then |events| else limits.maxQueue
  }

  /** One chunk of an upload. */
  lemma {:induction false} UploadChunk<T>(q: Queue<T>, events: seq<T>, chunk: seq<T>, limits: Limits<T>, accepts: nat -> bool)
    requires limits.Valid() && events != [] && chunk == events[..ChunkLength(events, limits)]
    ensures |q.pending| + |chunk| > limits.maxQueue ==> Upload(q, events, limits, accepts) == (q, Backpressure)
    ensures |q.pending| + |chunk| <= limits.maxQueue ==>
              var (q', outcome) := FlushQueue(Queue(q.pending + chunk, q.handed), limits, accepts);
              Upload(q, events, limits, accepts)
              == if outcome != Done then (q', outcome) else Upload(q', events[|chunk|..], limits, accepts)
  {
  }

  /** Under any pattern of failures: the events handed over, followed by the queue, are the earlier
      ones followed by a front part of the new ones, all of them if the upload is done. The queue
      stays within its limit. */
  lemma {:induction false} UploadConserves<T>(q: Queue<T>, events: seq<T>, limits: Limits<T>, accepts: nat -> bool)
      returns (taken: nat)
    requires limits.Valid() && |q.pending| <= limits.maxQueue
    ensures taken <= |events|
    ensures Upload(q, events, limits, accepts).0.All() == q.All() + events[..taken]
    ensures |Upload(q, events, limits, accepts).0.pending| <= limits.maxQueue
    ensures Upload(q, events, limits, accepts).1 == Done && events != [] ==>
              taken == |events| && Upload(q, events, limits, accepts).0.pending == []
    decreases |events|
  {
    var n := ChunkLength(events, limits);
    if events == [] || |q.pending| + n > limits.maxQueue {
      taken := 0;
    } else {
      var queued := q.(pending := q.pending + events[..n]);
      Enqueued(q, events[..n]);
      FlushConserves(queued, limits, accepts);
      var (q', outcome) := FlushQueue(queued, limits, accepts);
      if outcome != Done {
        taken := n;
      } else {
        taken := UploadConserves(q', events[n..], limits, accepts);
        SliceJoin(events, n, taken);
        Reassociate(q.All(), events[..n], events[n..][..taken]);
        taken := n + taken;
      }
    }
  }

  lemma {:induction false} Enqueued<T>(q: Queue<T>, more: seq<T>)
    ensures q.(pending := q.pending + more).All() == q.All() + more
  {
    Reassociate(Flatten(q.handed), q.pending, more);
  }

  /** An upload reports a failed write exactly when a call that it made was not accepted. It makes none for
      no events. */
  lemma {:induction false} UploadFailsExactly<T>(q: Queue<T>, events: seq<T>, limits: Limits<T>, accepts: nat -> bool)
    requires limits.Valid()
    ensures var (q', outcome) := Upload(q, events, limits, accepts);
            && |q'.handed| >= |q.handed| && (events == [] ==> q' == q)
            && (outcome == WriteFailed <==> SomeCallFailed(|q.handed|, |q'.handed|, accepts))
    decreases |events|
  {
    var n := ChunkLength(events, limits);
    if events != [] && |q.pending| + n <= limits.maxQueue {
      var queued := q.(pending := q.pending + events[..n]);
      FlushFailsExactly(queued, limits, accepts);
      var (q1, outcome) := FlushQueue(queued, limits, accepts);
      if outcome == Done {
        UploadFailsExactly(q1, events[n..], limits, accepts);
        FailedJoin(|q.handed|, |q1.handed|, |Upload(q, events, limits, accepts).0.handed|, accepts);
      }
      FlushConserves(queued, limits, accepts);
    }
  }

  /** The batches of an upload: those of each stretch that fills the queue, one stretch after the other. */
  function UploadBatches<T>(events: seq<T>, limits: Limits<T>): seq<seq<T>>
    requires limits.Valid()
    decreases |events|
  {
    if |events| <= limits.maxQueue then Batches(events, limits)
    else Batches(events[..limits.maxQueue], limits) + UploadBatches(events[limits.maxQueue..], limits)
  }

  /** With working calls an upload through an empty queue hands over exactly these. */
  lemma {:induction false} UploadHandsBatches<T>(q: Queue<T>, events: seq<T>, limits: Limits<T>, accepts: nat -> bool)
    requires limits.Valid() && q.pending == [] && forall call: nat :: accepts(call)
    ensures Upload(q, events, limits, accepts) == (Queue([], q.handed + UploadBatches(events, limits)), Done)
    decreases |events|
  {
    if events == [] {
      assert q.handed + [] == q.handed;
    } else {
      var n := ChunkLength(events, limits);
      var queued := q.(pending := q.pending + events[..n]);
      assert queued.pending == events[..n];
      FlushConserves(queued, limits, accepts);
      var m := FlushHandsBatches(queued, limits, accepts);
      var q1 := FlushQueue(queued, limits, accepts).0;
      assert Batches(events[..n], limits)[..m] == Batches(events[..n], limits);
      UploadHandsBatches(q1, events[n..], limits, accepts);
      if |events| <= limits.maxQueue {
        assert events[..n] == events && events[n..] == [];
        assert Upload(q1, [], limits, accepts) == (q1, Done);
      } else {
        Reassociate(q.handed, Batches(events[..n], limits), UploadBatches(events[n..], limits));
      }
    }
  }

  /** Room is lacking only for what an earlier failure left behind; without failures, never. */
  lemma {:induction false} BackpressureExactly<T>(q: Queue<T>, events: seq<T>, limits: Limits<T>, accepts: nat -> bool)
    requires limits.Valid() && |q.pending| <= limits.maxQueue
    ensures Upload(q, events, limits, accepts).1 == Backpressure <==>
              q.pending != [] && |q.pending| + |events| > limits.maxQueue
    ensures (forall call: nat :: accepts(call)) && q.pending == [] ==> Upload(q, events, limits, accepts).1 == Done
    decreases |events|
  {
    var n := ChunkLength(events, limits);
    if events != [] && |q.pending| + n <= limits.maxQueue {
      var queued := q.(pending := q.pending + events[..n]);
      FlushConserves(queued, limits, accepts);
      BackpressureExactly(FlushQueue(queued, limits, accepts).0, events[n..], limits, accepts);
    }
  }

  /** The client of the upload calls, with everything it was given. */
  class WorkerClient<T> {
    const accepts: nat -> bool
    var handed: seq<seq<T>>

    constructor (accepts: nat -> bool)
      ensures this.accepts == accepts && handed == []
    {
      this.accepts := accepts;
      handed := [];
    }

    method Write(batch: seq<T>) returns (ok: bool)
      modifies this
      ensures handed == old(handed) + [batch] && ok == accepts(|old(handed)|)
    {
      ok := accepts(|handed|);
      handed := handed + [batch];
    }
  }

  const CLIENT_EVENT_MAX_BATCH_SIZE: nat := 100
  const CLIENT_EVENT_MAX_BATCH_BYTES: nat := 10 * 1024 * 1024
  const CLIENT_EVENT_MAX_QUEUE_SIZE: nat := 100_000

  class ClientEventUploader<T> {
    var pending: seq<T>
    const limits: Limits<T>

    ghost predicate Valid()
      reads this
    {
      limits.Valid() && |pending| <= limits.maxQueue
    }

    constructor (size: T -> nat)
      ensures Valid() && pending == []
      ensures limits == Limits(CLIENT_EVENT_MAX_BATCH_SIZE, CLIENT_EVENT_MAX_BATCH_BYTES, CLIENT_EVENT_MAX_QUEUE_SIZE, size)
    {
      pending := [];
      limits := Limits(CLIENT_EVENT_MAX_BATCH_SIZE, CLIENT_EVENT_MAX_BATCH_BYTES, CLIENT_EVENT_MAX_QUEUE_SIZE, size);
    }

    constructor WithLimits(maxBatch: nat, maxBytes: nat, maxQueue: nat, size: T -> nat)
      ensures Valid() && pending == [] && limits.size == size
      ensures maxBatch > 0 && maxBytes > 0 && maxQueue > 0 ==> limits == Limits(maxBatch, maxBytes, maxQueue, size)
    {
      pending := [];
      limits := Limits(if maxBatch < 1 then 1 else maxBatch, if maxBytes < 1 then 1 else maxBytes,
                       if maxQueue < 1 then 1 else maxQueue, size);
    }

    method EnqueueAndFlush(events: seq<T>, client: WorkerClient<T>) returns (outcome: Outcome)
      requires Valid()
      modifies this`pending, client
      ensures Valid()
      ensures (Queue(pending, client.handed), outcome)
              == Upload(Queue(old(pending), old(client.handed)), events, limits, client.accepts)
    {
      ghost var start := Queue(pending, client.handed);
      ghost var taken := UploadConserves(start, events, limits, client.accepts);
      var at := 0;
      while at < |events|
        invariant at <= |events| && Valid()
        invariant Upload(start, events, limits, client.accepts)
                  == Upload(Queue(pending, client.handed), events[at..], limits, client.accepts)
      {
        var end := if |events| - at < limits.maxQueue then |events| else at + limits.maxQueue;
        var chunk := events[at..end];
        assert events[at..][..|chunk|] == chunk && events[at..][|chunk|..] == events[end..];
        UploadChunk(Queue(pending, client.handed), events[at..], chunk, limits, client.accepts);
        outcome := Enqueue(chunk);
        if outcome != Done {
          return;
        }
        outcome := Flush(client);
        if outcome != Done {
          return;
        }
        at := end;
      }
      outcome := Done;
    }

    method Enqueue(events: seq<T>) returns (outcome: Outcome)
      requires Valid()
      modifies this`pending
      ensures Valid()
      ensures outcome == (if |old(pending)| + |events| > limits.maxQueue && events != [] then Backpressure else Done)
      ensures pending == if outcome == Done then old(pending) + events else old(pending)
    {
      if |events| == 0 {
        return Done;
      }
      if |pending| + |events| > limits.maxQueue {
        return Backpressure;
      }
      pending := pending + events;
      outcome := Done;
    }

    method Flush(client: WorkerClient<T>) returns (outcome: Outcome)
      requires Valid()
      modifies this`pending, client
      ensures Valid()
      ensures (Queue(pending, client.handed), outcome)
              == FlushQueue(Queue(old(pending), old(client.handed)), limits, client.accepts)
    {
      while |pending| > 0
        invariant Valid()
        invariant FlushQueue(Queue(old(pending), old(client.handed)), limits, client.accepts)
                  == FlushQueue(Queue(pending, client.handed), limits, client.accepts)
        decreases |pending|
      {
        FirstBatchIsLongest(pending, limits);
        var batch := TakeBatch();
        if |batch| > 0 {
          var ok := client.Write(batch);
          if !ok {
            return WriteFailed;
          }
        }
      }
      outcome := Done;
    }

    method TakeBatch() returns (batch: seq<T>)
      requires Valid()
      modifies this`pending
      ensures batch + pending == old(pending) && |batch| == FirstBatch(old(pending), limits)
      ensures Fits(batch, limits)
      ensures forall m :: |batch| < m <= |old(pending)| ==> !Fits(old(pending)[..m], limits)
    {
      batch := [];
      var bytes := 0;
      FirstBatchIsLongest(pending, limits);
      while |batch| < limits.maxBatch
        invariant batch + pending == old(pending)
        invariant bytes == Bytes(batch, limits.size)
        invariant Fill(old(pending), |batch|, limits) == FirstBatch(old(pending), limits)
        decreases |pending|
      {
        if |pending| == 0 {
          break;
        }
        var nextBytes := limits.size(pending[0]);
        FrontGrows(old(pending), batch, pending);
        BytesPush(batch, pending[0], limits.size);
        if |batch| > 0 && bytes + nextBytes > limits.maxBytes {
          break;
        }
        batch, pending, bytes := batch + [pending[0]], pending[1..], bytes + nextBytes;
      }
      assert batch == old(pending)[..|batch|];
    }
  }

  // ---------- delivery updates ----------

  /** Delivery updates are batched by count alone. */
  function CountLimits<T>(maxBatch: nat, maxQueue: nat): Limits<T> {
    Limits(maxBatch, 0, maxQueue, _ => 0)
  }

  lemma {:induction false} CountedBatch<T>(events: seq<T>, limits: Limits<T>)
    requires limits.Valid() && limits == CountLimits(limits.maxBatch, limits.maxQueue)
    ensures FirstBatch(events, limits) == if |events| < limits.maxBatch then |events| else limits.maxBatch
  {
    var n := if |events| < limits.maxBatch then |events| else limits.maxBatch;
    FirstBatchIsLongest(events, limits);
    assert Bytes(events[..n], limits.size) == 0 by { WeighNothing(events[..n], limits); }
    assert Fits(events[..n], limits);
  }

  lemma {:induction false} WeighNothing<T>(events: seq<T>, limits: Limits<T>)
    requires forall e :: limits.size(e) == 0
    ensures Bytes(events, limits.size) == 0
  {
    if events != [] {
      WeighNothing(events[..|events| - 1], limits);
    }
  }

  /** `enqueue_and_flush_if_full`: make room if needed, queue the updates, empty a full queue. */
  function Deliver<T>(q: Queue<T>, updates: seq<T>, limits: Limits<T>, accepts: nat -> bool): (Queue<T>, Outcome)
    requires limits.Valid()
  {
    if updates == [] then (q, Done)
    else
      var (q', room) := if |q.pending| + |updates| > limits.maxQueue then FlushQueue(q, limits, accepts) else (q, Done);
      if room != Done then (q', room)
      else if |q'.pending| + |updates| > limits.maxQueue then (q', Backpressure)
      else
        var queued := q'.(pending := q'.pending + updates);
        if |queued.pending| >= limits.maxBatch then FlushQueue(queued, limits, accepts) else (queued, Done)
  }

  /** Updates are taken all or none. They are refused for lack of room only if they could never fit,
      and a call that ends well leaves less than a batch behind. */
  lemma {:induction false} DeliverConserves<T>(q: Queue<T>, updates: seq<T>, limits: Limits<T>, accepts: nat -> bool) returns (taken: bool)
    requires limits.Valid() && |q.pending| <= limits.maxQueue
    ensures Deliver(q, updates, limits, accepts).0.All() == if taken then q.All() + updates else q.All()
    ensures |Deliver(q, updates, limits, accepts).0.pending| <= limits.maxQueue
    ensures Deliver(q, updates, limits, accepts).1 == Done && updates != [] ==>
              taken && |Deliver(q, updates, limits, accepts).0.pending| < limits.maxBatch
    ensures Deliver(q, updates, limits, accepts).1 == Backpressure ==> |updates| > limits.maxQueue
    ensures (forall call: nat :: accepts(call)) ==>
              (Deliver(q, updates, limits, accepts).1 == Backpressure <==> |updates| > limits.maxQueue)
  {
    taken := false;
    if updates != [] {
      var q' := q;
      if |q.pending| + |updates| > limits.maxQueue {
        FlushConserves(q, limits, accepts);
        if FlushQueue(q, limits, accepts).1 != Done {
          return;
        }
        q' := FlushQueue(q, limits, accepts).0;
      }
      if |q'.pending| + |updates| <= limits.maxQueue {
        taken := true;
        Enqueued(q', updates);
        FlushConserves(q'.(pending := q'.pending + updates), limits, accepts);
      }
    }
  }

  /** Updates wait, and nothing is handed over, while they do not fill a batch. */
  lemma {:induction false} DeliverWaits<T>(q: Queue<T>, updates: seq<T>, limits: Limits<T>, accepts: nat -> bool)
    requires limits.Valid() && |q.pending| + |updates| < limits.maxBatch && |q.pending| + |updates| <= limits.maxQueue
    ensures Deliver(q, updates, limits, accepts) == (Queue(q.pending + updates, q.handed), Done)
  {
    assert q.pending + [] == q.pending;
  }

  /** A delivery reports a failed call exactly when a call that it made was not accepted. It makes none for
      no updates. */
  lemma {:induction false} DeliverFailsExactly<T>(q: Queue<T>, updates: seq<T>, limits: Limits<T>, accepts: nat -> bool)
    requires limits.Valid()
    ensures var (q', outcome) := Deliver(q, updates, limits, accepts);
            && |q'.handed| >= |q.handed| && (updates == [] ==> q' == q)
            && (outcome == WriteFailed <==> SomeCallFailed(|q.handed|, |q'.handed|, accepts))
  {
    if updates != [] {
      FlushFailsExactly(q, limits, accepts);
      FlushConserves(q, limits, accepts);
      var q1 := if |q.pending| + |updates| > limits.maxQueue then FlushQueue(q, limits, accepts).0 else q;
      var queued := q1.(pending := q1.pending + updates);
      FlushFailsExactly(queued, limits, accepts);
      FlushConserves(queued, limits, accepts);
      var end := FlushQueue(queued, limits, accepts).0;
      FailedJoin(|q.handed|, |q1.handed|, |end.handed|, accepts);
    }
  }

  const DELIVERY_UPDATE_MAX_BATCH_SIZE: nat := 64
  const DELIVERY_UPDATE_MAX_QUEUE_SIZE: nat := 64

  class DeliveryUpdateUploader<T> {
    var pending: seq<T>
    const limits: Limits<T>

    ghost predicate Valid()
      reads this
    {
      limits.Valid() && limits == CountLimits(limits.maxBatch, limits.maxQueue) && |pending| <= limits.maxQueue
    }

    constructor ()
      ensures Valid() && pending == []
      ensures limits.maxBatch == DELIVERY_UPDATE_MAX_BATCH_SIZE && limits.maxQueue == DELIVERY_UPDATE_MAX_QUEUE_SIZE
    {
      pending := [];
      limits := CountLimits(DELIVERY_UPDATE_MAX_BATCH_SIZE, DELIVERY_UPDATE_MAX_QUEUE_SIZE);
    }

    method EnqueueAndFlushIfFull(updates: seq<T>, client: WorkerClient<T>) returns (outcome: Outcome)
      requires Valid()
      modifies this`pending, client
      ensures Valid()
      ensures (Queue(pending, client.handed), outcome)
              == Deliver(Queue(old(pending), old(client.handed)), updates, limits, client.accepts)
    {
      if |updates| == 0 {
        return Done;
      }
      if |pending| + |updates| > limits.maxQueue {
        outcome := Flush(client);
        if outcome != Done {
          return;
        }
      }
      if |pending| + |updates| > limits.maxQueue {
        return Backpressure;
      }
      pending := pending + updates;
      outcome := Done;
      if |pending| >= limits.maxBatch {
        outcome := Flush(client);
      }
    }

    method Flush(client: WorkerClient<T>) returns (outcome: Outcome)
      requires Valid()
      modifies this`pending, client
      ensures Valid()
      ensures (Queue(pending, client.handed), outcome)
              == FlushQueue(Queue(old(pending), old(client.handed)), limits, client.accepts)
    {
      while |pending| > 0
        invariant Valid()
        invariant FlushQueue(Queue(old(pending), old(client.handed)), limits, client.accepts)
                  == FlushQueue(Queue(pending, client.handed), limits, client.accepts)
        decreases |pending|
      {
        FirstBatchIsLongest(pending, limits);
        var batch := TakeBatch();
        if |batch| > 0 {
          var ok := client.Write(batch);
          if !ok {
            return WriteFailed;
          }
        }
      }
      outcome := Done;
    }

    method TakeBatch() returns (batch: seq<T>)
      requires Valid()
      modifies this`pending
      ensures batch + pending == old(pending) && |batch| == FirstBatch(old(pending), limits)
    {
      CountedBatch(pending, limits);
      var count := if |pending| < limits.maxBatch then |pending| else limits.maxBatch;
      batch, pending := pending[..count], pending[count..];
    }
  }
}
