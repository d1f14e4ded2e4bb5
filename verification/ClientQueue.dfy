/** The client's bounded telemetry queue: drop-oldest enqueue, batch draining, flushing (sdk-go/vconn/client.go). */
module ClientQueue {
  import opened Prelude
  import opened Arithmetic

  /** `Enqueue`: the oldest event makes room when the queue is full. */
  function Pushed<E>(queue: seq<E>, e: E, maxSize: nat): seq<E>
    requires maxSize > 0
  {
    if |queue| >= maxSize then queue[1..] + [e] else queue + [e]
  }

  /** How many events `drain(max)` takes; a non-positive max takes all. */
  function TakeCount<E>(queue: seq<E>, max: int): nat {
    if max <= 0 || max > |queue| then |queue| else max
  }

  function Flatten<E>(batches: seq<seq<E>>): seq<E> {
    if batches == [] then [] else Flatten(batches[..|batches| - 1]) + batches[|batches| - 1]
  }

  lemma FlattenPush<E>(sent: seq<seq<E>>, batch: seq<E>)
    ensures Flatten(sent + [batch]) == Flatten(sent) + batch
  {
    assert (sent + [batch])[..|sent|] == sent;
  }

  // ---- any interleaving of enqueues and drains ------------------------------

  datatype Event<E> = Enqueue(e: E) | Drain(max: int)

  /** The queue with its past: what was enqueued, what each drain handed out and where it stood in the past. */
  datatype Past<E> = Past(history: seq<E>, queue: seq<E>, batches: seq<seq<E>>, taken: seq<int>, dropped: nat)

  function Range(lo: int, n: nat): seq<int> {
    seq(n, i requires 0 <= i < n => lo + i)
  }

  function Step<E>(s: Past<E>, ev: Event<E>, maxSize: nat): Past<E>
    requires maxSize > 0
  {
    match ev
    case Enqueue(e) =>
      s.(history := s.history + [e], queue := Pushed(s.queue, e, maxSize),
         dropped := s.dropped + if |s.queue| >= maxSize then 1 else 0)
    case Drain(max) =>
      var n := TakeCount(s.queue, max);
      s.(queue := s.queue[n..], batches := s.batches + [s.queue[..n]],
         taken := s.taken + Range(|s.history| - |s.queue|, n))
  }

  /** Queue = a suffix of the past; drained = earlier positions of it, in order, none twice; the rest was dropped. */
  ghost predicate Conserved<E>(s: Past<E>, maxSize: nat) {
    && |s.queue| <= maxSize && |s.queue| <= |s.history|
    && s.queue == s.history[|s.history| - |s.queue|..]
    && |s.taken| == |Flatten(s.batches)|
    && (forall k :: 0 <= k < |s.taken| ==>
        0 <= s.taken[k] < |s.history| - |s.queue| && Flatten(s.batches)[k] == s.history[s.taken[k]])
    && (forall j, k :: 0 <= j < k < |s.taken| ==> s.taken[j] < s.taken[k])
    && |s.history| == |s.queue| + |Flatten(s.batches)| + s.dropped
  }

  ghost predicate Run<E>(states: seq<Past<E>>, events: seq<Event<E>>, maxSize: nat)
    requires maxSize > 0
  {
    && |states| == |events| + 1
    && states[0] == Past([], [], [], [], 0)
    && forall i :: 0 <= i < |events| ==> states[i + 1] == Step(states[i], events[i], maxSize)
  }

  lemma EnqueueConserves<E>(s: Past<E>, e: E, maxSize: nat)
    requires maxSize > 0 && Conserved(s, maxSize)
    ensures Conserved(Step(s, Enqueue(e), maxSize), maxSize)
  {
  }

  /** An event is dropped only to make room: when the queue is full, and then the oldest. */
  lemma DropsOnlyWhenFull<E>(s: Past<E>, e: E, maxSize: nat)
    requires maxSize > 0 && Conserved(s, maxSize)
    ensures var t := Step(s, Enqueue(e), maxSize);
            && (t.dropped == s.dropped <==> |s.queue| < maxSize)
            && (|s.queue| < maxSize ==> t.queue == s.queue + [e])
            && (|s.queue| == maxSize ==> [s.queue[0]] + t.queue == s.queue + [e] && t.dropped == s.dropped + 1)
  {
    if |s.queue| == maxSize {
      assert s.queue == [s.queue[0]] + s.queue[1..];
    }
  }

  lemma DrainConserves<E>(s: Past<E>, max: int, maxSize: nat)
    requires maxSize > 0 && Conserved(s, maxSize)
    ensures Conserved(Step(s, Drain(max), maxSize), maxSize)
  {
    FlattenPush(s.batches, s.queue[..TakeCount(s.queue, max)]);
  }

  lemma StepConserves<E>(s: Past<E>, ev: Event<E>, maxSize: nat)
    requires maxSize > 0 && Conserved(s, maxSize)
    ensures Conserved(Step(s, ev, maxSize), maxSize)
  {
    match ev
    case Enqueue(e) => EnqueueConserves(s, e, maxSize);
    case Drain(max) => DrainConserves(s, max, maxSize);
  }

  lemma NothingYet<E>(maxSize: nat)
    ensures Conserved<E>(Past([], [], [], [], 0), maxSize)
  {
  }

  /**
   * Over any interleaving of enqueues and drains, every event is queued, handed out once in
   * order, or was dropped for being oldest.
   */
  lemma {:induction false} QueueConservation<E>(states: seq<Past<E>>, events: seq<Event<E>>, maxSize: nat, i: nat)
    requires maxSize > 0 && Run(states, events, maxSize) && i < |states|
    ensures Conserved(states[i], maxSize)
  {
    if i == 0 {
      NothingYet<E>(maxSize);
    } else {
      var s, ev := states[i - 1], events[i - 1];
      assert states[i] == Step(s, ev, maxSize) && Conserved(s, maxSize) by {
        QueueConservation(states, events, maxSize, i - 1);
      }
      StepConserves(s, ev, maxSize);
    }
  }

  // ---- one flush --------------------------------------------------------------

  ghost predicate AllFull<E>(sent: seq<seq<E>>, size: nat, delivers: nat -> bool) {
    forall i :: 0 <= i < |sent| ==> delivers(i) && |sent[i]| == size
  }

  /** In the middle of a flush: full batches were sent, and they and the queue make up what there was. */
  ghost predicate Flushing<E>(start: seq<E>, sent: seq<seq<E>>, queue: seq<E>, size: nat, delivers: nat -> bool) {
    Flatten(sent) + queue == start && AllFull(sent, size, delivers)
  }

  lemma OneMore(n: nat, size: nat)
    ensures (n + 1) * size == n * size + size
  {
  }

  lemma {:induction false} FullLength<E>(sent: seq<seq<E>>, size: nat, delivers: nat -> bool)
    requires AllFull(sent, size, delivers)
    ensures |Flatten(sent)| == |sent| * size
  {
    if sent != [] {
      FullLength(sent[..|sent| - 1], size, delivers);
      OneMore(|sent| - 1, size);
    }
  }

  lemma SendsLeft(total: nat, d: nat, done: nat, left: nat)
    requires d > 0 && total == left + done * d && left > 0
    ensures done < CeilDiv(total, d)
  {
    var q := CeilDiv(total, d);
    assert total + d - 1 < q * d + d;
    if q < done {
      MulStep(q, done, d);
    }
  }

  lemma CeilExact(total: nat, d: nat, full: nat, rest: nat)
    requires d > 0 && total == full * d + rest && rest < d
    ensures CeilDiv(total, d) == if rest == 0 then full else full + 1
  {
    QuotientIs(total + d - 1, d, if rest == 0 then full else full + 1);
  }

  /** How far the flush has come, in sends. */
  lemma SendsSoFar<E>(start: seq<E>, sent: seq<seq<E>>, queue: seq<E>, size: nat, delivers: nat -> bool)
    requires size > 0 && Flushing(start, sent, queue, size, delivers)
    ensures queue != [] ==> |sent| < CeilDiv(|start|, size)
    ensures |queue| < size ==> CeilDiv(|start|, size) == if queue == [] then |sent| else |sent| + 1
  {
    FullLength(sent, size, delivers);
    if queue != [] {
      SendsLeft(|start|, size, |sent|, |queue|);
    }
    if |queue| < size {
      CeilExact(|start|, size, |sent|, |queue|);
    }
  }

  lemma FullPush<E>(sent: seq<seq<E>>, batch: seq<E>, size: nat, delivers: nat -> bool)
    requires AllFull(sent, size, delivers) && |batch| == size && delivers(|sent|)
    ensures AllFull(sent + [batch], size, delivers)
  {
  }

  lemma BatchSent<E>(start: seq<E>, sent: seq<seq<E>>, batch: seq<E>, rest: seq<E>, size: nat, delivers: nat -> bool)
    requires Flushing(start, sent, batch + rest, size, delivers) && delivers(|sent|)
    ensures Flatten(sent + [batch]) + rest == start
    ensures |batch| == size ==> Flushing(start, sent + [batch], rest, size, delivers)
  {
    assert Flatten(sent + [batch]) + rest == start by {
      FlattenPush(sent, batch);
      Regroup(Flatten(sent), batch, rest);
    }
    if |batch| == size {
      FullPush(sent, batch, size, delivers);
    }
  }

  /** What the sends of one flush look like, and where they leave the queue. */
  ghost predicate Sends<E>(size: nat, delivers: nat -> bool, failed: bool, sent: seq<seq<E>>, lost: seq<E>,
                           queue: seq<E>) {
    && (forall i :: 0 <= i < |sent| ==> delivers(i) && 0 < |sent[i]| <= size)
    && (forall i :: 0 <= i < |sent| - 1 ==> |sent[i]| == size)
    && if failed then 0 < |lost| <= size && !delivers(|sent|) else queue == [] && lost == []
  }

  lemma SentStaysFull<E>(sent: seq<seq<E>>, batch: seq<E>, size: nat, delivers: nat -> bool)
    requires AllFull(sent, size, delivers) && delivers(|sent|) && 0 < |batch| <= size
    ensures |batch| == size ==> AllFull(sent + [batch], size, delivers)
    ensures Sends(size, delivers, false, sent + [batch], [], [])
  {
  }

  /** What a flush that nothing interrupts does to the events there were. */
  ghost predicate Uninterrupted<E>(start: seq<E>, size: nat, delivers: nat -> bool, failed: bool, sent: seq<seq<E>>,
                                   lost: seq<E>, queue: seq<E>)
    requires size > 0
  {
    && Flatten(sent) + lost + queue == start
    && (failed <==> exists i :: 0 <= i < CeilDiv(|start|, size) && !delivers(i))
    && (!failed ==> |sent| == CeilDiv(|start|, size))
  }

  /** One round of an uninterrupted flush, however it ends. */
  lemma Progress<E>(alone: bool, start: seq<E>, sent: seq<seq<E>>, waiting: seq<E>, batch: seq<E>, rest: seq<E>,
                    size: nat, delivers: nat -> bool)
    requires size > 0 && (alone ==> Flushing(start, sent, waiting, size, delivers))
    requires waiting == batch + rest && |batch| <= size && (|batch| < size ==> rest == [])
    ensures alone && batch == [] ==> Uninterrupted(start, size, delivers, false, sent, [], rest)
    ensures alone && batch != [] && !delivers(|sent|) ==> Uninterrupted(start, size, delivers, true, sent, batch, rest)
    ensures alone && batch != [] && delivers(|sent|) && |batch| < size ==>
              Uninterrupted(start, size, delivers, false, sent + [batch], [], rest)
    ensures alone && delivers(|sent|) && |batch| == size ==> Flushing(start, sent + [batch], rest, size, delivers)
  {
    if alone {
      SendsSoFar(start, sent, waiting, size, delivers);
      Regroup(Flatten(sent), batch, rest);
      if batch != [] && delivers(|sent|) {
        BatchSent(start, sent, batch, rest, size, delivers);
      }
    }
  }

  /** The past since the flush began: the arrivals enqueued, the batches handed out, and the law kept. */
  ghost predicate Tracked<E>(before: Past<E>, now: Past<E>, queue: seq<E>, maxSize: nat,
                             arrivals: seq<seq<E>>, arrived: nat, batches: seq<seq<E>>) {
    && now.queue == queue && Conserved(now, maxSize) && arrived <= |arrivals|
    && now.history == before.history + Flatten(arrivals[..arrived])
    && now.batches == before.batches + batches
  }

  lemma ArrivalTracked<E>(before: Past<E>, now: Past<E>, now': Past<E>, queue: seq<E>, maxSize: nat,
                          arrivals: seq<seq<E>>, arrived: nat, batches: seq<seq<E>>)
    requires Tracked(before, now, now.queue, maxSize, arrivals, arrived, batches) && arrived < |arrivals|
    requires now'.queue == queue && Conserved(now', maxSize)
    requires now'.batches == now.batches && now'.history == now.history + arrivals[arrived]
    ensures Tracked(before, now', queue, maxSize, arrivals, arrived + 1, batches)
  {
    assert arrivals[..arrived + 1] == arrivals[..arrived] + [arrivals[arrived]];
    FlattenPush(arrivals[..arrived], arrivals[arrived]);
    Regroup(before.history, Flatten(arrivals[..arrived]), arrivals[arrived]);
  }

  lemma DrainTracked<E>(before: Past<E>, now: Past<E>, maxSize: nat, arrivals: seq<seq<E>>, arrived: nat,
                        batches: seq<seq<E>>, max: int)
    requires maxSize > 0 && Tracked(before, now, now.queue, maxSize, arrivals, arrived, batches)
    ensures var n, now' := TakeCount(now.queue, max), Step(now, Drain(max), maxSize);
            Tracked(before, now', now.queue[n..], maxSize, arrivals, arrived, batches + [now.queue[..n]])
  {
    StepConserves(now, Drain(max), maxSize);
    Regroup(before.batches, batches, [now.queue[..TakeCount(now.queue, max)]]);
  }

  lemma DrainSplits<E>(queue: seq<E>, size: nat)
    requires size > 0
    ensures var n := TakeCount(queue, size);
            && queue == queue[..n] + queue[n..] && n <= size
            && (n < size ==> queue[n..] == []) && (n == 0 ==> queue == [])
  {
  }

  class EventQueue<E> {
    const maxQueueSize: nat
    const batchSize: nat
    var queue: seq<E>

    predicate Valid()
      reads this
    {
      maxQueueSize > 0 && batchSize > 0 && |queue| <= maxQueueSize
    }

    /** With the defaults of `setDefaults` for sizes that are not positive. */
    constructor (maxQueueSize: int, batchSize: int)
      ensures Valid() && queue == []
      ensures this.maxQueueSize == (if maxQueueSize <= 0 then 1000 else maxQueueSize)
      ensures this.batchSize == (if batchSize <= 0 then 50 else batchSize)
    {
      this.maxQueueSize := if maxQueueSize <= 0 then 1000 else maxQueueSize;
      this.batchSize := if batchSize <= 0 then 50 else batchSize;
      queue := [];
    }

    method Enqueue(e: E)
      requires Valid()
      modifies this
      ensures Valid() && queue == Pushed(old(queue), e, maxQueueSize)
    {
      if |queue| >= maxQueueSize {
        queue := queue[1..];
      }
      queue := queue + [e];
    }

    method Drain(max: int) returns (batch: seq<E>)
      requires Valid()
      modifies this
      ensures Valid()
      ensures batch == old(queue)[..TakeCount(old(queue), max)] && queue == old(queue)[TakeCount(old(queue), max)..]
      ensures |batch| == if max <= 0 then |old(queue)| else Min(max, |old(queue)|)
    {
      if |queue| == 0 {
        return [];
      }
      var n := max;
      if n <= 0 || n > |queue| {
        n := |queue|;
      }
      batch := queue[..n];
      queue := queue[n..];
    }

    /** What other goroutines enqueue between two drains. */
    method EnqueueAll(events: seq<E>, ghost past: Past<E>) returns (ghost past': Past<E>)
      requires Valid() && past.queue == queue && Conserved(past, maxQueueSize)
      modifies this
      ensures Valid() && past'.queue == queue && Conserved(past', maxQueueSize)
      ensures past'.batches == past.batches && past'.history == past.history + events
    {
      past' := past;
      for i := 0 to |events|
        invariant Valid() && past'.queue == queue && Conserved(past', maxQueueSize)
        invariant past'.batches == past.batches && past'.history == past.history + events[..i]
      {
        StepConserves(past', Event<E>.Enqueue(events[i]), maxQueueSize);
        Enqueue(events[i]);
        past' := Step(past', Event<E>.Enqueue(events[i]), maxQueueSize);
      }
    }

    /** What arrives before one drain of a flush, if anything still does. */
    method Arrive(arrivals: seq<seq<E>>, arrived: nat, ghost before: Past<E>, ghost now: Past<E>,
                  ghost batches: seq<seq<E>>)
      returns (arrived': nat, ghost now': Past<E>)
      requires Valid() && Tracked(before, now, queue, maxQueueSize, arrivals, arrived, batches)
      modifies this
      ensures Valid() && arrived' == Min(arrived + 1, |arrivals|)
      ensures Tracked(before, now', queue, maxQueueSize, arrivals, arrived', batches)
      ensures arrived == |arrivals| ==> queue == old(queue)
    {
      if arrived == |arrivals| {
        return arrived, now;
      }
      now' := EnqueueAll(arrivals[arrived], now);
      ArrivalTracked(before, now, now', queue, maxQueueSize, arrivals, arrived, batches);
      arrived' := arrived + 1;
    }

    /** The next batch of a flush; an empty one leaves no trace. */
    method NextBatch(ghost arrivals: seq<seq<E>>, ghost arrived: nat, ghost before: Past<E>, ghost now: Past<E>,
                     ghost batches: seq<seq<E>>)
      returns (batch: seq<E>, ghost now': Past<E>)
      requires Valid() && Tracked(before, now, queue, maxQueueSize, arrivals, arrived, batches)
      modifies this
      ensures Valid() && old(queue) == batch + queue && |batch| <= batchSize
      ensures |batch| < batchSize ==> queue == []
      ensures batch == [] ==> old(queue) == [] && Tracked(before, now', queue, maxQueueSize, arrivals, arrived, batches)
      ensures batch != [] ==> Tracked(before, now', queue, maxQueueSize, arrivals, arrived, batches + [batch])
    {
      DrainSplits(queue, batchSize);
      batch := Drain(batchSize);
      now' := now;
      if batch != [] {
        DrainTracked(before, now, maxQueueSize, arrivals, arrived, batches, batchSize);
        now' := Step(now, Event<E>.Drain(batchSize), maxQueueSize);
      }
    }

    /**
     * `flushOnce`. `arrivals[i]` is what is enqueued before the i-th drain, and `delivers(i)`
     * says whether the i-th send succeeds. Every batch is full but the last; whatever arrives
     * meanwhile is queued, sent in order, lost with the one batch in hand, or dropped for being
     * oldest. With no arrivals nothing is dropped, and a success takes ceil(n / size) sends.
     */
    method FlushOnce(delivers: nat -> bool, arrivals: seq<seq<E>>, ghost past: Past<E>)
      returns (failed: bool, sent: seq<seq<E>>, lost: seq<E>, arrived: nat, ghost past': Past<E>)
      requires Valid() && past.queue == queue && Conserved(past, maxQueueSize)
      modifies this
      ensures Valid()
      ensures Tracked(past, past', queue, maxQueueSize, arrivals, arrived, if failed then sent + [lost] else sent)
      ensures Min(if failed then |sent| + 1 else |sent|, |arrivals|) <= arrived
      ensures Sends(batchSize, delivers, failed, sent, lost, queue)
      ensures arrivals == [] ==> Uninterrupted(old(queue), batchSize, delivers, failed, sent, lost, queue)
    {
      sent, lost, arrived, past' := [], [], 0, past;
      while true
        invariant Valid()
        invariant Tracked(past, past', queue, maxQueueSize, arrivals, arrived, sent)
        invariant Min(|sent|, |arrivals|) <= arrived
        invariant AllFull(sent, batchSize, delivers)
        invariant arrivals == [] ==> Flushing(old(queue), sent, queue, batchSize, delivers)
        decreases |arrivals| - arrived, |queue|
      {
        arrived, past' := Arrive(arrivals, arrived, past, past', sent);
        ghost var waiting := queue;
        var batch;
        batch, past' := NextBatch(arrivals, arrived, past, past', sent);
        Progress(arrivals == [], old(queue), sent, waiting, batch, queue, batchSize, delivers);
        if |batch| == 0 {
          return false, sent, [], arrived, past';
        }
        if !delivers(|sent|) {
          return true, sent, batch, arrived, past';
        }
        SentStaysFull(sent, batch, batchSize, delivers);
        sent := sent + [batch];
        if |batch| < batchSize {
          return false, sent, [], arrived, past';
        }
      }
    }
  }
}
