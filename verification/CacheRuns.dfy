/**
 * The cache in its world: any number of callers, queries that take time and may fail,
 * writers in this process and outside it, and a clock. Each event is one uninterrupted
 * stretch of code or one act of the database.
 */
module CacheRuns {
  import opened Prelude
  import opened SingleFlight

  /** The store's content from `since` until the next version. */
  datatype Version<R> = Version(rows: R, since: int)

  /** What a query read: which version, and when. */
  datatype Snapshot<R> = Snapshot(rows: R, version: nat, moment: int)

  datatype Phase<R> = Issued | Read(snap: Snapshot<R>) | Stored(snap: Snapshot<R>)

  datatype Query<R> = Query(startedAt: int, phase: Phase<R>)

  datatype Waiter = Waiter(caller: nat, query: nat)

  datatype Return<R> = Return(caller: nat, snap: Snapshot<R>, at: int)

  datatype World<R> = World(
    now: int, history: seq<Version<R>>, memory: Memory<Snapshot<R>>,
    queries: map<nat, Query<R>>, nextQuery: nat,
    callers: nat, waiting: seq<Waiter>, returned: seq<Return<R>>,
    slowest: int)  // the longest any query has taken to store or to settle

  datatype Event<R> =
    | Get | DbRead(q: nat) | Then(q: nat) | Finally(q: nat) | Fail(q: nat)
    | Write(rows: R) | Invalidate | Tick(elapsed: nat)

  ghost predicate Enabled<R>(s: World<R>, e: Event<R>) {
    match e
    case DbRead(q) => s.history != [] && q in s.queries && s.queries[q].phase.Issued?
    case Then(q) => q in s.queries && s.queries[q].phase.Read?
    case Finally(q) => q in s.queries && s.queries[q].phase.Stored?
    case Fail(q) => q in s.queries && !s.queries[q].phase.Stored?
    case _ => true
  }

  function Answered<R>(waiting: seq<Waiter>, q: nat, snap: Snapshot<R>, at: int): seq<Return<R>> {
    if waiting == [] then []
    else
      var first := if waiting[0].query == q then [Return(waiting[0].caller, snap, at)] else [];
      first + Answered(waiting[1..], q, snap, at)
  }

  function Others(waiting: seq<Waiter>, q: nat): seq<Waiter> {
    if waiting == [] then []
    else (if waiting[0].query == q then [] else [waiting[0]]) + Others(waiting[1..], q)
  }

  ghost function Step<R>(s: World<R>, e: Event<R>): World<R>
    requires Enabled(s, e)
  {
    match e
    case Get =>
      var (m, a) := AfterGet(s.memory, s.now, s.nextQuery);
      var t := s.(memory := m, callers := s.callers + 1);
      (match a
       case Hit(snap) => t.(returned := s.returned + [Return(s.callers, snap, s.now)])
       case Join(q) => t.(waiting := s.waiting + [Waiter(s.callers, q)])
       case Start(q) => t.(waiting := s.waiting + [Waiter(s.callers, q)], nextQuery := s.nextQuery + 1,
                           queries := s.queries[q := Query(s.now, Issued)]))
    case DbRead(q) =>
      var n := |s.history| - 1;
      s.(queries := s.queries[q := s.queries[q].(phase := Read(Snapshot(s.history[n].rows, n, s.now)))])
    case Then(q) =>
      var snap := s.queries[q].phase.snap;
      s.(memory := AfterRows(s.memory, snap, s.now), queries := s.queries[q := s.queries[q].(phase := Stored(snap))],
         slowest := Max(s.slowest, s.now - s.queries[q].startedAt))
    case Finally(q) =>
      s.(memory := AfterSettled(s.memory), queries := s.queries - {q},
         waiting := Others(s.waiting, q),
         returned := s.returned + Answered(s.waiting, q, s.queries[q].phase.snap, s.now),
         slowest := Max(s.slowest, s.now - s.queries[q].startedAt))
    case Fail(q) =>
      s.(memory := AfterSettled(s.memory), queries := s.queries - {q}, waiting := Others(s.waiting, q))
    case Write(rows) => s.(history := s.history + [Version(rows, s.now)])
    case Invalidate => s.(memory := AfterInvalidate(s.memory))
    case Tick(d) => s.(now := s.now + d)
  }

  ghost predicate Initial<R>(s: World<R>) {
    && s.memory == Memory(None, None) && s.queries == map[] && s.waiting == [] && s.returned == [] && s.slowest == 0
    && |s.history| == 1 && s.history[0].since <= s.now
  }

  ghost predicate Run<R>(states: seq<World<R>>, events: seq<Event<R>>) {
    && |states| == |events| + 1
    && forall i :: 0 <= i < |events| ==> Enabled(states[i], events[i]) && states[i + 1] == Step(states[i], events[i])
  }

  // ---- staleness ------------------------------------------------------------

  /** The snapshot was the store's content at its moment. */
  ghost predicate Genuine<R>(history: seq<Version<R>>, snap: Snapshot<R>) {
    && snap.version < |history|
    && history[snap.version].rows == snap.rows
    && history[snap.version].since <= snap.moment
    && (snap.version + 1 < |history| ==> snap.moment <= history[snap.version + 1].since)
  }

  ghost predicate GoodQuery<R>(s: World<R>, q: Query<R>) {
    && q.startedAt <= s.now
    && (!q.phase.Issued? ==> Genuine(s.history, q.phase.snap) && q.startedAt <= q.phase.snap.moment <= s.now)
  }

  ghost predicate GoodReturn<R>(s: World<R>, r: Return<R>) {
    && Genuine(s.history, r.snap) && r.snap.moment <= r.at <= s.now
    && r.at - r.snap.moment < CACHE_TTL_MS + s.slowest
  }

  ghost predicate Inv<R>(s: World<R>) {
    && s.history != [] && s.history[|s.history| - 1].since <= s.now && s.slowest >= 0
    && s.queries.Keys == (if s.memory.inFlight.Some? then {s.memory.inFlight.value} else {})
    && (forall q :: q in s.queries ==> q < s.nextQuery && GoodQuery(s, s.queries[q]))
    && (s.memory.cache.Some? ==>
          var e := s.memory.cache.value;
          Genuine(s.history, e.value) && e.value.moment <= e.at <= s.now && e.at - e.value.moment <= s.slowest)
    && (forall x :: x in s.waiting ==> x.query in s.queries && x.caller < s.callers)
    && (forall i :: 0 <= i < |s.returned| ==> GoodReturn(s, s.returned[i]) && s.returned[i].caller < s.callers)
  }

  lemma {:induction false} AnsweredMeans<R>(waiting: seq<Waiter>, q: nat, snap: Snapshot<R>, at: int)
    ensures forall i :: 0 <= i < |Answered(waiting, q, snap, at)| ==>
              && Answered(waiting, q, snap, at)[i].snap == snap && Answered(waiting, q, snap, at)[i].at == at
              && Waiter(Answered(waiting, q, snap, at)[i].caller, q) in waiting
  {
    if waiting != [] {
      AnsweredMeans(waiting[1..], q, snap, at);
      assert waiting == [waiting[0]] + waiting[1..];
    }
  }

  lemma {:induction false} OthersMeans(waiting: seq<Waiter>, q: nat)
    ensures forall w :: w in Others(waiting, q) <==> w in waiting && w.query != q
  {
    if waiting != [] {
      OthersMeans(waiting[1..], q);
      assert waiting == [waiting[0]] + waiting[1..];
    }
  }

  lemma GenuineStays<R>(s: World<R>, rows: R, snap: Snapshot<R>)
    requires Genuine(s.history, snap) && snap.moment <= s.now
    ensures Genuine(s.history + [Version(rows, s.now)], snap)
  {
  }

  lemma GetKeepsInv<R>(s: World<R>)
    requires Inv(s)
    ensures Inv(Step(s, Get))
  {
  }

  lemma FinallyKeepsInv<R>(s: World<R>, q: nat)
    requires Inv(s) && Enabled(s, Finally(q))
    ensures Inv(Step(s, Finally(q)))
  {
    AnsweredMeans(s.waiting, q, s.queries[q].phase.snap, s.now);
    OthersMeans(s.waiting, q);
  }

  lemma WriteKeepsInv<R>(s: World<R>, rows: R)
    requires Inv(s)
    ensures Inv(Step(s, Write(rows)))
  {
    var t := Step(s, Write(rows));
    forall snap: Snapshot<R> | Genuine(s.history, snap) && snap.moment <= s.now ensures Genuine(t.history, snap) {
      GenuineStays(s, rows, snap);
    }
  }

  lemma StepKeepsInv<R>(s: World<R>, e: Event<R>)
    requires Inv(s) && Enabled(s, e)
    ensures Inv(Step(s, e))
  {
    match e
    case Get => GetKeepsInv(s);
    case DbRead(q) =>
    case Then(q) =>
    case Finally(q) => FinallyKeepsInv(s, q);
    case Fail(q) => OthersMeans(s.waiting, q);
    case Write(rows) => WriteKeepsInv(s, rows);
    case Invalidate =>
    case Tick(d) =>
  }

  lemma {:induction false} RunKeepsInv<R>(states: seq<World<R>>, events: seq<Event<R>>, i: nat)
    requires Run(states, events) && Inv(states[0]) && i < |states|
    ensures Inv(states[i])
  {
    if i > 0 {
      RunKeepsInv(states, events, i - 1);
      StepKeepsInv(states[i - 1], events[i - 1]);
    }
  }

  /**
   * Over every run: at most one query is outstanding, and a value returned at time t was the
   * store's content at a moment later than t minus (TTL plus the longest query latency).
   */
  lemma BoundedStaleness<R>(states: seq<World<R>>, events: seq<Event<R>>, i: nat)
    requires Run(states, events) && Initial(states[0]) && i < |states|
    ensures |states[i].queries| <= 1
    ensures forall k :: 0 <= k < |states[i].returned| ==>
              var r := states[i].returned[k];
              && Genuine(states[i].history, r.snap)
              && r.at - (CACHE_TTL_MS + states[i].slowest) < r.snap.moment <= r.at
  {
    RunKeepsInv(states, events, i);
    assert |states[i].queries.Keys| <= 1;
  }

  /** A failed query leaves the cache alone, and the next caller that misses starts a new one. */
  lemma FailureIsForgotten<R>(s: World<R>, q: nat)
    requires Inv(s) && Enabled(s, Fail(q))
    ensures var t := Step(s, Fail(q));
            && t.memory.cache == s.memory.cache && t.returned == s.returned && t.queries == map[]
            && (!Live(t.memory.cache, t.now) ==> Step(t, Get).queries == map[t.nextQuery := Query(t.now, Issued)])
  {
    var t := Step(s, Fail(q));
    assert t.queries.Keys == {};
  }

  // ---- read after invalidate -----------------------------------------------

  /** No query in flight has already read a version before `w`. */
  ghost predicate NoStaleRead<R>(s: World<R>, w: nat) {
    forall q :: q in s.queries && !s.queries[q].phase.Issued? ==> w <= s.queries[q].phase.snap.version
  }

  /** Nothing older than `w` can reach a caller numbered `g` or later. */
  ghost predicate Caught<R>(s: World<R>, w: nat, g: nat) {
    && Inv(s) && w < |s.history| && g <= s.callers && NoStaleRead(s, w)
    && (s.memory.cache.Some? ==> w <= s.memory.cache.value.value.version)
    && (forall i :: 0 <= i < |s.returned| && g <= s.returned[i].caller ==> w <= s.returned[i].snap.version)
  }

  lemma StepKeepsCaught<R>(s: World<R>, e: Event<R>, w: nat, g: nat)
    requires Caught(s, w, g) && Enabled(s, e)
    ensures Caught(Step(s, e), w, g)
  {
    StepKeepsInv(s, e);
    if e.Finally? {
      AnsweredMeans(s.waiting, e.q, s.queries[e.q].phase.snap, s.now);
    }
  }

  lemma {:induction false} RunKeepsCaught<R>(states: seq<World<R>>, events: seq<Event<R>>, w: nat, g: nat, i: nat)
    requires Run(states, events) && Caught(states[0], w, g) && i < |states|
    ensures Caught(states[i], w, g)
  {
    if i > 0 {
      RunKeepsCaught(states, events, w, g, i - 1);
      StepKeepsCaught(states[i - 1], events[i - 1], w, g);
    }
  }

  ghost predicate NoOldReturn<R>(states: seq<World<R>>, g: nat, w: nat) {
    forall i, k :: 0 <= i < |states| && 0 <= k < |states[i].returned| && g <= states[i].returned[k].caller ==>
      w <= states[i].returned[k].snap.version
  }

  /** In every continuation, each caller arriving from now on gets version `w` or later. */
  ghost predicate FreshFromNowOn<R(!new)>(s: World<R>, w: nat) {
    forall states: seq<World<R>>, events: seq<Event<R>> :: Run(states, events) && states[0] == s ==>
      NoOldReturn(states, s.callers, w)
  }

  lemma {:induction false} AnsweredGrows<R>(waiting: seq<Waiter>, c: nat, q: nat, snap: Snapshot<R>, at: int)
    ensures Answered(waiting + [Waiter(c, q)], q, snap, at) == Answered(waiting, q, snap, at) + [Return(c, snap, at)]
  {
    if waiting != [] {
      AnsweredGrows(waiting[1..], c, q, snap, at);
      assert (waiting + [Waiter(c, q)])[1..] == waiting[1..] + [Waiter(c, q)];
    }
  }

  /** The run that shows it: the next caller joins the query that read too early. */
  lemma StaleJoin<R>(t: World<R>, w: nat) returns (states: seq<World<R>>, events: seq<Event<R>>)
    requires Inv(t) && t.memory.cache.None? && !NoStaleRead(t, w)
    ensures Run(states, events) && states[0] == t
    ensures !NoOldReturn(states, t.callers, w)
  {
    var q :| q in t.queries && !t.queries[q].phase.Issued? && t.queries[q].phase.snap.version < w;
    var snap := t.queries[q].phase.snap;
    assert t.memory.inFlight == Some(q);
    var a := Step(t, Get);
    assert a.waiting == t.waiting + [Waiter(t.callers, q)] && a.queries == t.queries;
    if t.queries[q].phase.Stored? {
      var b := Step(a, Finally(q));
      states, events := [t, a, b], [Get, Finally(q)];
    } else {
      var b := Step(a, Then(q));
      var c := Step(b, Finally(q));
      states, events := [t, a, b, c], [Get, Then(q), Finally(q)];
    }
    AnsweredGrows(t.waiting, t.callers, q, snap, t.now);
    var last := states[|states| - 1];
    var k := |last.returned| - 1;
    assert last.returned[k] == Return(t.callers, snap, t.now);
  }

  /**
   * Every caller after an invalidation sees the write it announces, through any later hits,
   * joins and expiries, exactly when no query in flight at that instant had already read the
   * store from before the write.
   */
  lemma ReadAfterInvalidateExactly<R(!new)>(s: World<R>, w: nat)
    requires Inv(s) && w < |s.history|
    ensures FreshFromNowOn(Step(s, Invalidate), w) <==> NoStaleRead(s, w)
  {
    var t := Step(s, Invalidate);
    StepKeepsInv(s, Invalidate);
    if NoStaleRead(s, w) {
      forall states: seq<World<R>>, events: seq<Event<R>> | Run(states, events) && states[0] == t
        ensures NoOldReturn(states, t.callers, w)
      {
        forall i | 0 <= i < |states| ensures Caught(states[i], w, t.callers) {
          RunKeepsCaught(states, events, w, t.callers, i);
        }
      }
    } else {
      var states, events := StaleJoin(t, w);
      assert !NoOldReturn(states, t.callers, w);
    }
  }

  // ---- what a stored answer is good for ---------------------------------------

  /** Nothing in the run drops or replaces the entry. */
  ghost predicate Undisturbed<R>(events: seq<Event<R>>) {
    forall i :: 0 <= i < |events| ==> !events[i].Invalidate? && !events[i].Then?
  }

  lemma {:induction false} EntryStays<R>(states: seq<World<R>>, events: seq<Event<R>>,
                                         entry: Option<Entry<Snapshot<R>>>, i: nat)
    requires Run(states, events) && Undisturbed(events) && states[0].memory.cache == entry && i < |states|
    ensures states[i].memory.cache == entry
  {
    if i > 0 {
      EntryStays(states, events, entry, i - 1);
      assert states[i] == Step(states[i - 1], events[i - 1]);
    }
  }

  /**
   * From any state, whatever was cached before: once a query has stored its rows, every lookup
   * within the TTL is answered at once with them, starting no query and joining none, until an
   * invalidation or a newer store.
   */
  lemma StoredAnswers<R>(s: World<R>, q: nat, states: seq<World<R>>, events: seq<Event<R>>, i: nat)
    requires Inv(s) && Enabled(s, Then(q)) && Run(states, events) && states[0] == Step(s, Then(q))
    requires Undisturbed(events) && i < |events| && events[i].Get? && states[i].now < s.now + CACHE_TTL_MS
    ensures states[i + 1].returned
            == states[i].returned + [Return(states[i].callers, s.queries[q].phase.snap, states[i].now)]
    ensures states[i + 1].queries == states[i].queries && states[i + 1].waiting == states[i].waiting
  {
    EntryStays(states, events, Some(Entry(s.queries[q].phase.snap, s.now)), i);
    assert states[i + 1] == Step(states[i], events[i]);
  }

  lemma KeysCount<R>(queries: map<nat, Query<R>>)
    ensures |queries| == |queries.Keys|
  {
  }

  /** Past the TTL the entry answers nobody: the next caller starts a query, or joins the one in flight. */
  lemma ExpiredAsksAgain<R>(s: World<R>)
    requires Inv(s) && s.memory.cache.Some? && s.now >= s.memory.cache.value.at + CACHE_TTL_MS
    ensures var t := Step(s, Get);
            && t.returned == s.returned && |t.queries| == 1
            && if s.queries == map[] then t.queries == map[s.nextQuery := Query(s.now, Issued)]
              else t.queries == s.queries
    ensures exists q :: q in Step(s, Get).queries && Step(s, Get).waiting == s.waiting + [Waiter(s.callers, q)]
  {
    var t := Step(s, Get);
    assert s.queries == map[] <==> s.queries.Keys == {};
    if s.memory.inFlight.Some? {
      assert s.memory.inFlight.value in t.queries
             && t.waiting == s.waiting + [Waiter(s.callers, s.memory.inFlight.value)];
      assert t.queries.Keys == {s.memory.inFlight.value};
    } else {
      assert s.nextQuery in t.queries && t.waiting == s.waiting + [Waiter(s.callers, s.nextQuery)];
    }
    KeysCount(t.queries);
  }

  lemma {:induction false} AnsweredComplete<R>(waiting: seq<Waiter>, q: nat, snap: Snapshot<R>, at: int, c: nat)
    requires Waiter(c, q) in waiting
    ensures Return(c, snap, at) in Answered(waiting, q, snap, at)
  {
    if waiting[0] != Waiter(c, q) {
      assert waiting == [waiting[0]] + waiting[1..];
      AnsweredComplete(waiting[1..], q, snap, at, c);
    }
  }

  /**
   * A query that settles answers everyone who waits on it with what it read, and nobody else; one
   * that fails answers nobody.
   */
  lemma SettlingAnswersAll<R>(s: World<R>, q: nat, c: nat)
    requires Enabled(s, Finally(q)) && Waiter(c, q) in s.waiting
    ensures var t := Step(s, Finally(q));
            && Return(c, s.queries[q].phase.snap, s.now) in t.returned && s.returned <= t.returned
            && (forall w :: w in t.waiting <==> w in s.waiting && w.query != q)
  {
    AnsweredComplete(s.waiting, q, s.queries[q].phase.snap, s.now, c);
    OthersMeans(s.waiting, q);
  }
}
