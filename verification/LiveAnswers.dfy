/**
 * What the two caches mean for the answers read through them: when arming a switch or
 * deleting a custom capability takes hold (lib/kill-switch.ts, db/custom-capability.dao.ts).
 */
module LiveAnswers {
  import opened Prelude
  import opened SingleFlight
  import opened CacheRuns
  import opened KillSwitch
  import Authz
  import Suspension
  import Capability

  ghost predicate InOrder<R>(history: seq<Version<R>>) {
    forall v, w :: 0 <= v <= w < |history| ==> history[v].since <= history[w].since
  }

  lemma {:induction false} HistoryInOrder<R>(states: seq<World<R>>, events: seq<Event<R>>, i: nat)
    requires Run(states, events) && Initial(states[0]) && i < |states|
    ensures InOrder(states[i].history)
  {
    if i > 0 {
      HistoryInOrder(states, events, i - 1);
      RunKeepsInv(states, events, i - 1);
    }
  }

  /**
   * With no invalidation at all, a version is seen by every answer given a TTL and the longest
   * latency after it was written.
   */
  lemma SeenAfterWindow<R>(states: seq<World<R>>, events: seq<Event<R>>, i: nat, k: nat, w: nat)
    requires Run(states, events) && Initial(states[0]) && i < |states| && k < |states[i].returned|
    requires w < |states[i].history|
    requires states[i].history[w].since + CACHE_TTL_MS + states[i].slowest <= states[i].returned[k].at
    ensures w <= states[i].returned[k].snap.version < |states[i].history|
  {
    BoundedStaleness(states, events, i);
    HistoryInOrder(states, events, i);
    var snap := states[i].returned[k].snap;
    assert Genuine(states[i].history, snap);
  }

  function Fresh<R>(rows: R): World<R> {
    World(0, [Version(rows, 0)], Memory(None, None), map[], 0, 0, [], [], 0)
  }

  /** One caller, whose query has read the only version there is. */
  lemma EarlyReader<R>(rows: R) returns (c: World<R>)
    ensures Enabled(Step(Fresh(rows), Get), DbRead(0)) && c == Step(Step(Fresh(rows), Get), DbRead(0))
    ensures c == World(0, [Version(rows, 0)], Memory(None, Some(0)), map[0 := Query(0, Read(Snapshot(rows, 0, 0)))],
                       1, 1, [Waiter(0, 0)], [], 0)
  {
    c := Step(Step(Fresh(rows), Get), DbRead(0));
  }

  lemma OneMore<R>(states: seq<World<R>>, events: seq<Event<R>>, e: Event<R>)
    returns (states': seq<World<R>>, events': seq<Event<R>>)
    requires Run(states, events) && Enabled(states[|events|], e)
    ensures Run(states', events') && |events'| == |events| + 1
    ensures events' == events + [e] && states'[|events'|] == Step(states[|events|], e) && states'[0] == states[0]
  {
    states', events' := states + [Step(states[|events|], e)], events + [e];
  }

  /** The query stores what it read before the write, and settles. */
  lemma LateStore<R>(before: R, written: R, latency: nat, e: World<R>) returns (f: World<R>, g: World<R>)
    requires e == World(latency, [Version(before, 0), Version(written, 0)], Memory(None, Some(0)),
                        map[0 := Query(0, Read(Snapshot(before, 0, 0)))], 1, 1, [Waiter(0, 0)], [], 0)
    ensures Enabled(e, Then(0)) && f == Step(e, Then(0))
    ensures Enabled(f, Finally(0)) && g == Step(f, Finally(0))
    ensures g == World(latency, e.history, Memory(Some(Entry(Snapshot(before, 0, 0), latency)), None), map[], 1, 1, [],
                       [Return(0, Snapshot(before, 0, 0), latency)], latency)
  {
    f := Step(e, Then(0));
    g := Step(f, Finally(0));
    assert Answered(f.waiting[1..], 0, Snapshot(before, 0, 0), f.now) == [];
  }

  /**
   * The window is tight: whatever the latency, some run answers from before a write at the
   * last instant allowed. The TTL alone bounds nothing.
   */
  lemma WindowIsTight<R>(before: R, written: R, latency: nat) returns (states: seq<World<R>>, events: seq<Event<R>>)
    ensures Run(states, events) && Initial(states[0])
    ensures var last := states[|events|];
            && last.slowest == latency && |last.history| == 2 && last.history[1] == Version(written, 0)
            && |last.returned| == 2 && last.returned[1].snap.rows == before
            && last.returned[1].at == CACHE_TTL_MS + latency - 1
  {
    var c := EarlyReader(before);
    states, events := [Fresh(before)], [];
    states, events := OneMore(states, events, Get);
    states, events := OneMore(states, events, DbRead(0));
    states, events := OneMore(states, events, Write(written));
    states, events := OneMore(states, events, Tick(latency));
    var f, g := LateStore(before, written, latency, states[4]);
    states, events := OneMore(states, events, Then(0));
    states, events := OneMore(states, events, Finally(0));
    states, events := OneMore(states, events, Tick(CACHE_TTL_MS - 1));
    states, events := OneMore(states, events, Get);
  }

  /** The other input: a query reads, a write lands and is announced, and the next caller can still get the old rows. */
  lemma StaleAfterInvalidate<R(!new)>(before: R, written: R) returns (states: seq<World<R>>, events: seq<Event<R>>)
    ensures Run(states, events) && Initial(states[0]) && events == [Get, DbRead(0), Write(written), Invalidate]
    ensures states[4].history == [Version(before, 0), Version(written, 0)] && !FreshFromNowOn(states[4], 1)
  {
    var c := EarlyReader(before);
    states, events := [Fresh(before)], [];
    states, events := OneMore(states, events, Get);
    states, events := OneMore(states, events, DbRead(0));
    states, events := OneMore(states, events, Write(written));
    var d := states[3];
    RunKeepsInv(states, events, 3);
    ReadAfterInvalidateExactly(d, 1);
    states, events := OneMore(states, events, Invalidate);
  }

  /** The answer comes from a caller that arrived after an invalidation no early read was racing. */
  ghost predicate AfterCleanInvalidation<R(!new)>(s: World<R>, w: nat, states: seq<World<R>>, events: seq<Event<R>>,
                                                  i: nat, k: nat) {
    && Inv(s) && w < |s.history| && NoStaleRead(s, w)
    && Run(states, events) && states[0] == Step(s, Invalidate)
    && i < |states| && k < |states[i].returned| && s.callers <= states[i].returned[k].caller
  }

  lemma SeenAfterInvalidation<R(!new)>(s: World<R>, w: nat, states: seq<World<R>>, events: seq<Event<R>>, i: nat,
                                       k: nat)
    requires AfterCleanInvalidation(s, w, states, events, i, k)
    ensures w <= states[i].returned[k].snap.version < |states[i].history|
    ensures states[i].returned[k].snap.rows == states[i].history[states[i].returned[k].snap.version].rows
  {
    ReadAfterInvalidateExactly(s, w);
    assert FreshFromNowOn(Step(s, Invalidate), w);
    assert NoOldReturn(states, Step(s, Invalidate).callers, w);
    StepKeepsInv(s, Invalidate);
    RunKeepsInv(states, events, i);
    assert GoodReturn(states[i], states[i].returned[k]);
  }

  // ---- the kill switch -------------------------------------------------------

  type Table = map<string, Row>

  /** Armed from version w on: nothing has disarmed it since. */
  ghost predicate ArmedSince(history: seq<Version<Table>>, w: nat, id: string) {
    forall v :: w <= v < |history| ==> ValidRows(history[v].rows) && id in history[v].rows
  }

  predicate Covered(row: CertRow, actor: Actor, id: string) {
    actor.kind != "human" && (id == GLOBAL_ID || BelongsTo(row, actor, id))
  }

  lemma CoveredIsRevoked(rows: Table, row: CertRow, actor: Actor, id: string, registry: set<string>, now: int)
    requires ValidRows(rows) && id in rows && Covered(row, actor, id)
    ensures Suspension.StatusUnder(row, actor, rows, registry, now) == Effective("revoked", [])
  {
    SuspensionMeans(row, actor, rows);
  }

  /**
   * Once a switch is armed and the cache invalidated with no earlier read in flight, every
   * later caller reads every covered certificate as revoked, for as long as it stays armed.
   */
  lemma ArmingTakesHold(s: World<Table>, w: nat, states: seq<World<Table>>, events: seq<Event<Table>>, i: nat, k: nat,
                        id: string, row: CertRow, actor: Actor, registry: set<string>, now: int)
    requires AfterCleanInvalidation(s, w, states, events, i, k)
    requires ArmedSince(states[i].history, w, id) && Covered(row, actor, id)
    ensures Suspension.StatusUnder(row, actor, states[i].returned[k].snap.rows, registry, now)
            == Effective("revoked", [])
  {
    SeenAfterInvalidation(s, w, states, events, i, k);
    CoveredIsRevoked(states[i].returned[k].snap.rows, row, actor, id, registry, now);
  }

  lemma CoveredIsRefused(rows: Table, id: string, a: Authz.Action, held: seq<CertRow>, j: nat, actor: Actor,
                         actorRow: Option<Actor>, now: int)
    requires ValidRows(rows) && id in rows
    requires Suspension.Keyed(held) && Suspension.FirstGrantAt(a, held, j, now) && Covered(held[j], actor, id)
    requires actorRow.Some? ==> actorRow.value == actor
    ensures !Suspension.HasCapability(a, held, actorRow, ArmedState(rows), now)
  {
    Suspension.DecisionRestsOnTheFirst(a, held, actorRow, ArmedState(rows), now);
    Suspension.NothingArmedMeans(rows);
    SuspensionMeans(held[j], actor, rows);
    assert forall i :: Suspension.FirstGrantAt(a, held, i, now) ==> i == j;
  }

  /** And the server-side decision point answers no whenever the certificate it rests on is covered. */
  lemma ArmingDeniesAtOnce(s: World<Table>, w: nat, states: seq<World<Table>>, events: seq<Event<Table>>, i: nat,
                           k: nat, id: string, a: Authz.Action, held: seq<CertRow>, j: nat, actor: Actor,
                             actorRow: Option<Actor>, now: int)
    requires AfterCleanInvalidation(s, w, states, events, i, k) && ArmedSince(states[i].history, w, id)
    requires Suspension.Keyed(held) && Suspension.FirstGrantAt(a, held, j, now) && Covered(held[j], actor, id)
    requires actorRow.Some? ==> actorRow.value == actor
    ensures !Suspension.HasCapability(a, held, actorRow, ArmedState(states[i].returned[k].snap.rows), now)
  {
    SeenAfterInvalidation(s, w, states, events, i, k);
    CoveredIsRefused(states[i].returned[k].snap.rows, id, a, held, j, actor, actorRow, now);
  }

  /** The same with no invalidation, past the window. */
  lemma ArmingDeniesAnyway(states: seq<World<Table>>, events: seq<Event<Table>>, i: nat, k: nat, w: nat,
                           id: string, a: Authz.Action, held: seq<CertRow>, j: nat, actor: Actor,
                             actorRow: Option<Actor>, now: int)
    requires Run(states, events) && Initial(states[0]) && i < |states| && k < |states[i].returned|
    requires w < |states[i].history|
             && states[i].history[w].since + CACHE_TTL_MS + states[i].slowest <= states[i].returned[k].at
    requires ArmedSince(states[i].history, w, id)
    requires Suspension.Keyed(held) && Suspension.FirstGrantAt(a, held, j, now) && Covered(held[j], actor, id)
    requires actorRow.Some? ==> actorRow.value == actor
    ensures !Suspension.HasCapability(a, held, actorRow, ArmedState(states[i].returned[k].snap.rows), now)
  {
    SeenAfterWindow(states, events, i, k, w);
    BoundedStaleness(states, events, i);
    CoveredIsRefused(states[i].returned[k].snap.rows, id, a, held, j, actor, actorRow, now);
  }

  /** Armed by anyone, invalidated by no one: a TTL and one query latency later every answer reads revoked. */
  lemma ArmingTakesHoldAnyway(states: seq<World<Table>>, events: seq<Event<Table>>, i: nat, k: nat, w: nat,
                              id: string, row: CertRow, actor: Actor, registry: set<string>, now: int)
    requires Run(states, events) && Initial(states[0]) && i < |states| && k < |states[i].returned|
    requires w < |states[i].history|
             && states[i].history[w].since + CACHE_TTL_MS + states[i].slowest <= states[i].returned[k].at
    requires ArmedSince(states[i].history, w, id) && Covered(row, actor, id)
    ensures Suspension.StatusUnder(row, actor, states[i].returned[k].snap.rows, registry, now)
            == Effective("revoked", [])
  {
    SeenAfterWindow(states, events, i, k, w);
    BoundedStaleness(states, events, i);
    CoveredIsRevoked(states[i].returned[k].snap.rows, row, actor, id, registry, now);
  }

  // ---- the capability registry ---------------------------------------------------

  type Names = seq<string>

  /** Gone from version w on: nothing has registered the name again. */
  ghost predicate GoneSince(history: seq<Version<Names>>, w: nat, name: string) {
    forall v :: w <= v < |history| ==> name !in history[v].rows
  }

  /**
   * A deleted custom capability resolves in no answer of a later caller, or past the window;
   * built-ins are untouched either way.
   */
  lemma DeletionTakesHold(s: World<Names>, w: nat, states: seq<World<Names>>, events: seq<Event<Names>>, i: nat, k: nat,
                          name: string, held: seq<string>)
    requires AfterCleanInvalidation(s, w, states, events, i, k) && GoneSince(states[i].history, w, name)
    ensures name in Capability.Filter(held, Elements(states[i].returned[k].snap.rows))
            <==> name in held && Capability.IsBuiltin(name)
  {
    SeenAfterInvalidation(s, w, states, events, i, k);
    Capability.FilterMeans(held, Elements(states[i].returned[k].snap.rows));
  }

  lemma DeletionTakesHoldAnyway(states: seq<World<Names>>, events: seq<Event<Names>>, i: nat, k: nat, w: nat,
                                name: string, held: seq<string>)
    requires Run(states, events) && Initial(states[0]) && i < |states| && k < |states[i].returned|
    requires w < |states[i].history|
             && states[i].history[w].since + CACHE_TTL_MS + states[i].slowest <= states[i].returned[k].at
    requires GoneSince(states[i].history, w, name)
    ensures name in Capability.Filter(held, Elements(states[i].returned[k].snap.rows))
            <==> name in held && Capability.IsBuiltin(name)
  {
    SeenAfterWindow(states, events, i, k, w);
    BoundedStaleness(states, events, i);
    Capability.FilterMeans(held, Elements(states[i].returned[k].snap.rows));
  }
}
