/** Reversible, monotone, covering: what suspension promises, and how the server-side decision point uses it. */
module Suspension {
  import opened Prelude
  import opened KillSwitch
  import Authz
  import Capability
  import Glob

  function StatusUnder(row: CertRow, actor: Actor, rows: map<string, Row>, registry: set<string>, now: int): Effective {
    ResolveCertStatus(row, actor, ArmedState(rows), registry, now)
  }

  ghost predicate Suspended(row: CertRow, actor: Actor, rows: map<string, Row>) {
    actor.kind != "human"
      && (GLOBAL_ID in rows || exists id :: id in rows && id != GLOBAL_ID && BelongsTo(row, actor, id))
  }

  /** Expiry, then suspension, then the registry: what each contributes to the status and the capabilities read. */
  lemma StatusExactly(row: CertRow, actor: Actor, rows: map<string, Row>, registry: set<string>, now: int)
    requires ValidRows(rows)
    ensures var e, c := StatusUnder(row, actor, rows, registry, now), row.cert;
            && (e.status == "active"
                <==> && !Suspended(row, actor, rows) && c.status == "active"
                     && (c.expiresAt == None || now < c.expiresAt.value))
            && (Suspended(row, actor, rows) ==> e == Effective("revoked", []))
            && (!Suspended(row, actor, rows) ==>
                  var over := c.status == "active" && c.expiresAt.Some? && c.expiresAt.value <= now;
                  e.status == if over then "expired" else c.status)
            && (forall x ::
                  x in e.capabilities
                  <==> !Suspended(row, actor, rows) && x in c.capabilities && Capability.Survives(x, registry))
  {
    SuspensionMeans(row, actor, rows);
    Capability.FilterMeans(row.cert.capabilities, registry);
  }

  ghost predicate SameAnswer(row: CertRow, actor: Actor, rows: map<string, Row>, rows': map<string, Row>,
                             registry: set<string>, now: int) {
    StatusUnder(row, actor, rows, registry, now) == StatusUnder(row, actor, rows', registry, now)
  }

  /** Two armed sets give every certificate the same answer. */
  ghost predicate Indistinguishable(rows: map<string, Row>, rows': map<string, Row>) {
    forall row, actor, registry, now :: SameAnswer(row, actor, rows, rows', registry, now)
  }

  /** Only which scopes are armed matters, not by whom, when or why. */
  lemma OnlyScopesMatter(rows: map<string, Row>, rows': map<string, Row>)
    requires ValidRows(rows) && ValidRows(rows') && rows.Keys == rows'.Keys
    ensures Indistinguishable(rows, rows')
  {
    forall row, actor, registry, now ensures SameAnswer(row, actor, rows, rows', registry, now) {
      SuspensionMeans(row, actor, rows);
      SuspensionMeans(row, actor, rows');
      assert forall id :: id in rows <==> id in rows';
    }
  }

  /** Arming more never makes a certificate active, nor gives back a capability. */
  lemma ArmingIsMonotone(rows: map<string, Row>, rows': map<string, Row>, row: CertRow, actor: Actor,
                         registry: set<string>, now: int)
    requires ValidRows(rows) && ValidRows(rows') && rows.Keys <= rows'.Keys
    ensures StatusUnder(row, actor, rows', registry, now).status == "active" ==>
              StatusUnder(row, actor, rows, registry, now) == StatusUnder(row, actor, rows', registry, now)
    ensures forall x :: x in StatusUnder(row, actor, rows', registry, now).capabilities ==>
              x in StatusUnder(row, actor, rows, registry, now).capabilities
  {
    SuspensionMeans(row, actor, rows);
    SuspensionMeans(row, actor, rows');
    assert forall id :: id in rows ==> id in rows';
  }

  /** A certificate of a non-human stamped with a workspace and nothing else. */
  function Stamped(id: string): CertRow {
    CertRow(Authz.Certificate("c", [], None, "active", None, 0), Some(id))
  }

  /** A certificate stamped with the scope tells the two states apart. */
  lemma DisarmingShows(rows: map<string, Row>, after: map<string, Row>, t: Target)
    requires ValidRows(rows) && ValidRows(after) && Proper(t)
    requires IdOf(t) in rows && after == rows - {IdOf(t)} && !(t.Workspace? && GLOBAL_ID in rows)
    ensures !Indistinguishable(rows, after)
  {
    var row := Stamped(IdOf(t));
    var actor := Actor("agent", None);
    SuspensionMeans(row, actor, rows);
    SuspensionMeans(row, actor, after);
    assert BelongsTo(row, actor, IdOf(t));
    assert forall id :: id in after ==> !BelongsTo(row, actor, id);
    assert StatusUnder(row, actor, rows, {}, 0).status != StatusUnder(row, actor, after, {}, 0).status;
    assert !SameAnswer(row, actor, rows, after, {}, 0);
  }

  /**
   * Arming a scope and disarming it restores every answer exactly when the scope was not
   * armed to begin with, or is a workspace that an armed global switch covers anyway.
   */
  lemma ArmThenDisarmExactly(rows: map<string, Row>, t: Target, reason: string, armedBy: string, at: int)
    requires ValidRows(rows) && Proper(t)
    ensures var after := Armed(rows, t, reason, armedBy, at) - {IdOf(t)};
            && ValidRows(after)
            && (Indistinguishable(rows, after) <==> IdOf(t) !in rows || (t.Workspace? && GLOBAL_ID in rows))
            && (IdOf(t) !in rows ==> after == rows)
  {
    var after := Armed(rows, t, reason, armedBy, at) - {IdOf(t)};
    assert after == rows - {IdOf(t)};
    if IdOf(t) !in rows {
      assert after == rows;
      OnlyScopesMatter(rows, after);
    } else if t.Workspace? && GLOBAL_ID in rows {
      forall row, actor, registry, now ensures SameAnswer(row, actor, rows, after, registry, now) {
        SuspensionMeans(row, actor, rows);
        SuspensionMeans(row, actor, after);
      }
    } else {
      DisarmingShows(rows, after, t);
    }
  }

  /** What `listActiveScopedCertificates` selects when a workspace is deleted. */
  predicate SelectedForDeletion(row: CertRow, id: string) {
    && row.cert.status == "active"
    && (row.workspaceId == Some(id) || (row.cert.scope.Some? && row.cert.scope.value.resource == "workspace:" + id))
  }

  /**
   * A deletion selects the active certificates that belong by stamp or by scope, and none on
   * account of their holder.
   */
  lemma DeletionSelectsExactly(row: CertRow, id: string)
    requires id != ""
    ensures SelectedForDeletion(row, id) <==> row.cert.status == "active" && BelongsTo(row, Actor("agent", None), id)
  {
    BelongsExactly(row, Actor("agent", None), id);
  }

  /** A kill switch covers everything a deletion would revoke, and also the actors filed under the workspace. */
  lemma SuspensionCoversDeletion(row: CertRow, actor: Actor, id: string, rows: map<string, Row>,
                                 registry: set<string>, now: int)
    requires ValidRows(rows) && id in rows && id != GLOBAL_ID && actor.kind != "human"
    requires SelectedForDeletion(row, id) || actor.workspaceId == Some(id)
    ensures StatusUnder(row, actor, rows, registry, now) == Effective("revoked", [])
  {
    SuspensionMeans(row, actor, rows);
    if row.cert.scope.Some? && row.cert.scope.value.resource == "workspace:" + id {
      var r := row.cert.scope.value.resource;
      assert r[..|"workspace:"|] == "workspace:" && r[|"workspace:"|..] == id;
    }
    assert BelongsTo(row, actor, id);
  }

  // ---- the server-side decision point -------------------------------------

  function Certs(held: seq<CertRow>): seq<Authz.Certificate> {
    seq(|held|, i requires 0 <= i < |held| => held[i].cert)
  }

  function FindById(held: seq<CertRow>, id: string): Option<CertRow> {
    if held == [] then None else if held[0].cert.id == id then Some(held[0]) else FindById(held[1..], id)
  }

  /** `hasCapability` on one snapshot of the tables. */
  predicate HasCapability(a: Authz.Action, held: seq<CertRow>, actor: Option<Actor>, s: State, now: int) {
    match Authz.Resolve(Glob.JsRegExp, a, Certs(held), now)
    case Denied(_) => false
    case Allowed(id) =>
      if s.global.None? && s.byWorkspace == map[] then true
      else if actor.None? then false
      else if actor.value.kind == "human" then true
      else
        match (if id == "" then None else FindById(held, id))
        case None => false
        case Some(row) => SuppressionFor(row.workspaceId, row.cert.scope, actor.value, s).None?
  }

  /** Certificate ids are a primary key. */
  predicate Keyed(held: seq<CertRow>) {
    && (forall i, j :: 0 <= i < j < |held| ==> held[i].cert.id != held[j].cert.id)
    && (forall i :: 0 <= i < |held| ==> held[i].cert.id != "")
  }

  lemma {:induction false} FindsTheRow(held: seq<CertRow>, i: nat)
    requires Keyed(held) && i < |held|
    ensures FindById(held, held[i].cert.id) == Some(held[i])
  {
    if i > 0 {
      assert Keyed(held[1..]);
      assert held[1..][i - 1] == held[i];
      FindsTheRow(held[1..], i - 1);
    }
  }

  predicate NothingArmed(s: State) {
    s.global.None? && s.byWorkspace == map[]
  }

  /** Not suspended, or exempt, or nothing is armed at all. */
  predicate Cleared(row: CertRow, actor: Option<Actor>, s: State) {
    NothingArmed(s) || (actor.Some? && SuppressionFor(row.workspaceId, row.cert.scope, actor.value, s).None?)
  }

  lemma NothingArmedMeans(rows: map<string, Row>)
    requires ValidRows(rows)
    ensures NothingArmed(ArmedState(rows)) <==> rows == map[]
  {
    assert rows == map[] <==> forall id :: id !in rows;
    assert ArmedState(rows).byWorkspace == map[] <==> forall id :: id !in ArmedState(rows).byWorkspace;
  }

  /** Cleared, in the table's terms: nothing is armed, or the holder is known and the certificate not suspended. */
  lemma ClearedExactly(row: CertRow, actor: Option<Actor>, rows: map<string, Row>)
    requires ValidRows(rows)
    ensures Cleared(row, actor, ArmedState(rows))
            <==> rows == map[] || (actor.Some? && !Suspended(row, actor.value, rows))
  {
    NothingArmedMeans(rows);
    if actor.Some? {
      SuspensionMeans(row, actor.value, rows);
    }
  }

  predicate GrantsAt(a: Authz.Action, held: seq<CertRow>, i: int, now: int) {
    0 <= i < |held| && Authz.Grants(Glob.JsRegExp, a, held[i].cert, now)
  }

  predicate FirstGrantAt(a: Authz.Action, held: seq<CertRow>, i: int, now: int) {
    GrantsAt(a, held, i, now) && forall j :: 0 <= j < i ==> !GrantsAt(a, held, j, now)
  }

  lemma ResolvedRow(a: Authz.Action, held: seq<CertRow>, now: int) returns (i: int)
    requires Keyed(held) && Authz.Resolve(Glob.JsRegExp, a, Certs(held), now).Allowed?
    ensures FirstGrantAt(a, held, i, now)
    ensures var id := Authz.Resolve(Glob.JsRegExp, a, Certs(held), now).grantingCertId;
            id != "" && FindById(held, id) == Some(held[i])
  {
    var certs := Certs(held);
    Authz.ResolveMeans(Glob.JsRegExp, a, certs, now);
    i :| 0 <= i < |certs| && Authz.Grants(Glob.JsRegExp, a, certs[i], now)
         && certs[i].id == Authz.Resolve(Glob.JsRegExp, a, certs, now).grantingCertId
         && forall j :: 0 <= j < i ==> !Authz.Grants(Glob.JsRegExp, a, certs[j], now);
    FindsTheRow(held, i);
    forall j | 0 <= j < i ensures !GrantsAt(a, held, j, now) { assert held[j].cert == certs[j]; }
  }

  lemma DeniedMeansNone(a: Authz.Action, held: seq<CertRow>, now: int)
    requires Authz.Resolve(Glob.JsRegExp, a, Certs(held), now).Denied?
    ensures forall i :: !GrantsAt(a, held, i, now)
  {
    var certs := Certs(held);
    Authz.ResolveMeans(Glob.JsRegExp, a, certs, now);
    forall i | 0 <= i < |held| ensures !GrantsAt(a, held, i, now) { assert certs[i] == held[i].cert; }
  }

  /** The answer rests on the first granting certificate alone. */
  lemma DecisionRestsOnTheFirst(a: Authz.Action, held: seq<CertRow>, actor: Option<Actor>, s: State, now: int)
    requires Keyed(held)
    ensures HasCapability(a, held, actor, s, now)
            <==> exists i :: FirstGrantAt(a, held, i, now) && Cleared(held[i], actor, s)
  {
    if Authz.Resolve(Glob.JsRegExp, a, Certs(held), now).Allowed? {
      var i := ResolvedRow(a, held, now);
      assert forall k :: FirstGrantAt(a, held, k, now) ==> k == i;
      assert HasCapability(a, held, actor, s, now) <==> Cleared(held[i], actor, s);
    } else {
      DeniedMeansNone(a, held, now);
    }
  }

  lemma ClearedStatus(row: CertRow, actor: Actor, s: State, registry: set<string>, now: int, name: string)
    requires Authz.IsUsable(row.cert, now) && name in row.cert.capabilities
    requires SuppressionFor(row.workspaceId, row.cert.scope, actor, s).None?
    ensures var e := ResolveCertStatus(row, actor, s, registry, now);
            e.status == "active" && (name in e.capabilities <==> Capability.Survives(name, registry))
  {
    Capability.FilterMeans(row.cert.capabilities, registry);
  }

  predicate ActiveAt(row: CertRow, actor: Actor, s: State, registry: set<string>, now: int) {
    ResolveCertStatus(row, actor, s, registry, now).status == "active"
  }

  /** Some certificate of the holder reads active, and lists the name in what is read. */
  ghost predicate ListedActive(name: string, held: seq<CertRow>, actor: Actor, s: State, registry: set<string>,
                               now: int) {
    exists i :: 0 <= i < |held| && ActiveAt(held[i], actor, s, registry, now)
                && name in ResolveCertStatus(held[i], actor, s, registry, now).capabilities
  }

  /**
   * The certificate a yes rests on has a resolved status that is active. Some active certificate
   * also lists the capability exactly when the name is built in, or custom and still registered.
   */
  lemma YesIsBackedByActiveStatus(a: Authz.Action, held: seq<CertRow>, actorRow: Option<Actor>, actor: Actor, s: State,
                                  registry: set<string>, now: int)
    requires Keyed(held) && (actorRow.Some? ==> actorRow.value == actor)
    requires HasCapability(a, held, actorRow, s, now)
    ensures exists i :: FirstGrantAt(a, held, i, now) && ActiveAt(held[i], actor, s, registry, now)
    ensures ListedActive(a.capability, held, actor, s, registry, now) <==> Capability.Survives(a.capability, registry)
  {
    DecisionRestsOnTheFirst(a, held, actorRow, s, now);
    var i :| FirstGrantAt(a, held, i, now) && Cleared(held[i], actorRow, s);
    ClearedStatus(held[i], actor, s, registry, now, a.capability);
    if i :| 0 <= i < |held| && a.capability in ResolveCertStatus(held[i], actor, s, registry, now).capabilities {
      Capability.FilterMeans(held[i].cert.capabilities, registry);
    }
  }

  const INVOICE := "acme:invoice"
  const INVOICE_ROW := CertRow(Authz.Certificate("c", [INVOICE], None, "active", None, 0), None)
  const NONE_ARMED := State(None, map[])

  lemma NotBuiltin(name: string)
    requires ':' in name
    ensures !Capability.IsBuiltin(name)
  {
    if Capability.IsBuiltin(name) {
      Capability.ColonFreeBuiltins(name);
    }
  }

  /**
   * The registry is not consulted: with nothing armed, an unregistered custom name gets a yes
   * that no active status lists.
   */
  lemma UnregisteredYes(actor: Actor, now: int)
    ensures var a := Authz.Action(INVOICE, None);
            && Keyed([INVOICE_ROW]) && HasCapability(a, [INVOICE_ROW], Some(actor), NONE_ARMED, now)
            && !ListedActive(INVOICE, [INVOICE_ROW], actor, NONE_ARMED, {}, now)
  {
    var a, held := Authz.Action(INVOICE, None), [INVOICE_ROW];
    assert GrantsAt(a, held, 0, now) && FirstGrantAt(a, held, 0, now) && Cleared(held[0], Some(actor), NONE_ARMED);
    DecisionRestsOnTheFirst(a, held, Some(actor), NONE_ARMED, now);
    assert INVOICE[4] == ':';
    NotBuiltin(INVOICE);
    YesIsBackedByActiveStatus(a, held, Some(actor), actor, NONE_ARMED, {}, now);
  }

  /** Arming more scopes never turns a no into a yes. */
  lemma ArmingNeverAllows(a: Authz.Action, held: seq<CertRow>, actor: Option<Actor>, rows: map<string, Row>,
                          rows': map<string, Row>, now: int)
    requires Keyed(held) && ValidRows(rows) && ValidRows(rows') && rows.Keys <= rows'.Keys
    requires HasCapability(a, held, actor, ArmedState(rows'), now)
    ensures HasCapability(a, held, actor, ArmedState(rows), now)
  {
    var s, s' := ArmedState(rows), ArmedState(rows');
    DecisionRestsOnTheFirst(a, held, actor, s, now);
    DecisionRestsOnTheFirst(a, held, actor, s', now);
    var i :| FirstGrantAt(a, held, i, now) && Cleared(held[i], actor, s');
    NothingArmedMeans(rows);
    NothingArmedMeans(rows');
    if rows' == map[] {
      assert rows == map[] by { assert forall id :: id in rows ==> id in rows'; }
    } else {
      SuspensionMeans(held[i], actor.value, rows);
      SuspensionMeans(held[i], actor.value, rows');
    }
  }

  ghost predicate SomeClearedGrant(a: Authz.Action, held: seq<CertRow>, actor: Option<Actor>, s: State, now: int) {
    exists i :: GrantsAt(a, held, i, now) && Cleared(held[i], actor, s)
  }

  lemma FirstGrant(a: Authz.Action, held: seq<CertRow>, k: int, now: int) returns (i: int)
    requires GrantsAt(a, held, k, now)
    ensures FirstGrantAt(a, held, i, now)
  {
    i := 0;
    while !GrantsAt(a, held, i, now)
      invariant 0 <= i <= k
      invariant forall j :: 0 <= j < i ==> !GrantsAt(a, held, j, now)
      decreases k - i
    {
      i := i + 1;
    }
  }

  /**
   * A yes always means some unsuspended certificate grants; the converse fails exactly when the
   * first that grants is suspended.
   */
  lemma ConservativeExactly(a: Authz.Action, held: seq<CertRow>, actor: Option<Actor>, s: State, now: int)
    requires Keyed(held)
    ensures HasCapability(a, held, actor, s, now) ==> SomeClearedGrant(a, held, actor, s, now)
    ensures SomeClearedGrant(a, held, actor, s, now) && !HasCapability(a, held, actor, s, now)
            <==> && SomeClearedGrant(a, held, actor, s, now)
                 && exists i :: FirstGrantAt(a, held, i, now) && !Cleared(held[i], actor, s)
  {
    DecisionRestsOnTheFirst(a, held, actor, s, now);
    if k :| GrantsAt(a, held, k, now) {
      var i := FirstGrant(a, held, k, now);
    }
  }

  predicate SameAnswerFor(a: Authz.Action, held: seq<CertRow>, held': seq<CertRow>, actor: Option<Actor>, s: State,
                          now: int) {
    HasCapability(a, held', actor, s, now) == HasCapability(a, held, actor, s, now)
  }

  /** Every arrangement of the certificates gets the same answer. */
  ghost predicate OrderIsInvisible(a: Authz.Action, held: seq<CertRow>, actor: Option<Actor>, s: State, now: int) {
    forall held' :: multiset(held') == multiset(held) ==> SameAnswerFor(a, held, held', actor, s, now)
  }

  /** Of the certificates that grant, all are suspended or none is. */
  ghost predicate GrantsAgree(a: Authz.Action, held: seq<CertRow>, actor: Option<Actor>, s: State, now: int) {
    forall i, j :: GrantsAt(a, held, i, now) && GrantsAt(a, held, j, now) ==>
      (Cleared(held[i], actor, s) <==> Cleared(held[j], actor, s))
  }

  lemma RearrangedStaysKeyed(held: seq<CertRow>, held': seq<CertRow>)
    requires Keyed(held) && multiset(held') == multiset(held)
    ensures Keyed(held')
  {
    assert Distinct(held);
    Rearranged(held, held');
    forall i | 0 <= i < |held'| ensures held'[i].cert.id != "" {
      assert held'[i] in held;
    }
    forall i, j | 0 <= i < j < |held'| ensures held'[i].cert.id != held'[j].cert.id {
      assert held'[i] in held && held'[j] in held && held'[i] != held'[j];
    }
  }

  /** The same certificates with the k-th one moved to the front. */
  function Fronted(held: seq<CertRow>, k: int): seq<CertRow>
    requires 0 <= k < |held|
  {
    [held[k]] + held[..k] + held[k + 1..]
  }

  /** A certificate that grants decides alone once it stands first. */
  lemma FrontDecides(a: Authz.Action, held: seq<CertRow>, k: int, actor: Option<Actor>, s: State, now: int)
    requires Keyed(held) && GrantsAt(a, held, k, now)
    ensures multiset(Fronted(held, k)) == multiset(held)
    ensures HasCapability(a, Fronted(held, k), actor, s, now) <==> Cleared(held[k], actor, s)
  {
    var front := Fronted(held, k);
    assert held == held[..k] + [held[k]] + held[k + 1..];
    RearrangedStaysKeyed(held, front);
    assert FirstGrantAt(a, front, 0, now) && front[0] == held[k];
    DecisionRestsOnTheFirst(a, front, actor, s, now);
  }

  /** Grants that agree leave an order nothing to decide. */
  lemma AgreementDecides(a: Authz.Action, held: seq<CertRow>, held': seq<CertRow>, actor: Option<Actor>, s: State,
                         now: int)
    requires Keyed(held) && multiset(held') == multiset(held) && GrantsAgree(a, held, actor, s, now)
    requires HasCapability(a, held, actor, s, now)
    ensures HasCapability(a, held', actor, s, now)
  {
    RearrangedStaysKeyed(held, held');
    Rearranged(held, held');
    DecisionRestsOnTheFirst(a, held, actor, s, now);
    DecisionRestsOnTheFirst(a, held', actor, s, now);
    var i :| FirstGrantAt(a, held, i, now) && Cleared(held[i], actor, s);
    assert held[i] in held';
    var k :| 0 <= k < |held'| && held'[k] == held[i];
    var first := FirstGrant(a, held', k, now);
    assert held'[first] in held;
    var j :| 0 <= j < |held| && held[j] == held'[first];
    assert GrantsAt(a, held, j, now);
  }

  lemma AgreementTravels(a: Authz.Action, held: seq<CertRow>, held': seq<CertRow>, actor: Option<Actor>, s: State,
                         now: int)
    requires multiset(held') == multiset(held) && GrantsAgree(a, held, actor, s, now)
    ensures GrantsAgree(a, held', actor, s, now)
  {
    Rearranged(held, held');
    forall i, j | GrantsAt(a, held', i, now) && GrantsAt(a, held', j, now)
      ensures Cleared(held'[i], actor, s) <==> Cleared(held'[j], actor, s)
    {
      assert held'[i] in held && held'[j] in held;
      var k :| 0 <= k < |held| && held[k] == held'[i];
      var l :| 0 <= l < |held| && held[l] == held'[j];
      assert GrantsAt(a, held, k, now) && GrantsAt(a, held, l, now);
    }
  }

  /**
   * The order of the certificates never shows exactly when the ones that grant are all suspended
   * or all not.
   */
  lemma OrderDecidesExactly(a: Authz.Action, held: seq<CertRow>, actor: Option<Actor>, s: State, now: int)
    requires Keyed(held)
    ensures OrderIsInvisible(a, held, actor, s, now) <==> GrantsAgree(a, held, actor, s, now)
  {
    if OrderIsInvisible(a, held, actor, s, now) {
      forall i, j | GrantsAt(a, held, i, now) && GrantsAt(a, held, j, now)
        ensures Cleared(held[i], actor, s) <==> Cleared(held[j], actor, s)
      {
        FrontDecides(a, held, i, actor, s, now);
        FrontDecides(a, held, j, actor, s, now);
        assert SameAnswerFor(a, held, Fronted(held, i), actor, s, now);
        assert SameAnswerFor(a, held, Fronted(held, j), actor, s, now);
      }
    }
    if GrantsAgree(a, held, actor, s, now) {
      forall held' | multiset(held') == multiset(held) ensures SameAnswerFor(a, held, held', actor, s, now) {
        RearrangedStaysKeyed(held, held');
        AgreementTravels(a, held, held', actor, s, now);
        if HasCapability(a, held, actor, s, now) {
          AgreementDecides(a, held, held', actor, s, now);
        } else if HasCapability(a, held', actor, s, now) {
          AgreementDecides(a, held', held, actor, s, now);
        }
      }
    }
  }

  /** The input: with a workspace armed, swapping two certificates that grant changes the answer. */
  lemma OrderCanDecide()
    ensures exists a, x: CertRow, y: CertRow, actor, s, now ::
              HasCapability(a, [x, y], Some(actor), s, now) != HasCapability(a, [y, x], Some(actor), s, now)
  {
    var a := Authz.Action("api_call", None);
    var x := CertRow(Authz.Certificate("1", ["api_call"], None, "active", None, 0), Some("w"));
    var y := CertRow(Authz.Certificate("2", ["api_call"], None, "active", None, 0), None);
    var actor := Actor("agent", None);
    var rows := map["w" := FreshRow(Workspace("w"), "", "", 0)];
    var s := ArmedState(rows);
    SuspensionMeans(x, actor, rows);
    SuspensionMeans(y, actor, rows);
    assert BelongsTo(x, actor, "w");
    assert "w" in s.byWorkspace;
    assert "api_call" == x.cert.capabilities[0] && "api_call" == y.cert.capabilities[0];
    var xy, yx := [x, y], [y, x];
    assert xy[0] == x && yx[0] == y;
    assert Keyed(xy) && Keyed(yx);
    assert GrantsAt(a, xy, 0, 0) && GrantsAt(a, yx, 0, 0);
    assert Cleared(y, Some(actor), s) && !Cleared(x, Some(actor), s);
    DecisionRestsOnTheFirst(a, xy, Some(actor), s, 0);
    DecisionRestsOnTheFirst(a, yx, Some(actor), s, 0);
    assert HasCapability(a, yx, Some(actor), s, 0) && !HasCapability(a, xy, Some(actor), s, 0);
  }
}
