/**
 * Suspension computed at decision time from armed switches, over an unchanged ledger
 * (lib/kill-switch.ts, db/kill-switch.dao.ts, lib/access-control.ts).
 */
module KillSwitch {
  import opened Prelude
  import opened Text
  import Authz
  import Capability

  const GLOBAL_ID := "global"

  datatype Row = Row(id: string, scopeType: string, workspaceId: Option<string>, reason: string, armedBy: string,
                     armedAt: int)

  datatype State = State(global: Option<Row>, byWorkspace: map<string, Row>)

  datatype Actor = Actor(kind: string, workspaceId: Option<string>)

  /** A ledger row: the certificate and the workspace it is stamped with. */
  datatype CertRow = CertRow(cert: Authz.Certificate, workspaceId: Option<string>)

  datatype Effective = Effective(status: string, capabilities: seq<string>)

  // ---- the armed set -------------------------------------------------------

  predicate NonEmpty(id: Option<string>) {
    id.Some? && id.value != ""
  }

  function AddRow(s: State, row: Row): State {
    if row.scopeType == "global" then s.(global := Some(row))
    else if NonEmpty(row.workspaceId) then s.(byWorkspace := s.byWorkspace[row.workspaceId.value := row])
    else s
  }

  function StateOf(rows: seq<Row>): State {
    if rows == [] then State(None, map[]) else AddRow(StateOf(rows[..|rows| - 1]), rows[|rows| - 1])
  }

  method ToState(rows: seq<Row>) returns (s: State)
    ensures s == StateOf(rows)
  {
    var byWorkspace: map<string, Row> := map[];
    var global: Option<Row> := None;
    for i := 0 to |rows|
      invariant State(global, byWorkspace) == StateOf(rows[..i])
    {
      var row := rows[i];
      assert rows[..i + 1][..i] == rows[..i];
      if row.scopeType == "global" {
        global := Some(row);
      } else if row.workspaceId.Some? && row.workspaceId.value != "" {
        byWorkspace := byWorkspace[row.workspaceId.value := row];
      }
    }
    assert rows[..|rows|] == rows;
    return State(global, byWorkspace);
  }

  /** What can be armed. Workspace ids are generated: non-empty, and never the global id. */
  datatype Target = Everything | Workspace(id: string)

  predicate Proper(t: Target) {
    t.Workspace? ==> t.id != "" && t.id != GLOBAL_ID
  }

  function IdOf(t: Target): string {
    if t.Everything? then GLOBAL_ID else t.id
  }

  function FreshRow(t: Target, reason: string, armedBy: string, at: int): Row {
    match t
    case Everything => Row(GLOBAL_ID, "global", None, reason, armedBy, at)
    case Workspace(id) => Row(id, "workspace", Some(id), reason, armedBy, at)
  }

  /** Each row sits under its own id and is shaped by its scope. */
  predicate ValidRows(rows: map<string, Row>) {
    forall id :: id in rows ==>
      var r := rows[id];
      && r.id == id && id != ""
      && (if id == GLOBAL_ID then r.scopeType == "global" && r.workspaceId == None
          else r.scopeType == "workspace" && r.workspaceId == Some(id))
  }

  function Armed(rows: map<string, Row>, t: Target, reason: string, armedBy: string, at: int): map<string, Row> {
    var id := IdOf(t);
    if id in rows then rows[id := rows[id].(reason := reason, armedBy := armedBy, armedAt := at)]
    else rows[id := FreshRow(t, reason, armedBy, at)]
  }

  class KillSwitchStore {
    var rows: map<string, Row>

    predicate Valid()
      reads this
    {
      ValidRows(rows)
    }

    constructor ()
      ensures rows == map[] && Valid()
    {
      rows := map[];
    }

    /** Upsert: re-arming refreshes reason, author and time of the row that is there. */
    method Arm(t: Target, reason: string, armedBy: string, at: int) returns (row: Row)
      requires Valid() && Proper(t)
      modifies this
      ensures Valid()
      ensures rows == Armed(old(rows), t, reason, armedBy, at)
      ensures row == rows[IdOf(t)] && row.reason == reason && row.armedBy == armedBy && row.armedAt == at
    {
      var id := IdOf(t);
      if id in rows {
        row := rows[id].(reason := reason, armedBy := armedBy, armedAt := at);
      } else {
        row := FreshRow(t, reason, armedBy, at);
      }
      rows := rows[id := row];
    }

    method Disarm(id: string) returns (row: Option<Row>)
      requires Valid()
      modifies this
      ensures Valid()
      ensures rows == old(rows) - {id}
      ensures row == if id in old(rows) then Some(old(rows)[id]) else None
    {
      if id !in rows {
        return None;
      }
      row := Some(rows[id]);
      rows := rows - {id};
    }
  }

  /** `findMany`: every row once, in no promised order. */
  ghost predicate Lists(listing: seq<Row>, rows: map<string, Row>) {
    && Distinct(listing)
    && forall r :: r in listing <==> r.id in rows && rows[r.id] == r
  }

  /** The armed set read from the rows themselves. */
  function ArmedState(rows: map<string, Row>): State {
    State(if GLOBAL_ID in rows then Some(rows[GLOBAL_ID]) else None, rows - {GLOBAL_ID})
  }

  lemma {:induction false} StateOfMeans(listing: seq<Row>, rows: map<string, Row>)
    requires ValidRows(rows)
    requires forall r :: r in listing ==> r.id in rows && rows[r.id] == r
    ensures StateOf(listing).global
            == (if GLOBAL_ID in rows && rows[GLOBAL_ID] in listing then Some(rows[GLOBAL_ID]) else None)
    ensures forall id :: id in StateOf(listing).byWorkspace <==> id != GLOBAL_ID && id in rows && rows[id] in listing
    ensures forall id :: id in StateOf(listing).byWorkspace ==> StateOf(listing).byWorkspace[id] == rows[id]
  {
    if listing != [] {
      var n := |listing| - 1;
      StateOfMeans(listing[..n], rows);
      assert listing == listing[..n] + [listing[n]];
      assert listing[n].id in rows;
    }
  }

  /** The order in which the database lists the rows never shows. */
  lemma ListingOrderIsInvisible(listing: seq<Row>, rows: map<string, Row>)
    requires ValidRows(rows) && Lists(listing, rows)
    ensures StateOf(listing) == ArmedState(rows)
  {
    StateOfMeans(listing, rows);
    assert forall id :: id in rows ==> rows[id] in listing;
    assert StateOf(listing).byWorkspace == rows - {GLOBAL_ID};
  }

  // ---- suspension -----------------------------------------------------------

  function ScopeWorkspace(scope: Option<Authz.Scope>): Option<string> {
    if scope.Some? && HasPrefix(scope.value.resource, "workspace:") then
      Some(scope.value.resource[|"workspace:"|..])
    else None
  }

  function FirstArmed(candidates: seq<Option<string>>, s: State): Option<Row> {
    if candidates == [] then None
    else if NonEmpty(candidates[0]) && candidates[0].value in s.byWorkspace then
      Some(s.byWorkspace[candidates[0].value])
    else FirstArmed(candidates[1..], s)
  }

  function SuppressionFor(workspaceId: Option<string>, scope: Option<Authz.Scope>, actor: Actor,
                          s: State): Option<Row> {
    if actor.kind == "human" then None
    else if s.global.Some? then s.global
    else if s.byWorkspace == map[] then None
    else FirstArmed([workspaceId, actor.workspaceId, ScopeWorkspace(scope)], s)
  }

  function ResolveCertStatus(row: CertRow, actor: Actor, s: State, registry: set<string>, now: int): Effective {
    var c := row.cert;
    var status := if c.status == "active" && c.expiresAt.Some? && c.expiresAt.value <= now then "expired" else c.status;
    if SuppressionFor(row.workspaceId, c.scope, actor, s).Some? then Effective("revoked", [])
    else Effective(status, Capability.Filter(c.capabilities, registry))
  }

  /** The three ways a certificate belongs to a workspace. */
  predicate BelongsTo(row: CertRow, actor: Actor, id: string) {
    id != "" && (row.workspaceId == Some(id) || actor.workspaceId == Some(id)
                 || ScopeWorkspace(row.cert.scope) == Some(id))
  }

  lemma {:induction false} FirstArmedMeans(candidates: seq<Option<string>>, s: State)
    ensures FirstArmed(candidates, s).Some? <==> exists id :: id != "" && id in s.byWorkspace && Some(id) in candidates
  {
    if candidates != [] {
      FirstArmedMeans(candidates[1..], s);
      assert candidates == [candidates[0]] + candidates[1..];
      if NonEmpty(candidates[0]) {
        assert Some(candidates[0].value) in candidates;
      }
    }
  }

  /** Suspended exactly when non-human and covered by the global switch or one of its workspaces' switches. */
  lemma SuspensionMeans(row: CertRow, actor: Actor, rows: map<string, Row>)
    requires ValidRows(rows)
    ensures SuppressionFor(row.workspaceId, row.cert.scope, actor, ArmedState(rows)).Some?
            <==> && actor.kind != "human"
                 && (GLOBAL_ID in rows || exists id :: id in rows && id != GLOBAL_ID && BelongsTo(row, actor, id))
  {
    var s := ArmedState(rows);
    var l := [row.workspaceId, actor.workspaceId, ScopeWorkspace(row.cert.scope)];
    FirstArmedMeans(l, s);
    forall id | id in rows && id != GLOBAL_ID ensures BelongsTo(row, actor, id) <==> id != "" && Some(id) in l {
      assert l[0] == row.workspaceId && l[1] == actor.workspaceId && l[2] == ScopeWorkspace(row.cert.scope);
    }
    if s.byWorkspace == map[] {
      assert forall id :: id in rows && id != GLOBAL_ID ==> id in s.byWorkspace;
    }
  }

  // ---- which switch, in fields --------------------------------------------------

  /** A certificate belongs to a workspace by its stamp, by its holder, or by a scope of exactly `workspace:<id>`. */
  lemma BelongsExactly(row: CertRow, actor: Actor, id: string)
    ensures BelongsTo(row, actor, id)
            <==> && id != ""
                 && (|| row.workspaceId == Some(id)
                     || actor.workspaceId == Some(id)
                     || (row.cert.scope.Some? && row.cert.scope.value.resource == "workspace:" + id))
  {
    if row.cert.scope.Some? {
      var r := row.cert.scope.value.resource;
      if HasPrefix(r, "workspace:") {
        assert r == "workspace:" + r[|"workspace:"|..];
      }
      if r == "workspace:" + id {
        assert r[..|"workspace:"|] == "workspace:" && r[|"workspace:"|..] == id;
      }
    }
  }

  lemma FirstOfThree(a: Option<string>, b: Option<string>, c: Option<string>, s: State)
    ensures var armed := (x: Option<string>) => NonEmpty(x) && x.value in s.byWorkspace;
            FirstArmed([a, b, c], s)
            == if armed(a) then Some(s.byWorkspace[a.value])
               else if armed(b) then Some(s.byWorkspace[b.value])
               else if armed(c) then Some(s.byWorkspace[c.value])
               else None
  {
    assert [a, b, c][1..] == [b, c] && [b, c][1..] == [c] && [c][1..] == [];
    assert FirstArmed([c], s) == if NonEmpty(c) && c.value in s.byWorkspace then Some(s.byWorkspace[c.value]) else None;
    assert FirstArmed([b, c], s)
           == if NonEmpty(b) && b.value in s.byWorkspace then Some(s.byWorkspace[b.value]) else FirstArmed([c], s);
  }

  predicate ArmedFor(rows: map<string, Row>, id: Option<string>) {
    id.Some? && id.value in rows && id.value != GLOBAL_ID
  }

  /**
   * The row reported: the global switch if armed, else the certificate's own workspace, the
   * holder's, the scope's, in that order.
   */
  lemma SuppressionNamesTheRow(row: CertRow, actor: Actor, rows: map<string, Row>)
    requires ValidRows(rows) && actor.kind != "human"
    ensures var r := SuppressionFor(row.workspaceId, row.cert.scope, actor, ArmedState(rows));
            var scoped := ScopeWorkspace(row.cert.scope);
            if GLOBAL_ID in rows then r == Some(rows[GLOBAL_ID])
            else if ArmedFor(rows, row.workspaceId) then r == Some(rows[row.workspaceId.value])
            else if ArmedFor(rows, actor.workspaceId) then r == Some(rows[actor.workspaceId.value])
            else if ArmedFor(rows, scoped) then r == Some(rows[scoped.value])
            else r == None
  {
    var s := ArmedState(rows);
    FirstOfThree(row.workspaceId, actor.workspaceId, ScopeWorkspace(row.cert.scope), s);
    if s.byWorkspace == map[] {
      assert forall id :: id in rows && id != GLOBAL_ID ==> id in s.byWorkspace;
    }
  }

  /** Arming touches one row: reason, author and time are the new ones, and the scope is the one armed. */
  lemma ArmTouchesOneRow(rows: map<string, Row>, t: Target, reason: string, armedBy: string, at: int)
    requires ValidRows(rows) && Proper(t)
    ensures var after, id := Armed(rows, t, reason, armedBy, at), (if t.Everything? then "global" else t.id);
            && after.Keys == rows.Keys + {id}
              && (forall other :: other in rows && other != id ==> after[other] == rows[other])
            && after[id] == Row(id, if t.Everything? then "global" else "workspace",
                                if t.Everything? then None else Some(t.id), reason, armedBy, at)
  {
  }
}
