/**
 * Whether a set of certificates authorizes an action (sdk-go/authz/resolve.go and its
 * TypeScript original), and how that answer moves over a ledger's life.
 */
module Authz {
  import opened Prelude
  import Glob

  const STATUS_ACTIVE := "active"

  datatype Scope = Scope(resource: string, resourcePattern: string, maxUses: Option<int>)

  datatype Certificate = Certificate(
    id: string, capabilities: seq<string>, scope: Option<Scope>, status: string, expiresAt: Option<int>, usedCount: int)

  datatype Action = Action(capability: string, resource: Option<string>)

  datatype Decision = Allowed(grantingCertId: string) | Denied(reason: string)

  predicate IsUsable(c: Certificate, now: int) {
    && c.status == STATUS_ACTIVE
    && (c.expiresAt.Some? ==> now < c.expiresAt.value)
    && (c.scope.Some? && c.scope.value.maxUses.Some? ==> c.usedCount < c.scope.value.maxUses.value)
  }

  predicate ScopeMatches(d: Glob.Dialect, scope: Option<Scope>, requested: Option<string>) {
    var resource := if scope.Some? then scope.value.resource else "";
    var pattern := if scope.Some? then scope.value.resourcePattern else "";
    if resource == "" && pattern == "" then true
    else if requested.None? then false
    else (resource != "" && resource == requested.value) || (pattern != "" && Glob.Accepts(d, pattern, requested.value))
  }

  predicate Grants(d: Glob.Dialect, a: Action, c: Certificate, now: int) {
    IsUsable(c, now) && a.capability in c.capabilities && ScopeMatches(d, c.scope, a.resource)
  }

  function DenyReason(a: Action): string {
    if a.resource.Some? && a.resource.value != "" then
      "No active certificate grants '" + a.capability + "' for resource '" + a.resource.value + "'"
    else "No active certificate grants '" + a.capability + "'"
  }

  function Resolve(d: Glob.Dialect, a: Action, certs: seq<Certificate>, now: int): Decision {
    if certs == [] then Denied(DenyReason(a))
    else if !IsUsable(certs[0], now) then Resolve(d, a, certs[1..], now)
    else if a.capability !in certs[0].capabilities then Resolve(d, a, certs[1..], now)
    else if !ScopeMatches(d, certs[0].scope, a.resource) then Resolve(d, a, certs[1..], now)
    else Allowed(certs[0].id)
  }

  /**
   * When a certificate grants: active, strictly before its expiry, with a use left, listing the
   * capability, and either unscoped or asked about a resource that is its own or reads as its
   * pattern's segments with line-break-free fillers.
   */
  lemma GrantsExactly(d: Glob.Dialect, a: Action, c: Certificate, now: int)
    ensures Grants(d, a, c, now) <==>
              && c.status == STATUS_ACTIVE && (c.expiresAt == None || now < c.expiresAt.value)
              && a.capability in c.capabilities
              && (c.scope == None ||
                  var s := c.scope.value;
                  && (s.maxUses == None || c.usedCount < s.maxUses.value)
                  && ((s.resource == "" && s.resourcePattern == "") ||
                      (a.resource.Some? &&
                       ((s.resource != "" && a.resource.value == s.resource) ||
                        (s.resourcePattern != "" && exists fillers ::
                           Glob.Fills(d, Glob.Split(s.resourcePattern, '*'), fillers, a.resource.value))))))
  {
    if c.scope.Some? && a.resource.Some? {
      Glob.GlobMeaning(d, c.scope.value.resourcePattern, a.resource.value);
    }
  }

  // ---- the meaning of a decision -----------------------------------------

  ghost predicate Granted(d: Glob.Dialect, a: Action, certs: seq<Certificate>, now: int) {
    exists i :: 0 <= i < |certs| && Grants(d, a, certs[i], now)
  }

  /** The certificate an allow rests on: the first that grants. */
  lemma {:induction false} ResolveMeans(d: Glob.Dialect, a: Action, certs: seq<Certificate>, now: int)
    ensures Resolve(d, a, certs, now).Allowed? <==> Granted(d, a, certs, now)
    ensures Resolve(d, a, certs, now).Allowed? ==>
              exists i :: 0 <= i < |certs| && Grants(d, a, certs[i], now)
                && certs[i].id == Resolve(d, a, certs, now).grantingCertId
                          && forall j :: 0 <= j < i ==> !Grants(d, a, certs[j], now)
    ensures Resolve(d, a, certs, now).Denied? ==> Resolve(d, a, certs, now).reason == DenyReason(a)
  {
    if certs != [] && !Grants(d, a, certs[0], now) {
      ResolveMeans(d, a, certs[1..], now);
      if Resolve(d, a, certs[1..], now).Allowed? {
        var i :| 0 <= i < |certs[1..]| && Grants(d, a, certs[1..][i], now)
                 && certs[1..][i].id == Resolve(d, a, certs[1..], now).grantingCertId
                 && forall j :: 0 <= j < i ==> !Grants(d, a, certs[1..][j], now);
        assert certs[i + 1] == certs[1..][i];
        forall j | 0 <= j < i + 1 ensures !Grants(d, a, certs[j], now) {
          if j > 0 { assert certs[j] == certs[1..][j - 1]; }
        }
      }
      if i :| 0 <= i < |certs| && Grants(d, a, certs[i], now) {
        assert certs[1..][i - 1] == certs[i];
      }
    }
  }

  /** Only which certificates are held matters, not their order or repetition. */
  lemma OrderDoesNotDecide(d: Glob.Dialect, a: Action, certs: seq<Certificate>, certs': seq<Certificate>, now: int)
    requires forall c :: c in certs <==> c in certs'
    ensures Resolve(d, a, certs, now).Allowed? == Resolve(d, a, certs', now).Allowed?
  {
    ResolveMeans(d, a, certs, now);
    ResolveMeans(d, a, certs', now);
    if i :| 0 <= i < |certs| && Grants(d, a, certs[i], now) {
      assert certs[i] in certs';
    }
    if i :| 0 <= i < |certs'| && Grants(d, a, certs'[i], now) {
      assert certs'[i] in certs;
    }
  }

  /** A denial names the capability, and the resource if one was named: an empty one counts as none. */
  lemma DenialNamesWhatWasAsked(capability: string, r: string)
    ensures var short := DenyReason(Action(capability, None));
            && short == "No active certificate grants '" + capability + "'"
            && DenyReason(Action(capability, Some(""))) == short
            && (r != "" ==> DenyReason(Action(capability, Some(r))) == short + " for resource '" + r + "'")
  {
    if r != "" {
      Regroup("No active certificate grants '" + capability, "'", " for resource '");
      assert "'" + " for resource '" == "' for resource '";
    }
  }

  // ---- the ledger over time ------------------------------------------------

  datatype Ledger = Ledger(certs: seq<Certificate>, now: int)

  /** What can happen to a principal's certificates. Statuses leave `active` and never come back. */
  datatype Event =
    | Add(cert: Certificate)
    | Retire(index: nat, status: string)
    | Use(index: nat, times: nat)
    | Advance(elapsed: nat)

  predicate Possible(l: Ledger, e: Event) {
    match e
    case Add(_) => true
    case Retire(i, status) => i < |l.certs| && status != STATUS_ACTIVE
    case Use(i, _) => i < |l.certs|
    case Advance(_) => true
  }

  function Step(l: Ledger, e: Event): Ledger
    requires Possible(l, e)
  {
    match e
    case Add(c) => l.(certs := l.certs + [c])
    case Retire(i, status) => l.(certs := l.certs[i := l.certs[i].(status := status)])
    case Use(i, n) => l.(certs := l.certs[i := l.certs[i].(usedCount := l.certs[i].usedCount + n)])
    case Advance(elapsed) => l.(now := l.now + elapsed)
  }

  ghost predicate Run(states: seq<Ledger>, events: seq<Event>) {
    && |states| == |events| + 1
    && forall i :: 0 <= i < |events| ==> Possible(states[i], events[i]) && states[i + 1] == Step(states[i], events[i])
  }

  predicate May(d: Glob.Dialect, a: Action, l: Ledger) {
    Resolve(d, a, l.certs, l.now).Allowed?
  }

  /** One event: an add never takes permission away, and only an add that itself grants can give it. */
  lemma StepMoves(d: Glob.Dialect, a: Action, l: Ledger, e: Event)
    requires Possible(l, e)
    ensures e.Add? ==> (May(d, a, Step(l, e)) <==> May(d, a, l) || Grants(d, a, e.cert, l.now))
    ensures !e.Add? && May(d, a, Step(l, e)) ==> May(d, a, l)
  {
    var l' := Step(l, e);
    ResolveMeans(d, a, l.certs, l.now);
    ResolveMeans(d, a, l'.certs, l'.now);
    if e.Add? {
      if i :| 0 <= i < |l.certs| && Grants(d, a, l.certs[i], l.now) {
        assert l'.certs[i] == l.certs[i];
      }
      assert l'.certs[|l.certs|] == e.cert;
    } else if i :| 0 <= i < |l'.certs| && Grants(d, a, l'.certs[i], l'.now) {
      assert Grants(d, a, l.certs[i], l.now);
    }
  }

  /** Over any run, permission never appears between two states unless some certificate added between them grants it. */
  lemma {:induction false} PermissionNeedsAnAdd(d: Glob.Dialect, a: Action, states: seq<Ledger>, events: seq<Event>,
                                                lo: nat, hi: nat)
    requires Run(states, events) && lo <= hi < |states|
    requires !May(d, a, states[lo]) && May(d, a, states[hi])
    ensures exists k ::
              && lo <= k < hi && events[k].Add? && Grants(d, a, events[k].cert, states[k].now)
              && !May(d, a, states[k]) && May(d, a, states[k + 1])
    decreases hi
  {
    assert lo != hi;
    assert states[hi] == Step(states[hi - 1], events[hi - 1]);
    StepMoves(d, a, states[hi - 1], events[hi - 1]);
    if May(d, a, states[hi - 1]) {
      PermissionNeedsAnAdd(d, a, states, events, lo, hi - 1);
    }
  }

  /** What each event does to the certificate it names, and that it leaves the others alone. */
  lemma EventsBite(l: Ledger, e: Event)
    requires Possible(l, e)
    ensures var t := Step(l, e);
            && (forall j :: 0 <= j < |l.certs| && !((e.Retire? || e.Use?) && e.index == j) ==> t.certs[j] == l.certs[j])
            && (e.Retire? ==> !IsUsable(t.certs[e.index], t.now))
            && (e.Use? && l.certs[e.index].scope.Some? && l.certs[e.index].scope.value.maxUses.Some?
                && l.certs[e.index].scope.value.maxUses.value <= l.certs[e.index].usedCount + e.times ==>
                  !IsUsable(t.certs[e.index], t.now))
            && (e.Advance? ==> forall j :: 0 <= j < |l.certs| && l.certs[j].expiresAt.Some?
                                           && l.certs[j].expiresAt.value <= l.now + e.elapsed ==>
                                             !IsUsable(t.certs[j], t.now))
            && (e.Add? ==> t.certs == l.certs + [e.cert] && t.now == l.now)
  {
  }

  /** Over any run a certificate that is used up, expired or retired stays so. */
  lemma {:induction false} UnusableForGood(states: seq<Ledger>, events: seq<Event>, j: nat, lo: nat, hi: nat)
    requires Run(states, events) && lo <= hi < |states|
    requires j < |states[lo].certs| && !IsUsable(states[lo].certs[j], states[lo].now)
    ensures j < |states[hi].certs| && !IsUsable(states[hi].certs[j], states[hi].now)
    decreases hi
  {
    if lo < hi {
      UnusableForGood(states, events, j, lo, hi - 1);
      assert states[hi] == Step(states[hi - 1], events[hi - 1]);
    }
  }

  // ---- the two twins -----------------------------------------------------

  ghost predicate ResolversAgree(a: Action, certs: seq<Certificate>, now: int) {
    Resolve(Glob.JsRegExp, a, certs, now) == Resolve(Glob.GoRegexp, a, certs, now)
  }

  lemma {:induction false} SameDecisions(a: Action, certs: seq<Certificate>, now: int)
    requires a.resource.None? || '\r' !in a.resource.value
    ensures Resolve(Glob.JsRegExp, a, certs, now) == Resolve(Glob.GoRegexp, a, certs, now)
  {
    if certs != [] {
      if a.resource.Some? {
        Glob.TwinsAgreeExactly(a.resource.value);
      }
      SameDecisions(a, certs[1..], now);
    }
  }

  lemma EmptyPatternAgrees(r: string)
    ensures Glob.Accepts(Glob.JsRegExp, "", r) == Glob.Accepts(Glob.GoRegexp, "", r)
  {
  }

  lemma OneCertificate(d: Glob.Dialect, a: Action, c: Certificate, now: int)
    ensures Resolve(d, a, [c], now).Allowed? <==> Grants(d, a, c, now)
  {
    ResolveMeans(d, a, [c], now);
    assert [c][0] == c;
  }

  /**
   * The Go and TypeScript resolvers give the same decision on every certificate list
   * exactly when the requested resource holds no carriage return.
   */
  lemma ResolversAgreeExactly(a: Action)
    ensures (forall certs, now :: ResolversAgree(a, certs, now))
            <==> a.resource.None? || '\r' !in a.resource.value
  {
    if a.resource.None? || '\r' !in a.resource.value {
      forall certs, now ensures ResolversAgree(a, certs, now) {
        SameDecisions(a, certs, now);
      }
    } else {
      var r := a.resource.value;
      Glob.TwinsAgreeExactly(r);
      var p :| Glob.Accepts(Glob.JsRegExp, p, r) != Glob.Accepts(Glob.GoRegexp, p, r);
      EmptyPatternAgrees(r);
      var c := Certificate("c", [a.capability], Some(Scope("", p, None)), STATUS_ACTIVE, None, 0);
      assert a.capability == c.capabilities[0];
      OneCertificate(Glob.JsRegExp, a, c, 0);
      OneCertificate(Glob.GoRegexp, a, c, 0);
      assert !ResolversAgree(a, [c], 0);
    }
  }
}
