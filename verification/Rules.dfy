/**
 * The signed rule set: its matchers, its load-time checks, and the deny-overrides
 * evaluation with subjects that may be undecidable (sdk-go/rules/rules.go).
 */
module Rules {
  import opened Prelude
  import opened Text

  const SUBJECT_ANY := "any"
  const SUBJECT_AGENT := "agent"
  const SUBJECT_WORKLOAD := "workload"
  const EFFECT_DENY := "deny"
  const EFFECT_ALLOW := "allow"

  datatype Rule = Rule(id: string, subject: string, workloadId: string, hosts: seq<string>, ports: seq<int>,
                       effect: string)
  datatype ResourceRule = ResourceRule(id: string, subject: string, workloadId: string, resources: seq<string>,
                                       effect: string)
  datatype RuleSet = RuleSet(version: int, rules: seq<Rule>, resourceRules: seq<ResourceRule>, issuedAt: int)

  datatype Destination = Destination(host: string, port: int)
  datatype Attribution = Attribution(isGovernedAgent: bool, workloadId: string)
  datatype Verdict = Deny | Allow | Govern
  datatype Outcome = Outcome(verdict: Verdict, ruleId: string, needsSubject: seq<string>)

  // ---- matchers -----------------------------------------------------------

  function NormalHost(h: string): string {
    ToLower(TrimSuffix(Trim(h), "."))
  }

  predicate MatchHost(pattern: string, host: string) {
    var p, h := NormalHost(pattern), NormalHost(host);
    if p == "" || h == "" || p == "." then false
    else if HasPrefix(p, ".") then HasSuffix(h, p)
    else h == p
  }

  predicate MatchResource(pattern: string, resource: string) {
    if !HasSuffix(pattern, "/*") then pattern == resource
    else
      var prefix := TrimSuffix(pattern, "*");
      resource == TrimSuffix(prefix, "/") || HasPrefix(resource, prefix)
  }

  predicate MatchesDestination(r: Rule, dest: Destination) {
    && (r.ports != [] ==> dest.port in r.ports)
    && exists i :: 0 <= i < |r.hosts| && MatchHost(r.hosts[i], dest.host)
  }

  predicate MatchesResource(r: ResourceRule, resource: string) {
    exists i :: 0 <= i < |r.resources| && MatchResource(r.resources[i], resource)
  }

  // ---- subjects -----------------------------------------------------------

  predicate NeedsAttribution(subject: string) {
    subject == SUBJECT_AGENT || subject == SUBJECT_WORKLOAD
  }

  datatype Coverage = Coverage(applies: bool, decidable: bool)

  function AppliesTo(subject: string, workloadId: string, a: Option<Attribution>): Coverage {
    if !NeedsAttribution(subject) then Coverage(true, true)
    else match a
      case None => Coverage(false, false)
      case Some(w) =>
        if !w.isGovernedAgent then Coverage(false, true)
        else if subject == SUBJECT_WORKLOAD then Coverage(w.workloadId != "" && w.workloadId == workloadId, true)
        else Coverage(true, true)
  }

  // ---- the specification of evaluation ------------------------------------

  /** What evaluation looks at in a rule that matches the target. */
  datatype Head = Head(id: string, subject: string, workloadId: string, effect: string)

  function HeadOf(r: Rule): Head { Head(r.id, r.subject, r.workloadId, r.effect) }

  function ResourceHeadOf(r: ResourceRule): Head { Head(r.id, r.subject, r.workloadId, r.effect) }

  function HostHeads(rules: seq<Rule>, dest: Destination): seq<Head> {
    if rules == [] then []
    else
      var n := |rules| - 1;
      HostHeads(rules[..n], dest) + if MatchesDestination(rules[n], dest) then [HeadOf(rules[n])] else []
  }

  function ResourceHeads(rules: seq<ResourceRule>, resource: string): seq<Head> {
    if rules == [] then []
    else
      var n := |rules| - 1;
      ResourceHeads(rules[..n], resource)
      + if MatchesResource(rules[n], resource) then [ResourceHeadOf(rules[n])] else []
  }

  predicate Applies(h: Head, a: Option<Attribution>) {
    AppliesTo(h.subject, h.workloadId, a).applies
  }

  predicate Undecided(h: Head, a: Option<Attribution>) {
    !AppliesTo(h.subject, h.workloadId, a).decidable
  }

  /** The id of the first applicable head that denies (or, with `deny` false, that does not). */
  function First(hs: seq<Head>, a: Option<Attribution>, deny: bool): Option<string> {
    if hs == [] then None
    else
      var n := |hs| - 1;
      match First(hs[..n], a, deny)
      case Some(id) => Some(id)
      case None => if Applies(hs[n], a) && (hs[n].effect == EFFECT_DENY) == deny then Some(hs[n].id) else None
  }

  /** Subjects of undecided heads, in order of first appearance. */
  function Needs(hs: seq<Head>, a: Option<Attribution>): seq<string> {
    if hs == [] then []
    else
      var n := |hs| - 1;
      var needs := Needs(hs[..n], a);
      if Undecided(hs[n], a) && hs[n].subject !in needs then needs + [hs[n].subject] else needs
  }

  function Decide(hs: seq<Head>, a: Option<Attribution>): Outcome {
    match First(hs, a, true)
    case Some(id) => Outcome(Deny, id, [])
    case None =>
      match First(hs, a, false)
      case Some(id) => Outcome(Allow, id, Needs(hs, a))
      case None => Outcome(Govern, "", Needs(hs, a))
  }

  // ---- the loops ----------------------------------------------------------

  /** A deny found early is the outcome whatever follows. */
  lemma {:induction false} FirstIsStable(hs: seq<Head>, n: nat, a: Option<Attribution>, deny: bool)
    requires n <= |hs|
    requires First(hs[..n], a, deny).Some?
    ensures First(hs, a, deny) == First(hs[..n], a, deny)
    decreases |hs|
  {
    if n < |hs| {
      assert hs[..|hs| - 1][..n] == hs[..n];
      FirstIsStable(hs[..|hs| - 1], n, a, deny);
    } else {
      assert hs[..n] == hs;
    }
  }

  lemma {:induction false} HostHeadsPrefix(rules: seq<Rule>, n: nat, dest: Destination)
    requires n <= |rules|
    ensures HostHeads(rules[..n], dest) <= HostHeads(rules, dest)
    decreases |rules|
  {
    if n < |rules| {
      assert rules[..|rules| - 1][..n] == rules[..n];
      HostHeadsPrefix(rules[..|rules| - 1], n, dest);
    } else {
      assert rules[..n] == rules;
    }
  }

  lemma {:induction false} ResourceHeadsPrefix(rules: seq<ResourceRule>, n: nat, resource: string)
    requires n <= |rules|
    ensures ResourceHeads(rules[..n], resource) <= ResourceHeads(rules, resource)
    decreases |rules|
  {
    if n < |rules| {
      assert rules[..|rules| - 1][..n] == rules[..n];
      ResourceHeadsPrefix(rules[..|rules| - 1], n, resource);
    } else {
      assert rules[..n] == rules;
    }
  }

  /** One more matching head: what the loop variables become. */
  lemma StepHead(hs: seq<Head>, h: Head, a: Option<Attribution>)
    ensures First(hs + [h], a, true)
            == match First(hs, a, true)
               case Some(id) => Some(id)
               case None => if Applies(h, a) && h.effect == EFFECT_DENY then Some(h.id) else None
    ensures First(hs + [h], a, false)
            == match First(hs, a, false)
               case Some(id) => Some(id)
               case None => if Applies(h, a) && h.effect != EFFECT_DENY then Some(h.id) else None
    ensures Needs(hs + [h], a)
            == if Undecided(h, a) && h.subject !in Needs(hs, a) then Needs(hs, a) + [h.subject] else Needs(hs, a)
  {
    assert (hs + [h])[..|hs|] == hs;
  }

  /** The deny short-circuit: nothing later can restore access. */
  lemma DenySettles(all: seq<Head>, hs: seq<Head>, h: Head, a: Option<Attribution>)
    requires hs + [h] <= all
    requires First(hs, a, true).None? && Applies(h, a) && h.effect == EFFECT_DENY
    ensures Decide(all, a) == Outcome(Deny, h.id, [])
  {
    StepHead(hs, h, a);
    assert all[..|hs| + 1] == hs + [h];
    FirstIsStable(all, |hs| + 1, a, true);
  }

  lemma HostHeadsStep(rules: seq<Rule>, i: nat, dest: Destination)
    requires i < |rules|
    ensures HostHeads(rules[..i + 1], dest)
            == HostHeads(rules[..i], dest) + if MatchesDestination(rules[i], dest) then [HeadOf(rules[i])] else []
  {
    assert rules[..i + 1][..i] == rules[..i];
  }

  lemma ResourceHeadsStep(rules: seq<ResourceRule>, i: nat, resource: string)
    requires i < |rules|
    ensures ResourceHeads(rules[..i + 1], resource)
            == ResourceHeads(rules[..i], resource)
               + if MatchesResource(rules[i], resource) then [ResourceHeadOf(rules[i])] else []
  {
    assert rules[..i + 1][..i] == rules[..i];
  }

  lemma HostDenySettles(rules: seq<Rule>, i: nat, dest: Destination, a: Option<Attribution>)
    requires i < |rules| && MatchesDestination(rules[i], dest)
    requires First(HostHeads(rules[..i], dest), a, true).None?
    requires Applies(HeadOf(rules[i]), a) && rules[i].effect == EFFECT_DENY
    ensures Decide(HostHeads(rules, dest), a) == Outcome(Deny, rules[i].id, [])
  {
    HostHeadsStep(rules, i, dest);
    HostHeadsPrefix(rules, i + 1, dest);
    DenySettles(HostHeads(rules, dest), HostHeads(rules[..i], dest), HeadOf(rules[i]), a);
  }

  lemma ResourceDenySettles(rules: seq<ResourceRule>, i: nat, resource: string, a: Option<Attribution>)
    requires i < |rules| && MatchesResource(rules[i], resource)
    requires First(ResourceHeads(rules[..i], resource), a, true).None?
    requires Applies(ResourceHeadOf(rules[i]), a) && rules[i].effect == EFFECT_DENY
    ensures Decide(ResourceHeads(rules, resource), a) == Outcome(Deny, rules[i].id, [])
  {
    ResourceHeadsStep(rules, i, resource);
    ResourceHeadsPrefix(rules, i + 1, resource);
    DenySettles(ResourceHeads(rules, resource), ResourceHeads(rules[..i], resource), ResourceHeadOf(rules[i]), a);
  }

  /** The loop variables after the heads `hs`, none of which denied. */
  ghost predicate Scanned(hs: seq<Head>, a: Option<Attribution>, allowed: bool, allowRuleId: string,
                          needs: seq<string>, seenNeed: set<string>) {
    && First(hs, a, true) == None
    && First(hs, a, false) == (if allowed then Some(allowRuleId) else None)
    && needs == Needs(hs, a)
    && forall x :: x in seenNeed <==> x in needs
  }

  lemma ScanUndecided(hs: seq<Head>, h: Head, a: Option<Attribution>, allowed: bool, id: string, needs: seq<string>,
                      seenNeed: set<string>)
    requires Scanned(hs, a, allowed, id, needs, seenNeed) && Undecided(h, a)
    ensures h.subject in seenNeed ==> Scanned(hs + [h], a, allowed, id, needs, seenNeed)
    ensures h.subject !in seenNeed ==> Scanned(hs + [h], a, allowed, id, needs + [h.subject], seenNeed + {h.subject})
  {
    StepHead(hs, h, a);
  }

  lemma ScanDecided(hs: seq<Head>, h: Head, a: Option<Attribution>, allowed: bool, id: string, needs: seq<string>,
                    seenNeed: set<string>)
    requires Scanned(hs, a, allowed, id, needs, seenNeed) && !Undecided(h, a)
    ensures !Applies(h, a) ==> Scanned(hs + [h], a, allowed, id, needs, seenNeed)
    ensures Applies(h, a) && h.effect != EFFECT_DENY ==>
              Scanned(hs + [h], a, true, if allowed then id else h.id, needs, seenNeed)
  {
    StepHead(hs, h, a);
  }

  method Evaluate(s: RuleSet, dest: Destination, a: Option<Attribution>) returns (o: Outcome)
    ensures o == Decide(HostHeads(s.rules, dest), a)
  {
    var allowed, allowRuleId := false, "";
    var needs: seq<string> := [];
    var seenNeed: set<string> := {};
    ghost var hs: seq<Head> := [];
    for i := 0 to |s.rules|
      invariant hs == HostHeads(s.rules[..i], dest)
      invariant Scanned(hs, a, allowed, allowRuleId, needs, seenNeed)
    {
      var r := s.rules[i];
      HostHeadsStep(s.rules, i, dest);
      if !MatchesDestination(r, dest) {
        continue;
      }
      ghost var seen := hs;
      hs := hs + [HeadOf(r)];
      var c := AppliesTo(r.subject, r.workloadId, a);
      if !c.decidable {
        ScanUndecided(seen, HeadOf(r), a, allowed, allowRuleId, needs, seenNeed);
        if r.subject !in seenNeed {
          seenNeed := seenNeed + {r.subject};
          needs := needs + [r.subject];
        }
        continue;
      }
      ScanDecided(seen, HeadOf(r), a, allowed, allowRuleId, needs, seenNeed);
      if !c.applies {
        continue;
      }
      if r.effect == EFFECT_DENY {
        HostDenySettles(s.rules, i, dest, a);
        return Outcome(Deny, r.id, []);
      }
      if !allowed {
        allowed, allowRuleId := true, r.id;
      }
    }
    assert s.rules[..|s.rules|] == s.rules;
    return if allowed then Outcome(Allow, allowRuleId, needs) else Outcome(Govern, "", needs);
  }

  method EvaluateResource(s: RuleSet, resource: string, a: Option<Attribution>) returns (o: Outcome)
    ensures o == Decide(ResourceHeads(s.resourceRules, resource), a)
  {
    var allowed, allowRuleId := false, "";
    var needs: seq<string> := [];
    var seenNeed: set<string> := {};
    ghost var hs: seq<Head> := [];
    for i := 0 to |s.resourceRules|
      invariant hs == ResourceHeads(s.resourceRules[..i], resource)
      invariant Scanned(hs, a, allowed, allowRuleId, needs, seenNeed)
    {
      var r := s.resourceRules[i];
      ResourceHeadsStep(s.resourceRules, i, resource);
      if !MatchesResource(r, resource) {
        continue;
      }
      ghost var seen := hs;
      hs := hs + [ResourceHeadOf(r)];
      var c := AppliesTo(r.subject, r.workloadId, a);
      if !c.decidable {
        ScanUndecided(seen, ResourceHeadOf(r), a, allowed, allowRuleId, needs, seenNeed);
        if r.subject !in seenNeed {
          seenNeed := seenNeed + {r.subject};
          needs := needs + [r.subject];
        }
        continue;
      }
      ScanDecided(seen, ResourceHeadOf(r), a, allowed, allowRuleId, needs, seenNeed);
      if !c.applies {
        continue;
      }
      if r.effect == EFFECT_DENY {
        ResourceDenySettles(s.resourceRules, i, resource, a);
        return Outcome(Deny, r.id, []);
      }
      if !allowed {
        allowed, allowRuleId := true, r.id;
      }
    }
    assert s.resourceRules[..|s.resourceRules|] == s.resourceRules;
    return if allowed then Outcome(Allow, allowRuleId, needs) else Outcome(Govern, "", needs);
  }

  // ---- load-time checks ---------------------------------------------------

  datatype PatternFault = Blank | Padded | NotUri | BadWildcard | WholeScheme

  function CheckResourcePattern(pattern: string): Option<PatternFault> {
    var p := Trim(pattern);
    if p == "" then Some(Blank)
    else if p != pattern then Some(Padded)
    else if !Contains(p, "://") then Some(NotUri)
    else
      var star := IndexByte(p, '*');
      if star < 0 then None
      else if !HasSuffix(p, "/*") || CountChar(p, '*') != 1 then Some(BadWildcard)
      else if star == |p| - 1 && HasSuffix(p, "://*") then Some(WholeScheme)
      else None
  }

  datatype Fault =
    | UnknownEffect | MissingWorkload | UnknownSubject | NoPatterns | EmptyHost | BadPattern(fault: PatternFault)

  function CheckEffectAndSubject(effect: string, subject: string, workloadId: string): Option<Fault> {
    if effect != EFFECT_ALLOW && effect != EFFECT_DENY then Some(UnknownEffect)
    else if subject == SUBJECT_ANY || subject == SUBJECT_AGENT then None
    else if subject == SUBJECT_WORKLOAD then if workloadId == "" then Some(MissingWorkload) else None
    else Some(UnknownSubject)
  }

  function CheckRule(r: Rule): Option<Fault> {
    match CheckEffectAndSubject(r.effect, r.subject, r.workloadId)
    case Some(f) => Some(f)
    case None =>
      if r.hosts == [] then Some(NoPatterns)
      else if exists i :: 0 <= i < |r.hosts| && (Trim(r.hosts[i]) == "" || r.hosts[i] == ".") then Some(EmptyHost)
      else None
  }

  function FirstBadPattern(resources: seq<string>): Option<Fault> {
    if resources == [] then None
    else match CheckResourcePattern(resources[0])
         case Some(f) => Some(BadPattern(f))
         case None => FirstBadPattern(resources[1..])
  }

  function CheckResourceRule(r: ResourceRule): Option<Fault> {
    match CheckEffectAndSubject(r.effect, r.subject, r.workloadId)
    case Some(f) => Some(f)
    case None => if r.resources == [] then Some(NoPatterns) else FirstBadPattern(r.resources)
  }

  /** The first offending rule: which list, where, and why. */
  datatype LoadError = LoadError(inResourceRules: bool, index: nat, fault: Fault)

  function CheckRulesFrom(rules: seq<Rule>, i: nat): Option<LoadError>
    requires i <= |rules|
    decreases |rules| - i
  {
    if i == |rules| then None
    else match CheckRule(rules[i])
         case Some(f) => Some(LoadError(false, i, f))
         case None => CheckRulesFrom(rules, i + 1)
  }

  function CheckResourceRulesFrom(rules: seq<ResourceRule>, i: nat): Option<LoadError>
    requires i <= |rules|
    decreases |rules| - i
  {
    if i == |rules| then None
    else match CheckResourceRule(rules[i])
         case Some(f) => Some(LoadError(true, i, f))
         case None => CheckResourceRulesFrom(rules, i + 1)
  }

  function Check(s: RuleSet): Option<LoadError> {
    match CheckRulesFrom(s.rules, 0)
    case Some(e) => Some(e)
    case None => CheckResourceRulesFrom(s.resourceRules, 0)
  }

  /** `Validate`: whether the set is enforceable where attribution may be unavailable. */
  predicate Validate(s: RuleSet, attributionAvailable: bool) {
    attributionAvailable
    || ((forall i :: 0 <= i < |s.rules| ==> !NeedsAttribution(s.rules[i].subject))
        && (forall i :: 0 <= i < |s.resourceRules| ==> !NeedsAttribution(s.resourceRules[i].subject)))
  }

  lemma {:induction false} CheckRulesMeans(rules: seq<Rule>, i: nat)
    requires i <= |rules|
    ensures CheckRulesFrom(rules, i).None? <==> forall k :: i <= k < |rules| ==> CheckRule(rules[k]).None?
    ensures match CheckRulesFrom(rules, i)
            case None => true
            case Some(e) => && !e.inResourceRules && i <= e.index < |rules|
                               && CheckRule(rules[e.index]) == Some(e.fault)
                            && forall k :: i <= k < e.index ==> CheckRule(rules[k]).None?
    decreases |rules| - i
  {
    if i < |rules| {
      CheckRulesMeans(rules, i + 1);
    }
  }

  lemma {:induction false} CheckResourceRulesMeans(rules: seq<ResourceRule>, i: nat)
    requires i <= |rules|
    ensures CheckResourceRulesFrom(rules, i).None?
            <==> forall k :: i <= k < |rules| ==> CheckResourceRule(rules[k]).None?
    ensures match CheckResourceRulesFrom(rules, i)
            case None => true
            case Some(e) => && e.inResourceRules && i <= e.index < |rules|
                               && CheckResourceRule(rules[e.index]) == Some(e.fault)
                            && forall k :: i <= k < e.index ==> CheckResourceRule(rules[k]).None?
    decreases |rules| - i
  {
    if i < |rules| {
      CheckResourceRulesMeans(rules, i + 1);
    }
  }

  lemma {:induction false} FirstBadPatternMeans(resources: seq<string>)
    ensures FirstBadPattern(resources).None?
            <==> forall k :: 0 <= k < |resources| ==> CheckResourcePattern(resources[k]).None?
  {
    if resources != [] {
      FirstBadPatternMeans(resources[1..]);
      assert resources == [resources[0]] + resources[1..];
    }
  }
}
