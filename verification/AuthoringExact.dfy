/** How much stricter authoring is than loading, exactly, over well-typed sets. */
module AuthoringExact {
  import opened Prelude
  import opened Text
  import opened Json
  import opened RuleAuthoring
  import opened SignsImpliesLoads
  import Rules

  function Common(id: string, subject: string, workloadId: string, effect: string): map<string, Value> {
    map["id" := Str(id), "subject" := Str(subject), "workloadId" := Str(workloadId), "effect" := Str(effect)]
  }

  function FromInts(ns: seq<int>): seq<Value> {
    seq(|ns|, i requires 0 <= i < |ns| => Num(ns[i] as real))
  }

  function Untyped(r: Rules.Rule): Value {
    Obj(Common(r.id, r.subject, r.workloadId, r.effect)
        + map["hosts" := Arr(FromStrings(r.hosts)),
              "ports" := Arr(FromInts(r.ports))])
  }

  function UntypedResource(r: Rules.ResourceRule): Value {
    Obj(Common(r.id, r.subject, r.workloadId, r.effect) + map["resources" := Arr(FromStrings(r.resources))])
  }

  function UntypedSet(s: Rules.RuleSet): AuthoredSet {
    AuthoredSet(s.version, seq(|s.rules|, i requires 0 <= i < |s.rules| => Untyped(s.rules[i])),
                seq(|s.resourceRules|, i requires 0 <= i < |s.resourceRules| => UntypedResource(s.resourceRules[i])),
                s.issuedAt)
  }

  // ---- what authoring asks beyond the Go check -----------------------------

  predicate WorkloadNamedIffUsed(subject: string, workloadId: string) {
    if subject == "workload" then Trim(workloadId) != "" else workloadId == ""
  }

  predicate BareHost(h: string) {
    Trim(h) != "." && '*' !in Trim(h) && '/' !in Trim(h) && ':' !in Trim(h)
  }

  predicate Careful(r: Rules.Rule) {
    && Trim(r.id) != ""
    && WorkloadNamedIffUsed(r.subject, r.workloadId)
    && (forall i :: 0 <= i < |r.hosts| ==> BareHost(r.hosts[i]))
    && (forall i :: 0 <= i < |r.ports| ==> 1 <= r.ports[i] <= 65535)
  }

  predicate CarefulResource(r: Rules.ResourceRule) {
    Trim(r.id) != "" && WorkloadNamedIffUsed(r.subject, r.workloadId)
  }

  function HostIds(s: Rules.RuleSet): seq<string> {
    seq(|s.rules|, i requires 0 <= i < |s.rules| => s.rules[i].id)
  }

  function ResourceIds(s: Rules.RuleSet): seq<string> {
    seq(|s.resourceRules|, i requires 0 <= i < |s.resourceRules| => s.resourceRules[i].id)
  }

  predicate Authorable(s: Rules.RuleSet) {
    && s.version == PROXY_RULESET_VERSION
    && (forall i :: 0 <= i < |s.rules| ==> Careful(s.rules[i]))
    && (forall i :: 0 <= i < |s.resourceRules| ==> CarefulResource(s.resourceRules[i]))
    && Distinct(HostIds(s) + ResourceIds(s))
  }

  // ---- rule by rule ---------------------------------------------------------

  lemma UntypedFields(r: Rules.Rule)
    ensures var v := Untyped(r);
            && Field(v, "id") == Some(Str(r.id)) && Field(v, "subject") == Some(Str(r.subject))
            && Field(v, "workloadId") == Some(Str(r.workloadId)) && Field(v, "effect") == Some(Str(r.effect))
            && Field(v, "hosts") == Some(Arr(FromStrings(r.hosts)))
            && Field(v, "ports") == Some(Arr(FromInts(r.ports)))
  {
  }

  lemma UntypedResourceFields(r: Rules.ResourceRule)
    ensures var v := UntypedResource(r);
            && Field(v, "id") == Some(Str(r.id)) && Field(v, "subject") == Some(Str(r.subject))
            && Field(v, "workloadId") == Some(Str(r.workloadId)) && Field(v, "effect") == Some(Str(r.effect))
            && Field(v, "resources") == Some(Arr(FromStrings(r.resources)))
  {
  }

  lemma CommonExact(v: Value, id: string, subject: string, workloadId: string, effect: string, seen: set<string>)
    requires Field(v, "id") == Some(Str(id)) && Field(v, "subject") == Some(Str(subject))
    requires Field(v, "workloadId") == Some(Str(workloadId)) && Field(v, "effect") == Some(Str(effect))
    ensures CommonThrows(v, seen).None?
            <==> && Trim(id) != "" && id !in seen
                 && Rules.CheckEffectAndSubject(effect, subject, workloadId).None?
                 && WorkloadNamedIffUsed(subject, workloadId)
  {
    assert Trim("") == "";
  }

  lemma HostExact(h: string)
    ensures HostThrows(Str(h)).None? <==> Trim(h) != "" && h != "." && BareHost(h)
  {
    assert Trim(".") == ".";
  }

  lemma HostsExact(r: Rules.Rule)
    ensures FirstThrown(FromStrings(r.hosts)).None?
            <==> && (forall i :: 0 <= i < |r.hosts| ==> BareHost(r.hosts[i]))
                 && !(exists i :: 0 <= i < |r.hosts| && (Trim(r.hosts[i]) == "" || r.hosts[i] == "."))
  {
    var items := FromStrings(r.hosts);
    FirstThrownMeans(items);
    forall i | 0 <= i < |items|
      ensures HostThrows(items[i]).None? <==> Trim(r.hosts[i]) != "" && r.hosts[i] != "." && BareHost(r.hosts[i])
    {
      HostExact(r.hosts[i]);
    }
  }

  lemma PortsExact(ports: seq<int>)
    ensures var items := FromInts(ports);
            (forall i :: 0 <= i < |items| ==> GoodPort(items[i]))
              <==> (forall i :: 0 <= i < |ports| ==> 1 <= ports[i] <= 65535)
  {
    var items := FromInts(ports);
    forall i | 0 <= i < |items| ensures GoodPort(items[i]) <==> 1 <= ports[i] <= 65535 {
      assert items[i] == Num(ports[i] as real);
    }
  }

  lemma RuleExact(r: Rules.Rule, seen: set<string>)
    ensures RuleThrows(Untyped(r), seen).None? <==> r.id !in seen && Rules.CheckRule(r).None? && Careful(r)
  {
    var v := Untyped(r);
    UntypedFields(r);
    CommonExact(v, r.id, r.subject, r.workloadId, r.effect, seen);
    HostsExact(r);
    PortsExact(r.ports);
    assert PatternsOf(Field(v, "hosts")) == Some(FromStrings(r.hosts));
    assert OrElse(Field(v, "ports"), Arr([])) == Field(v, "ports").value;
    assert ZeroLength(Field(v, "hosts")) <==> r.hosts == [];
  }

  lemma ResourceExact(r: Rules.ResourceRule, seen: set<string>)
    ensures ResourceRuleThrows(UntypedResource(r), seen).None?
            <==> r.id !in seen && Rules.CheckResourceRule(r).None? && CarefulResource(r)
  {
    UntypedResourceFields(r);
    CommonExact(UntypedResource(r), r.id, r.subject, r.workloadId, r.effect, seen);
    var items := FromStrings(r.resources);
    FirstBadResourceMeans(items);
    Rules.FirstBadPatternMeans(r.resources);
    forall i | 0 <= i < |items| ensures PatternThrows(items[i].s) == Rules.CheckResourcePattern(r.resources[i]) {
      PatternValidatorsAgree(r.resources[i]);
    }
  }

  // ---- the whole set --------------------------------------------------------

  lemma {:induction false} IdsAre(rules: seq<Value>, ids: seq<string>)
    requires |rules| == |ids| && forall i :: 0 <= i < |rules| ==> IdText(rules[i]) == ids[i]
    ensures forall x :: x in Ids(rules) <==> x in ids
  {
    if rules != [] {
      var n := |rules| - 1;
      IdsAre(rules[..n], ids[..n]);
      assert ids == ids[..n] + [ids[n]];
      assert Ids(rules) == Ids(rules[..n]) + {IdText(rules[n])};
    }
  }

  lemma DistinctMeans(ids: seq<string>)
    ensures Distinct(ids) <==> forall i :: 0 <= i < |ids| ==> ids[i] !in ids[..i]
  {
    if forall i :: 0 <= i < |ids| ==> ids[i] !in ids[..i] {
      forall i, j | 0 <= i < j < |ids| ensures ids[i] != ids[j] {
        assert ids[..j][i] == ids[i];
      }
    }
  }

  lemma HostRulesExact(s: Rules.RuleSet)
    ensures var u, ids := UntypedSet(s), HostIds(s);
            (forall i :: 0 <= i < |s.rules| ==> RuleThrows(u.rules[i], Ids(u.rules[..i])).None?)
            <==> && (forall i :: 0 <= i < |s.rules| ==> Rules.CheckRule(s.rules[i]).None? && Careful(s.rules[i]))
                 && forall i :: 0 <= i < |ids| ==> ids[i] !in ids[..i]
  {
    var u, ids := UntypedSet(s), HostIds(s);
    forall i | 0 <= i < |s.rules| ensures IdText(u.rules[i]) == ids[i] { UntypedFields(s.rules[i]); }
    forall i | 0 <= i < |s.rules|
      ensures RuleThrows(u.rules[i], Ids(u.rules[..i])).None?
              <==> Rules.CheckRule(s.rules[i]).None? && Careful(s.rules[i]) && ids[i] !in ids[..i]
    {
      IdsAre(u.rules[..i], ids[..i]);
      RuleExact(s.rules[i], Ids(u.rules[..i]));
    }
  }

  lemma ResourceRulesExact(s: Rules.RuleSet)
    ensures var u, before, ids := UntypedSet(s), HostIds(s), ResourceIds(s);
            (forall i :: 0 <= i < |s.resourceRules| ==>
             ResourceRuleThrows(u.resourceRules[i], Ids(u.rules) + Ids(u.resourceRules[..i])).None?)
            <==> && (forall i :: 0 <= i < |s.resourceRules| ==>
                       Rules.CheckResourceRule(s.resourceRules[i]).None? && CarefulResource(s.resourceRules[i]))
                 && forall i :: 0 <= i < |ids| ==> ids[i] !in before && ids[i] !in ids[..i]
  {
    var u, before, ids := UntypedSet(s), HostIds(s), ResourceIds(s);
    forall i | 0 <= i < |s.rules| ensures IdText(u.rules[i]) == before[i] { UntypedFields(s.rules[i]); }
    IdsAre(u.rules, before);
    forall i | 0 <= i < |s.resourceRules| ensures IdText(u.resourceRules[i]) == ids[i] {
      UntypedResourceFields(s.resourceRules[i]);
    }
    forall i | 0 <= i < |s.resourceRules|
      ensures ResourceRuleThrows(u.resourceRules[i], Ids(u.rules) + Ids(u.resourceRules[..i])).None?
              <==> Rules.CheckResourceRule(s.resourceRules[i]).None? && CarefulResource(s.resourceRules[i])
                   && ids[i] !in before && ids[i] !in ids[..i]
    {
      IdsAre(u.resourceRules[..i], ids[..i]);
      ResourceExact(s.resourceRules[i], Ids(u.rules) + Ids(u.resourceRules[..i]));
    }
  }

  lemma DistinctConcat(a: seq<string>, b: seq<string>)
    ensures Distinct(a + b)
            <==> && (forall i :: 0 <= i < |a| ==> a[i] !in a[..i])
                 && (forall i :: 0 <= i < |b| ==> b[i] !in a && b[i] !in b[..i])
  {
    var ids := a + b;
    DistinctMeans(ids);
    forall i | 0 <= i < |a| ensures ids[i] == a[i] && ids[..i] == a[..i] {}
    forall i | 0 <= i < |b| ensures ids[|a| + i] == b[i] && ids[..|a| + i] == a + b[..i] {}
    if (forall i :: 0 <= i < |a| ==> a[i] !in a[..i]) && (forall i :: 0 <= i < |b| ==> b[i] !in a && b[i] !in b[..i]) {
      forall i | 0 <= i < |ids| ensures ids[i] !in ids[..i] {
        if i >= |a| { assert ids[..|a| + (i - |a|)] == a + b[..i - |a|]; }
      }
    }
    if forall i :: 0 <= i < |ids| ==> ids[i] !in ids[..i] {
      forall i | 0 <= i < |b| ensures b[i] !in a && b[i] !in b[..i] {
        assert ids[|a| + i] !in ids[..|a| + i];
      }
      forall i | 0 <= i < |a| ensures a[i] !in a[..i] {
        assert ids[i] !in ids[..i];
      }
    }
  }

  lemma CheckMeans(s: Rules.RuleSet)
    ensures Rules.Check(s).None?
            <==> && (forall i :: 0 <= i < |s.rules| ==> Rules.CheckRule(s.rules[i]).None?)
                 && (forall i :: 0 <= i < |s.resourceRules| ==> Rules.CheckResourceRule(s.resourceRules[i]).None?)
  {
    Rules.CheckRulesMeans(s.rules, 0);
    Rules.CheckResourceRulesMeans(s.resourceRules, 0);
  }

  /**
   * Authoring accepts a well-typed set exactly when it loads and is authorable; nothing else
   * separates the two validators.
   */
  lemma AuthoringIsExactlyStricter(s: Rules.RuleSet)
    ensures Accepted(UntypedSet(s)) <==> Rules.Check(s).None? && Authorable(s)
  {
    CheckMeans(s);
    HostRulesExact(s);
    ResourceRulesExact(s);
    DistinctConcat(HostIds(s), ResourceIds(s));
  }

  // ---- typed sets, end to end -------------------------------------------------------

  lemma TypedBack(r: Rules.Rule)
    ensures TypedRule(Untyped(r)) == r
  {
    UntypedFields(r);
    var texts, ports := TextsOf(Some(Arr(FromStrings(r.hosts)))), PortsOf(Some(Arr(FromInts(r.ports))));
    assert texts == r.hosts;
    assert ports == r.ports;
  }

  lemma TypedResourceBack(r: Rules.ResourceRule)
    ensures TypedResourceRule(UntypedResource(r)) == r
  {
    UntypedResourceFields(r);
    assert TextsOf(Some(Arr(FromStrings(r.resources)))) == r.resources;
  }

  lemma UntypedHosts(r: Rules.Rule)
    ensures Field(Untyped(r), "hosts").Some? && Field(Untyped(r), "hosts").value.Arr?
  {
    UntypedFields(r);
  }

  lemma TypedSetBack(s: Rules.RuleSet)
    ensures TypedSet(UntypedSet(s)) == s && HostsAreLists(UntypedSet(s))
  {
    var u := UntypedSet(s);
    forall i | 0 <= i < |s.rules| ensures TypedRule(u.rules[i]) == s.rules[i] {
      TypedBack(s.rules[i]);
    }
    forall i | 0 <= i < |s.rules| ensures Field(u.rules[i], "hosts").Some? && Field(u.rules[i], "hosts").value.Arr? {
      UntypedHosts(s.rules[i]);
    }
    forall i | 0 <= i < |s.resourceRules| ensures TypedResourceRule(u.resourceRules[i]) == s.resourceRules[i] {
      TypedResourceBack(s.resourceRules[i]);
    }
    assert TypedSet(u).rules == s.rules && TypedSet(u).resourceRules == s.resourceRules;
  }

  /** A well-typed set that loads and is authorable comes back from signing and loading as itself. */
  lemma SignedTypedSetReturns(s: Rules.RuleSet)
    requires Rules.Check(s).None? && Authorable(s)
    ensures Load(Payload(UntypedSet(s))) == Some(s)
  {
    var u := UntypedSet(s);
    AuthoringIsExactlyStricter(s);
    TypedSetBack(s);
    SignedSetsLoad(u);
  }

  /** The console's report, rule by rule: a scoped rule contributes its id, another nothing; host rules come first. */
  lemma ScopedReportByRule(s: Rules.RuleSet)
    ensures SubjectScopedRuleIds(UntypedSet(s))
            == ScopedIds(UntypedSet(s).rules) + ScopedIds(UntypedSet(s).resourceRules)
    ensures forall r: Rules.Rule ::
              ScopedIds([Untyped(r)]) == if r.subject == "agent" || r.subject == "workload" then [Str(r.id)] else []
    ensures forall r: Rules.ResourceRule ::
              ScopedIds([UntypedResource(r)]) == if r.subject == "agent" || r.subject == "workload" then [Str(r.id)]
                else []
  {
    forall r: Rules.Rule
      ensures ScopedIds([Untyped(r)]) == if r.subject == "agent" || r.subject == "workload" then [Str(r.id)] else []
    {
      UntypedFields(r);
      assert [Untyped(r)][1..] == [];
    }
    forall r: Rules.ResourceRule
      ensures ScopedIds([UntypedResource(r)]) == if r.subject == "agent" || r.subject == "workload" then [Str(r.id)]
              else []
    {
      UntypedResourceFields(r);
      assert [UntypedResource(r)][1..] == [];
    }
  }
}
