/** What the control plane signs against what the Go verifier loads. */
module SignsImpliesLoads {
  import opened Prelude
  import opened Text
  import opened Json
  import opened RuleAuthoring
  import Rules
  import RuleProperties

  /** The two resource-pattern validators give the same answer, fault for fault, on every string. */
  lemma PatternValidatorsAgree(p: string)
    ensures PatternThrows(p) == Rules.CheckResourcePattern(p)
  {
    RuleProperties.IndexMeans(p, '*');
    if HasSuffix(p, "/*") && CountChar(p, '*') == 1 {
      RuleProperties.OneStarAtEnd(p);
    }
  }

  // ---- the typed reading of an authored rule ------------------------------

  function StrOf(v: Option<Value>): string {
    if v.Some? && v.value.Str? then v.value.s else ""
  }

  function TextsOf(v: Option<Value>): seq<string> {
    if v.Some? && v.value.Arr? then
      seq(|v.value.items|, i requires 0 <= i < |v.value.items| => StrOf(Some(v.value.items[i])))
    else []
  }

  function PortsOf(v: Option<Value>): seq<int> {
    if v.Some? && v.value.Arr? then
      seq(|v.value.items|, i requires 0 <= i < |v.value.items| =>
        if v.value.items[i].Num? then v.value.items[i].n.Floor else 0)
    else []
  }

  function TypedRule(rule: Value): Rules.Rule {
    Rules.Rule(StrOf(Field(rule, "id")), StrOf(Field(rule, "subject")), StrOf(Field(rule, "workloadId")),
               TextsOf(Field(rule, "hosts")), PortsOf(Field(rule, "ports")), StrOf(Field(rule, "effect")))
  }

  function TypedResourceRule(rule: Value): Rules.ResourceRule {
    Rules.ResourceRule(StrOf(Field(rule, "id")), StrOf(Field(rule, "subject")), StrOf(Field(rule, "workloadId")),
                       TextsOf(Field(rule, "resources")), StrOf(Field(rule, "effect")))
  }

  function TypedSet(s: AuthoredSet): Rules.RuleSet {
    Rules.RuleSet(s.version,
                  seq(|s.rules|, i requires 0 <= i < |s.rules| => TypedRule(s.rules[i])),
                  seq(|s.resourceRules|,
                      i requires 0 <= i < |s.resourceRules| => TypedResourceRule(s.resourceRules[i])),
                  s.issuedAt)
  }

  /** The declared type of `hosts`: a list, not a bare string. */
  predicate HostsAreLists(s: AuthoredSet) {
    forall i :: 0 <= i < |s.rules| ==> Field(s.rules[i], "hosts").Some? && Field(s.rules[i], "hosts").value.Arr?
  }

  // ---- elements -------------------------------------------------------------

  lemma {:induction false} FirstThrownMeans(hosts: seq<Value>)
    ensures FirstThrown(hosts).None? <==> forall i :: 0 <= i < |hosts| ==> HostThrows(hosts[i]).None?
  {
    if hosts != [] {
      FirstThrownMeans(hosts[1..]);
      assert hosts == [hosts[0]] + hosts[1..];
    }
  }

  lemma {:induction false} FirstBadResourceMeans(rs: seq<Value>)
    ensures FirstBadResource(rs).None? <==> forall i :: 0 <= i < |rs| ==> rs[i].Str? && PatternThrows(rs[i].s).None?
  {
    if rs != [] {
      FirstBadResourceMeans(rs[1..]);
      assert rs == [rs[0]] + rs[1..];
    }
  }

  lemma {:induction false} StringsDecode(items: seq<Value>)
    requires forall i :: 0 <= i < |items| ==> items[i].Str?
    ensures StringsOf(items) == Some(TextsOf(Some(Arr(items))))
  {
    if items != [] {
      StringsDecode(items[1..]);
      assert TextsOf(Some(Arr(items))) == [items[0].s] + TextsOf(Some(Arr(items[1..])));
    }
  }

  lemma {:induction false} IntsDecode(items: seq<Value>)
    requires forall i :: 0 <= i < |items| ==> IsInteger(items[i])
    ensures IntsOf(items) == Some(PortsOf(Some(Arr(items))))
  {
    if items != [] {
      IntsDecode(items[1..]);
      assert PortsOf(Some(Arr(items))) == [items[0].n.Floor] + PortsOf(Some(Arr(items[1..])));
    }
  }

  // ---- one rule ---------------------------------------------------------------

  /** What acceptance establishes about the fields both kinds share. */
  lemma CommonFacts(rule: Value, seen: set<string>)
    requires CommonThrows(rule, seen).None?
    ensures rule.Obj?
    ensures Field(rule, "id").Some? && Field(rule, "id").value.Str?
    ensures Field(rule, "subject").Some? && Field(rule, "subject").value.Str?
    ensures Field(rule, "effect").Some? && Field(rule, "effect").value.Str?
    ensures Truthy(Field(rule, "workloadId")) <==> StrOf(Field(rule, "subject")) == "workload"
    ensures Truthy(Field(rule, "workloadId")) ==> Field(rule, "workloadId").value.Str?
    ensures Rules.CheckEffectAndSubject(StrOf(Field(rule, "effect")), StrOf(Field(rule, "subject")),
                                        StrOf(Field(rule, "workloadId"))).None?
  {
    assert Trim("") == "";
  }

  lemma CommonFields(rule: Value)
    requires rule.Obj?
    ensures var m := EncodeCommon(rule);
            && "id" in m && m["id"] == OrNull(Field(rule, "id"))
            && "subject" in m && m["subject"] == OrNull(Field(rule, "subject"))
            && "effect" in m && m["effect"] == OrNull(Field(rule, "effect"))
            && ("workloadId" in m <==> Truthy(Field(rule, "workloadId")))
            && ("workloadId" in m ==> Some(m["workloadId"]) == Field(rule, "workloadId"))
  {
  }

  lemma EncodedFields(rule: Value)
    requires rule.Obj?
    ensures var e := EncodeRule(rule);
            && Field(e, "id") == Some(OrNull(Field(rule, "id")))
            && Field(e, "subject") == Some(OrNull(Field(rule, "subject")))
            && Field(e, "effect") == Some(OrNull(Field(rule, "effect")))
            && Field(e, "workloadId") == (if Truthy(Field(rule, "workloadId")) then Field(rule, "workloadId") else None)
            && Field(e, "hosts") == Some(OrNull(Field(rule, "hosts")))
            && Field(e, "ports") == if NonEmptyPorts(Field(rule, "ports")) then Field(rule, "ports") else None
  {
    CommonFields(rule);
  }

  lemma EncodedResourceFields(rule: Value)
    requires rule.Obj?
    ensures var e := EncodeResourceRule(rule);
            && Field(e, "id") == Some(OrNull(Field(rule, "id")))
            && Field(e, "subject") == Some(OrNull(Field(rule, "subject")))
            && Field(e, "effect") == Some(OrNull(Field(rule, "effect")))
            && Field(e, "workloadId") == (if Truthy(Field(rule, "workloadId")) then Field(rule, "workloadId") else None)
            && Field(e, "resources") == Some(OrNull(Field(rule, "resources")))
  {
  }

  lemma AcceptedHosts(rule: Value, seen: set<string>)
    requires RuleThrows(rule, seen).None?
    ensures Field(rule, "hosts").Some?
    ensures Field(rule, "hosts").value.Arr? || Field(rule, "hosts").value.Str?
    ensures Field(rule, "hosts").value.Arr? ==>
              var hs := Field(rule, "hosts").value.items;
              hs != [] && forall i :: 0 <= i < |hs| ==> hs[i].Str? && HostThrows(hs[i]).None?
  {
    FirstThrownMeans(PatternsOf(Field(rule, "hosts")).value);
  }

  lemma AcceptedPorts(rule: Value, seen: set<string>)
    requires RuleThrows(rule, seen).None?
    ensures DecodeInts(if NonEmptyPorts(Field(rule, "ports")) then Field(rule, "ports") else None)
            == Some(PortsOf(Field(rule, "ports")))
  {
    var ports := Field(rule, "ports");
    var items := Iterate(OrElse(ports, Arr([]))).value;
    assert forall i :: 0 <= i < |items| ==> GoodPort(items[i]);
    assert items != [] ==> items[0].Num?;
    if ports.Some? && ports.value.Arr? {
      IntsDecode(ports.value.items);
    }
  }

  lemma AcceptedResources(rule: Value, seen: set<string>)
    requires ResourceRuleThrows(rule, seen).None?
    ensures Field(rule, "resources").Some? && Field(rule, "resources").value.Arr?
    ensures var rs := Field(rule, "resources").value.items;
            rs != [] && forall i :: 0 <= i < |rs| ==> rs[i].Str? && PatternThrows(rs[i].s).None?
  {
    var v := Field(rule, "resources");
    var items := PatternsOf(v).value;
    FirstBadResourceMeans(items);
    if v.value.Str? {
      var c := [v.value.s[0]];
      assert items[0] == Str(c);
      assert !Contains(c, "://") by { assert c[1..] == ""; }
      assert false;
    }
  }

  lemma DecodeFromParts(e: Value, r: Rules.Rule)
    requires e.Obj?
    requires DecodeString(Field(e, "id")) == Some(r.id)
    requires DecodeString(Field(e, "subject")) == Some(r.subject)
    requires DecodeString(Field(e, "workloadId")) == Some(r.workloadId)
    requires DecodeStrings(Field(e, "hosts")) == Some(r.hosts)
    requires DecodeInts(Field(e, "ports")) == Some(r.ports)
    requires DecodeString(Field(e, "effect")) == Some(r.effect)
    ensures DecodeRule(e) == Some(r)
  {
  }

  lemma DecodeResourceFromParts(e: Value, r: Rules.ResourceRule)
    requires e.Obj?
    requires DecodeString(Field(e, "id")) == Some(r.id)
    requires DecodeString(Field(e, "subject")) == Some(r.subject)
    requires DecodeString(Field(e, "workloadId")) == Some(r.workloadId)
    requires DecodeStrings(Field(e, "resources")) == Some(r.resources)
    requires DecodeString(Field(e, "effect")) == Some(r.effect)
    ensures DecodeResourceRule(e) == Some(r)
  {
  }

  lemma EncodedStrings(rule: Value, seen: set<string>)
    requires CommonThrows(rule, seen).None?
    ensures forall e :: e in {EncodeRule(rule), EncodeResourceRule(rule)} ==>
              && e.Obj?
              && DecodeString(Field(e, "id")) == Some(StrOf(Field(rule, "id")))
              && DecodeString(Field(e, "subject")) == Some(StrOf(Field(rule, "subject")))
              && DecodeString(Field(e, "effect")) == Some(StrOf(Field(rule, "effect")))
              && DecodeString(Field(e, "workloadId")) == Some(StrOf(Field(rule, "workloadId")))
  {
    CommonFacts(rule, seen);
    EncodedFields(rule);
    EncodedResourceFields(rule);
  }

  lemma TypedHostsPass(rule: Value, seen: set<string>)
    requires RuleThrows(rule, seen).None?
    requires Field(rule, "hosts").Some? && Field(rule, "hosts").value.Arr?
    ensures Rules.CheckRule(TypedRule(rule)).None?
  {
    CommonFacts(rule, seen);
    AcceptedHosts(rule, seen);
    var items := Field(rule, "hosts").value.items;
    var hosts := TextsOf(Field(rule, "hosts"));
    forall i | 0 <= i < |hosts| ensures Trim(hosts[i]) != "" && hosts[i] != "." {
      assert HostThrows(items[i]).None?;
      assert Trim(".") == ".";
    }
    assert TypedRule(rule).hosts == hosts;
  }

  /** A signed rule decodes to what was authored, and passes the Go check — if `hosts` is a list. */
  lemma RuleLoads(rule: Value, seen: set<string>)
    requires RuleThrows(rule, seen).None?
    ensures Field(rule, "hosts").Some?
    ensures Field(rule, "hosts").value.Arr? ==>
              DecodeRule(EncodeRule(rule)) == Some(TypedRule(rule)) && Rules.CheckRule(TypedRule(rule)).None?
    ensures !Field(rule, "hosts").value.Arr? ==> DecodeRule(EncodeRule(rule)).None?
  {
    AcceptedHosts(rule, seen);
    var e := EncodeRule(rule);
    CommonFacts(rule, seen);
    EncodedFields(rule);
    var hosts := Field(rule, "hosts").value;
    if hosts.Arr? {
      EncodedStrings(rule, seen);
      StringsDecode(hosts.items);
      AcceptedPorts(rule, seen);
      DecodeFromParts(e, TypedRule(rule));
      TypedHostsPass(rule, seen);
    } else {
      assert DecodeStrings(Field(e, "hosts")).None?;
    }
  }

  lemma ResourceRuleLoads(rule: Value, seen: set<string>)
    requires ResourceRuleThrows(rule, seen).None?
    ensures DecodeResourceRule(EncodeResourceRule(rule)) == Some(TypedResourceRule(rule))
    ensures Rules.CheckResourceRule(TypedResourceRule(rule)).None?
  {
    AcceptedResources(rule, seen);
    CommonFacts(rule, seen);
    EncodedStrings(rule, seen);
    EncodedResourceFields(rule);
    var items := Field(rule, "resources").value.items;
    StringsDecode(items);
    var typed := TypedResourceRule(rule);
    DecodeResourceFromParts(EncodeResourceRule(rule), typed);
    forall i | 0 <= i < |typed.resources| ensures Rules.CheckResourcePattern(typed.resources[i]).None? {
      PatternValidatorsAgree(items[i].s);
    }
    Rules.FirstBadPatternMeans(typed.resources);
  }

  // ---- lists -------------------------------------------------------------------

  lemma {:induction false} EachDecodes<T>(items: seq<Value>, decode: Value -> Option<T>, out: seq<T>)
    requires |items| == |out|
    requires forall i :: 0 <= i < |items| ==> decode(items[i]) == Some(out[i])
    ensures DecodeEach(items, decode) == Some(out)
  {
    if items != [] {
      EachDecodes(items[1..], decode, out[1..]);
      assert out == [out[0]] + out[1..];
    }
  }

  lemma {:induction false} OneFailureFails<T>(items: seq<Value>, decode: Value -> Option<T>, i: nat)
    requires i < |items| && decode(items[i]).None?
    ensures DecodeEach(items, decode).None?
  {
    if i > 0 {
      OneFailureFails(items[1..], decode, i - 1);
    }
  }

  lemma ResourceListLoads(s: AuthoredSet)
    requires Accepted(s)
    ensures DecodeList(Field(Payload(s), "resourceRules"), DecodeResourceRule) == Some(TypedSet(s).resourceRules)
    ensures Rules.CheckResourceRulesFrom(TypedSet(s).resourceRules, 0).None?
  {
    var enc, out := EncodeAll(s.resourceRules, EncodeResourceRule), TypedSet(s).resourceRules;
    forall i | 0 <= i < |enc|
      ensures DecodeResourceRule(enc[i]) == Some(out[i]) && Rules.CheckResourceRule(out[i]).None?
    {
      ResourceRuleLoads(s.resourceRules[i], Ids(s.rules) + Ids(s.resourceRules[..i]));
    }
    EachDecodes(enc, DecodeResourceRule, out);
    Rules.CheckResourceRulesMeans(out, 0);
    if s.resourceRules == [] {
      assert Field(Payload(s), "resourceRules") == None;
    } else {
      assert Field(Payload(s), "resourceRules") == Some(Arr(enc));
    }
  }

  lemma HostListLoads(s: AuthoredSet)
    requires Accepted(s)
    ensures HostsAreLists(s) ==>
              && DecodeList(Field(Payload(s), "rules"), DecodeRule) == Some(TypedSet(s).rules)
              && Rules.CheckRulesFrom(TypedSet(s).rules, 0).None?
    ensures !HostsAreLists(s) ==> DecodeList(Field(Payload(s), "rules"), DecodeRule).None?
  {
    var enc, out := EncodeAll(s.rules, EncodeRule), TypedSet(s).rules;
    assert Field(Payload(s), "rules") == Some(Arr(enc));
    forall i | 0 <= i < |s.rules|
      ensures Field(s.rules[i], "hosts").Some?
      ensures Field(s.rules[i], "hosts").value.Arr? ==>
                DecodeRule(enc[i]) == Some(out[i]) && Rules.CheckRule(out[i]).None?
      ensures !Field(s.rules[i], "hosts").value.Arr? ==> DecodeRule(enc[i]).None?
    {
      RuleLoads(s.rules[i], Ids(s.rules[..i]));
    }
    if HostsAreLists(s) {
      EachDecodes(enc, DecodeRule, out);
      Rules.CheckRulesMeans(out, 0);
    } else {
      var i :| 0 <= i < |s.rules| && !Field(s.rules[i], "hosts").value.Arr?;
      OneFailureFails(enc, DecodeRule, i);
    }
  }

  lemma PayloadNumbers(s: AuthoredSet)
    ensures DecodeInt(Field(Payload(s), "version")) == Some(s.version)
    ensures DecodeInt(Field(Payload(s), "issuedAt")) == Some(s.issuedAt)
  {
    assert Field(Payload(s), "version") == Some(Num(s.version as real));
    assert Field(Payload(s), "issuedAt") == Some(Num(s.issuedAt as real));
  }

  lemma LoadFromParts(v: Value, t: Rules.RuleSet)
    requires v.Obj?
    requires DecodeInt(Field(v, "version")) == Some(t.version) && DecodeInt(Field(v, "issuedAt")) == Some(t.issuedAt)
    requires DecodeList(Field(v, "resourceRules"), DecodeResourceRule) == Some(t.resourceRules)
    ensures DecodeList(Field(v, "rules"), DecodeRule) == Some(t.rules) && Rules.Check(t).None? ==> Load(v) == Some(t)
    ensures DecodeList(Field(v, "rules"), DecodeRule).None? ==> Load(v).None?
  {
  }

  /**
   * A set the validator accepts loads on every host exactly when each rule's `hosts` really
   * is a list, and then the loaded set is the authored one, field for field.
   */
  lemma SignedSetsLoad(s: AuthoredSet)
    requires Accepted(s)
    ensures Load(Payload(s)).Some? <==> HostsAreLists(s)
    ensures HostsAreLists(s) ==> Load(Payload(s)) == Some(TypedSet(s))
  {
    HostListLoads(s);
    ResourceListLoads(s);
    PayloadNumbers(s);
    LoadFromParts(Payload(s), TypedSet(s));
  }

  const BARE_STRING_RULE :=
    Obj(map["id" := Str("r"), "subject" := Str("any"), "effect" := Str("deny"), "hosts" := Str("h")])

  lemma BareStringFields()
    ensures Field(BARE_STRING_RULE, "id") == Some(Str("r"))
    ensures Field(BARE_STRING_RULE, "subject") == Some(Str("any"))
    ensures Field(BARE_STRING_RULE, "effect") == Some(Str("deny"))
    ensures Field(BARE_STRING_RULE, "hosts") == Some(Str("h"))
    ensures Field(BARE_STRING_RULE, "ports") == None && Field(BARE_STRING_RULE, "workloadId") == None
  {
  }

  lemma BareStringPasses()
    ensures RuleThrows(BARE_STRING_RULE, {}).None?
  {
    BareStringFields();
    assert Trim("r") == "r" && Trim("h") == "h";
    var hosts := Iterate(Str("h")).value;
    assert hosts == [Str("h")] by { assert "h"[0] == 'h'; }
    assert hosts[1..] == [];
    assert HostThrows(Str("h")).None?;
    assert FirstThrown(hosts).None?;
  }

  /** The case the type system would have caught: a bare string of hosts is accepted, and does not load. */
  lemma BareStringHosts()
    ensures exists s :: Accepted(s) && Load(Payload(s)).None?
  {
    var s := AuthoredSet(PROXY_RULESET_VERSION, [BARE_STRING_RULE], [], 0);
    BareStringPasses();
    BareStringFields();
    assert s.rules[..0] == [];
    assert Accepted(s);
    SignedSetsLoad(s);
    assert !HostsAreLists(s);
  }

  // ---- subject-scoped sets ---------------------------------------------------

  lemma {:induction false} ScopedIdsMean(rules: seq<Value>)
    ensures ScopedIds(rules) == [] <==> forall i :: 0 <= i < |rules| ==> !Scoped(rules[i])
  {
    if rules != [] {
      ScopedIdsMean(rules[1..]);
      assert rules == [rules[0]] + rules[1..];
    }
  }

  lemma ScopedNeedsAttribution(rule: Value)
    ensures Scoped(rule) <==> Rules.NeedsAttribution(StrOf(Field(rule, "subject")))
  {
  }

  /** The console reports no subject-scoped rule exactly when a host without attribution can enforce the set. */
  lemma ScopedReportIsExact(s: AuthoredSet)
    ensures SubjectScopedRuleIds(s) == [] <==> Rules.Validate(TypedSet(s), false)
  {
    ScopedIdsMean(s.rules);
    ScopedIdsMean(s.resourceRules);
    var t := TypedSet(s);
    forall i | 0 <= i < |s.rules| ensures Scoped(s.rules[i]) <==> Rules.NeedsAttribution(t.rules[i].subject) {
      ScopedNeedsAttribution(s.rules[i]);
    }
    forall i | 0 <= i < |s.resourceRules|
      ensures Scoped(s.resourceRules[i]) <==> Rules.NeedsAttribution(t.resourceRules[i].subject)
    {
      ScopedNeedsAttribution(s.resourceRules[i]);
    }
  }

  /** The report lists the ids of the scoped rules, rule by rule, in order. */
  lemma {:induction false} ScopedIdsSplit(a: seq<Value>, b: seq<Value>)
    ensures ScopedIds(a + b) == ScopedIds(a) + ScopedIds(b)
  {
    if a == [] {
      assert a + b == b;
    } else {
      assert (a + b)[1..] == a[1..] + b;
      ScopedIdsSplit(a[1..], b);
    }
  }
}
