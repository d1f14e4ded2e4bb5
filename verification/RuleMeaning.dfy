/** Rule evaluation in the rule's own fields, and host matching in characters (sdk-go/rules/rules.go). */
module RuleMeaning {
  import opened Prelude
  import opened Text
  import opened Rules
  import opened RuleProperties

  // ---- host names -------------------------------------------------------------

  predicate HostChar(c: char) {
    'a' <= c <= 'z' || 'A' <= c <= 'Z' || '0' <= c <= '9' || c == '-' || c == '.'
  }

  /** A host name as it is written: its own characters only, and no dot at either end. */
  predicate Name(s: string) {
    s != "" && s[0] != '.' && s[|s| - 1] != '.' && forall i :: 0 <= i < |s| ==> HostChar(s[i])
  }

  predicate LowerName(s: string) {
    Name(s) && forall i :: 0 <= i < |s| ==> !('A' <= s[i] <= 'Z')
  }

  predicate SameLetter(c: char, d: char) {
    c == d || ('A' <= c <= 'Z' && d as int == c as int + 32) || ('A' <= d <= 'Z' && c as int == d as int + 32)
  }

  predicate SameButForCase(s: string, t: string) {
    |s| == |t| && forall i :: 0 <= i < |s| ==> SameLetter(s[i], t[i])
  }

  lemma NameIsNormal(s: string, a: string, b: string, dot: string)
    requires Name(s) && Blanks(a) && Blanks(b) && (dot == "" || dot == ".")
    ensures NormalHost(a + s + dot + b) == ToLower(s)
  {
    var m := s + dot;
    assert a + s + dot + b == a + m + b;
    NotBlank(m[0]);
    NotBlank(m[|m| - 1]);
    assert HostChar(s[0]) && HostChar(s[|s| - 1]);
    assert m[..1] == [m[0]] && m[|m| - 1..] == [m[|m| - 1]];
    TrimExactly(a, m, b);
    if dot == "" {
      assert m[|m| - 1..][0] == s[|s| - 1];
    } else {
      assert m[..|m| - 1] == s && m[|m| - 1..] == ".";
    }
  }

  lemma PlainNormal(s: string)
    requires Name(s)
    ensures NormalHost(s) == ToLower(s)
  {
    assert "" + s + "" + "" == s by { assert "" + s == s && s + "" == s; }
    NameIsNormal(s, "", "", "");
  }

  /** Blanks around a pattern and one trailing dot change nothing. */
  lemma PaddingIsIgnored(p: string, a: string, b: string, dot: string, h: string)
    requires Name(p) && Blanks(a) && Blanks(b) && (dot == "" || dot == ".")
    ensures MatchHost(a + p + dot + b, h) == MatchHost(p, h)
  {
    NameIsNormal(p, a, b, dot);
    PlainNormal(p);
  }

  lemma SameCharExactly(c: char, d: char)
    requires HostChar(c) && HostChar(d)
    ensures ToLowerChar(c) == ToLowerChar(d) <==> SameLetter(c, d)
  {
  }

  /** Two names match exactly when they are the same up to the case of their letters. */
  lemma NamesMatchExactly(p: string, h: string)
    requires Name(p) && Name(h)
    ensures MatchHost(p, h) <==> SameButForCase(p, h)
  {
    PlainNormal(p);
    PlainNormal(h);
    var q, n := ToLower(p), ToLower(h);
    assert HostChar(p[0]) && q[0] == ToLowerChar(p[0]) != '.';
    assert q != "" && n != "" && q != "." && !HasPrefix(q, ".");
    forall i | 0 <= i < |p| && i < |h| ensures q[i] == n[i] <==> SameLetter(p[i], h[i]) {
      SameCharExactly(p[i], h[i]);
    }
  }

  /** In lower case a pattern matches itself and no other name, however alike. */
  lemma LowerNamesMatchExactly(p: string, h: string)
    requires LowerName(p) && LowerName(h)
    ensures MatchHost(p, h) <==> p == h
  {
    NamesMatchExactly(p, h);
  }

  lemma LowerStays(s: string)
    requires LowerName(s)
    ensures ToLower(s) == s
  {
  }

  lemma TrimsToItself(s: string)
    requires s != "" && !IsSpace(s[0]) && !IsSpace(s[|s| - 1])
    ensures Trim(s) == s
  {
  }

  lemma NoDotToDrop(s: string)
    requires s != "" && s[|s| - 1] != '.'
    ensures TrimSuffix(s, ".") == s
  {
    assert s[|s| - 1..] == [s[|s| - 1]];
  }

  lemma DottedLower(d: string)
    requires LowerName(d)
    ensures ToLower("." + d) == "." + d
  {
    forall i | 0 <= i < |d| ensures ToLowerChar(d[i]) == d[i] { }
  }

  lemma DottedNormal(d: string)
    requires LowerName(d)
    ensures NormalHost("." + d) == "." + d
  {
    var p := "." + d;
    assert p[0] == '.' && p[|p| - 1] == d[|d| - 1] && HostChar(d[|d| - 1]);
    TrimsToItself(p);
    NoDotToDrop(p);
    DottedLower(d);
  }

  /** A dot before a name makes it match that name's strict subdomains. */
  lemma DottedMatchExactly(d: string, h: string)
    requires LowerName(d) && LowerName(h)
    ensures MatchHost("." + d, h) <==> exists sub :: h == sub + "." + d
  {
    DottedNormal(d);
    PlainNormal(h);
    LowerStays(h);
    SubdomainsOnly("." + d, d, h);
  }

  // ---- one rule ---------------------------------------------------------------

  predicate LowerNames(hosts: seq<string>) {
    forall i :: 0 <= i < |hosts| ==> LowerName(hosts[i])
  }

  /** A rule of plain names covers exactly its hosts on exactly its ports, all ports if it lists none. */
  lemma RuleNamesItsHosts(r: Rule, dest: Destination)
    requires LowerNames(r.hosts) && LowerName(dest.host)
    ensures MatchesDestination(r, dest) <==> dest.host in r.hosts && (r.ports == [] || dest.port in r.ports)
    ensures HostHeads([r], dest)
            == if dest.host in r.hosts && (r.ports == [] || dest.port in r.ports)
               then [Head(r.id, r.subject, r.workloadId, r.effect)] else []
  {
    forall i | 0 <= i < |r.hosts| ensures MatchHost(r.hosts[i], dest.host) <==> r.hosts[i] == dest.host {
      LowerNamesMatchExactly(r.hosts[i], dest.host);
    }
    HostHeadsStep([r], 0, dest);
    assert [r][..0] == [] && [r][..1] == [r];
  }

  // ---- evaluation, in fields ----------------------------------------------------

  /** Whom a rule covers. */
  predicate Covers(subject: string, workloadId: string, a: Option<Attribution>) {
    || (subject != "agent" && subject != "workload")
    || (a.Some? && a.value.isGovernedAgent
        && (subject == "agent" || (workloadId != "" && a.value.workloadId == workloadId)))
  }

  /** What evaluation needs of a rule of either kind: its fields, and whether it is on target. */
  datatype Candidate = Candidate(id: string, subject: string, workloadId: string, effect: string, onTarget: bool)

  predicate Fires(c: Candidate, a: Option<Attribution>) {
    c.onTarget && Covers(c.subject, c.workloadId, a)
  }

  function Heads(cs: seq<Candidate>): seq<Head> {
    if cs == [] then []
    else
      var c := cs[|cs| - 1];
      Heads(cs[..|cs| - 1]) + if c.onTarget then [Head(c.id, c.subject, c.workloadId, c.effect)] else []
  }

  ghost predicate FirstFiring(cs: seq<Candidate>, a: Option<Attribution>, deny: bool, i: int) {
    && 0 <= i < |cs| && Fires(cs[i], a) && (cs[i].effect == "deny") == deny
    && forall j :: 0 <= j < i ==> !(Fires(cs[j], a) && (cs[j].effect == "deny") == deny)
  }

  ghost predicate NoneFires(cs: seq<Candidate>, a: Option<Attribution>, deny: bool) {
    forall i :: 0 <= i < |cs| && Fires(cs[i], a) ==> (cs[i].effect == "deny") != deny
  }

  predicate FiresAs(c: Candidate, a: Option<Attribution>, deny: bool) {
    Fires(c, a) && (c.effect == "deny") == deny
  }

  lemma FirstStep(cs: seq<Candidate>, a: Option<Attribution>, deny: bool)
    requires cs != []
    ensures var c, before := cs[|cs| - 1], First(Heads(cs[..|cs| - 1]), a, deny);
            First(Heads(cs), a, deny)
            == if before.Some? then before else if FiresAs(c, a, deny) then Some(c.id) else None
  {
    var c, rest := cs[|cs| - 1], cs[..|cs| - 1];
    StepHead(Heads(rest), Head(c.id, c.subject, c.workloadId, c.effect), a);
    assert !c.onTarget ==> Heads(cs) == Heads(rest);
  }

  lemma FiringStays(cs: seq<Candidate>, a: Option<Attribution>, deny: bool, n: nat, i: int)
    requires n <= |cs| && FirstFiring(cs[..n], a, deny, i)
    ensures FirstFiring(cs, a, deny, i) && cs[i] == cs[..n][i]
  {
    assert forall j :: 0 <= j < n ==> cs[..n][j] == cs[j];
  }

  lemma FiringLast(cs: seq<Candidate>, a: Option<Attribution>, deny: bool)
    requires cs != [] && NoneFires(cs[..|cs| - 1], a, deny)
    ensures FiresAs(cs[|cs| - 1], a, deny) ==> FirstFiring(cs, a, deny, |cs| - 1)
    ensures !FiresAs(cs[|cs| - 1], a, deny) ==> NoneFires(cs, a, deny)
  {
    assert forall j :: 0 <= j < |cs| - 1 ==> cs[..|cs| - 1][j] == cs[j];
  }

  lemma {:induction false} FirstByCandidate(cs: seq<Candidate>, a: Option<Attribution>, deny: bool)
    ensures match First(Heads(cs), a, deny)
            case None => NoneFires(cs, a, deny)
            case Some(id) => exists i :: FirstFiring(cs, a, deny, i) && cs[i].id == id
  {
    if cs != [] {
      var n := |cs| - 1;
      var before := First(Heads(cs[..n]), a, deny);
      FirstByCandidate(cs[..n], a, deny);
      FirstStep(cs, a, deny);
      if before.Some? {
        var i :| FirstFiring(cs[..n], a, deny, i) && cs[..n][i].id == before.value;
        FiringStays(cs, a, deny, n, i);
      } else {
        FiringLast(cs, a, deny);
      }
    }
  }

  /** Some rule on target is for the subject. */
  predicate Targeted(cs: seq<Candidate>, x: string) {
    exists i :: 0 <= i < |cs| && cs[i].onTarget && cs[i].subject == x
  }

  lemma TargetedStep(cs: seq<Candidate>, x: string)
    requires cs != []
    ensures Targeted(cs, x) <==> Targeted(cs[..|cs| - 1], x) || (cs[|cs| - 1].onTarget && cs[|cs| - 1].subject == x)
  {
    var rest := cs[..|cs| - 1];
    assert forall i :: 0 <= i < |rest| ==> rest[i] == cs[i];
    if Targeted(rest, x) {
      var i :| 0 <= i < |rest| && rest[i].onTarget && rest[i].subject == x;
      assert cs[i].onTarget && cs[i].subject == x;
    }
  }

  lemma NeedsStep(cs: seq<Candidate>, a: Option<Attribution>, x: string)
    requires cs != []
    ensures var c := cs[|cs| - 1];
            x in Needs(Heads(cs), a)
            <==> || x in Needs(Heads(cs[..|cs| - 1]), a)
                 || (c.onTarget && c.subject == x && a.None? && (x == "agent" || x == "workload"))
  {
    var c, rest := cs[|cs| - 1], cs[..|cs| - 1];
    if c.onTarget {
      StepHead(Heads(rest), Head(c.id, c.subject, c.workloadId, c.effect), a);
    } else {
      assert Heads(cs) == Heads(rest);
    }
  }

  lemma {:induction false} NeedsByCandidate(cs: seq<Candidate>, a: Option<Attribution>, x: string)
    ensures x in Needs(Heads(cs), a) <==> a.None? && (x == "agent" || x == "workload") && Targeted(cs, x)
  {
    if cs != [] {
      NeedsByCandidate(cs[..|cs| - 1], a, x);
      NeedsStep(cs, a, x);
      TargetedStep(cs, x);
    }
  }

  /**
   * An outcome, rule by rule: the first firing deny, else the first firing rule of another
   * effect, else govern; without attribution the scoped subjects of the rules on target are
   * reported, unless the answer is a deny.
   */
  ghost predicate DecidedBy(o: Outcome, cs: seq<Candidate>, a: Option<Attribution>) {
    && (o.verdict == Deny <==> !NoneFires(cs, a, true))
    && (o.verdict == Deny ==> exists i :: FirstFiring(cs, a, true, i) && cs[i].id == o.ruleId)
    && (o.verdict == Allow <==> NoneFires(cs, a, true) && !NoneFires(cs, a, false))
    && (o.verdict == Allow ==> exists i :: FirstFiring(cs, a, false, i) && cs[i].id == o.ruleId)
    && (o.verdict == Govern ==> o.ruleId == "")
    && (forall x :: x in o.needsSubject <==>
          o.verdict != Deny && a.None? && (x == "agent" || x == "workload") && Targeted(cs, x))
  }

  lemma CandidatesDecide(cs: seq<Candidate>, a: Option<Attribution>)
    ensures DecidedBy(Decide(Heads(cs), a), cs, a)
  {
    FirstByCandidate(cs, a, true);
    FirstByCandidate(cs, a, false);
    forall x ensures x in Needs(Heads(cs), a) <==> a.None? && (x == "agent" || x == "workload") && Targeted(cs, x) {
      NeedsByCandidate(cs, a, x);
    }
  }

  predicate OnTarget(r: Rule, dest: Destination) {
    (r.ports == [] || dest.port in r.ports) && exists i :: 0 <= i < |r.hosts| && MatchHost(r.hosts[i], dest.host)
  }

  function HostCandidates(rules: seq<Rule>, dest: Destination): seq<Candidate> {
    seq(|rules|, i requires 0 <= i < |rules| =>
      var r := rules[i]; Candidate(r.id, r.subject, r.workloadId, r.effect, OnTarget(r, dest)))
  }

  lemma {:induction false} HostHeadsAre(rules: seq<Rule>, dest: Destination)
    ensures HostHeads(rules, dest) == Heads(HostCandidates(rules, dest))
  {
    if rules != [] {
      var n := |rules| - 1;
      HostHeadsAre(rules[..n], dest);
      assert HostCandidates(rules, dest)[..n] == HostCandidates(rules[..n], dest);
    }
  }

  /** `Evaluate` is decided by the rules' own fields. */
  lemma EvaluateExactly(rules: seq<Rule>, dest: Destination, a: Option<Attribution>)
    ensures DecidedBy(Decide(HostHeads(rules, dest), a), HostCandidates(rules, dest), a)
  {
    HostHeadsAre(rules, dest);
    CandidatesDecide(HostCandidates(rules, dest), a);
  }

  /** A resource pattern names itself, or a directory and everything beneath it. */
  ghost predicate Reaches(pattern: string, resource: string) {
    || pattern == resource
    || exists dir :: pattern == dir + "/*" && (resource == dir || dir + "/" <= resource)
  }

  lemma ReachesExactly(pattern: string, resource: string)
    ensures MatchResource(pattern, resource) <==> Reaches(pattern, resource)
  {
    if HasSuffix(pattern, "/*") {
      PatternShape(pattern);
      SubtreeMeans(Base(pattern), resource);
      if dir :| pattern == dir + "/*" && (resource == dir || dir + "/" <= resource) {
        assert dir == Base(pattern);
      }
    } else {
      forall dir: string ensures HasSuffix(dir + "/*", "/*") { }
    }
  }

  ghost predicate OnResource(r: ResourceRule, resource: string) {
    exists i :: 0 <= i < |r.resources| && Reaches(r.resources[i], resource)
  }

  lemma MatchesResourceExactly(r: ResourceRule, resource: string)
    ensures MatchesResource(r, resource) <==> OnResource(r, resource)
  {
    forall i | 0 <= i < |r.resources| ensures MatchResource(r.resources[i], resource)
      <==> Reaches(r.resources[i], resource) {
      ReachesExactly(r.resources[i], resource);
    }
  }

  ghost function ResourceCandidates(rules: seq<ResourceRule>, resource: string): seq<Candidate> {
    seq(|rules|, i requires 0 <= i < |rules| =>
      var r := rules[i]; Candidate(r.id, r.subject, r.workloadId, r.effect, OnResource(r, resource)))
  }

  lemma {:induction false} ResourceHeadsAre(rules: seq<ResourceRule>, resource: string)
    ensures ResourceHeads(rules, resource) == Heads(ResourceCandidates(rules, resource))
  {
    if rules != [] {
      var n := |rules| - 1;
      ResourceHeadsAre(rules[..n], resource);
      MatchesResourceExactly(rules[n], resource);
      assert ResourceCandidates(rules, resource)[..n] == ResourceCandidates(rules[..n], resource);
    }
  }

  /** `EvaluateResource` is decided by the resource rules' own fields. */
  lemma EvaluateResourceExactly(rules: seq<ResourceRule>, resource: string, a: Option<Attribution>)
    ensures DecidedBy(Decide(ResourceHeads(rules, resource), a), ResourceCandidates(rules, resource), a)
  {
    ResourceHeadsAre(rules, resource);
    CandidatesDecide(ResourceCandidates(rules, resource), a);
  }

  // ---- what loads -------------------------------------------------------------------

  predicate KnownEffect(effect: string) {
    effect == "allow" || effect == "deny"
  }

  predicate KnownSubject(subject: string, workloadId: string) {
    subject == "any" || subject == "agent" || (subject == "workload" && workloadId != "")
  }

  /**
   * A host rule loads iff its effect and subject are known, a workload is named, and it has
   * hosts, none blank or a lone dot.
   */
  lemma HostRuleLoadsExactly(r: Rule)
    ensures CheckRule(r).None?
            <==> && KnownEffect(r.effect) && KnownSubject(r.subject, r.workloadId)
                 && r.hosts != [] && forall i :: 0 <= i < |r.hosts| ==> !Blanks(r.hosts[i]) && r.hosts[i] != "."
  {
    forall i | 0 <= i < |r.hosts| ensures Trim(r.hosts[i]) == "" <==> Blanks(r.hosts[i]) {
      TrimsToNothing(r.hosts[i]);
    }
  }

  /**
   * A resource rule loads iff its effect and subject are known, a workload is named, and it has
   * patterns, all of which load.
   */
  lemma ResourceRuleLoadsExactly(r: ResourceRule)
    ensures CheckResourceRule(r).None?
            <==> && KnownEffect(r.effect) && KnownSubject(r.subject, r.workloadId)
                 && r.resources != [] && forall i :: 0 <= i < |r.resources| ==>
                   CheckResourcePattern(r.resources[i]).None?
  {
    FirstBadPatternMeans(r.resources);
  }
}
