/** What evaluation promises: deny-overrides, order independence, refinement, and laminar matchers. */
module RuleProperties {
  import opened Prelude
  import opened Text
  import opened Rules
  import Glob

  // ---- the meaning of a verdict ------------------------------------------

  ghost predicate ApplicableRule(hs: seq<Head>, a: Option<Attribution>, deny: bool) {
    exists h :: h in hs && Applies(h, a) && (h.effect == EFFECT_DENY) == deny
  }

  lemma {:induction false} FirstExists(hs: seq<Head>, a: Option<Attribution>, deny: bool)
    ensures First(hs, a, deny).Some? <==> ApplicableRule(hs, a, deny)
    ensures First(hs, a, deny).Some? ==>
              exists i :: 0 <= i < |hs| && hs[i].id == First(hs, a, deny).value
                          && Applies(hs[i], a) && (hs[i].effect == EFFECT_DENY) == deny
                          && forall j :: 0 <= j < i ==> !(Applies(hs[j], a) && (hs[j].effect == EFFECT_DENY) == deny)
  {
    if hs != [] {
      var n := |hs| - 1;
      FirstExists(hs[..n], a, deny);
      assert hs == hs[..n] + [hs[n]];
    }
  }

  lemma {:induction false} NeedsMeans(hs: seq<Head>, a: Option<Attribution>)
    ensures forall x :: x in Needs(hs, a) <==> exists h :: h in hs && Undecided(h, a) && h.subject == x
    ensures Distinct(Needs(hs, a))
  {
    if hs != [] {
      var n := |hs| - 1;
      NeedsMeans(hs[..n], a);
      assert hs == hs[..n] + [hs[n]];
    }
  }

  /**
   * Deny iff some applicable matching rule denies; else Allow iff some applicable one
   * matches; else Govern. A Deny or Allow names the first rule that produced it.
   */
  lemma VerdictMeans(hs: seq<Head>, a: Option<Attribution>)
    ensures Decide(hs, a).verdict == Deny <==> ApplicableRule(hs, a, true)
    ensures Decide(hs, a).verdict == Allow <==> !ApplicableRule(hs, a, true) && ApplicableRule(hs, a, false)
    ensures Decide(hs, a).verdict != Govern ==>
              exists i :: 0 <= i < |hs| && hs[i].id == Decide(hs, a).ruleId && Applies(hs[i], a)
                          && (hs[i].effect == EFFECT_DENY <==> Decide(hs, a).verdict == Deny)
                          && forall j :: 0 <= j < i ==>
                               !(Applies(hs[j], a) && (hs[j].effect == EFFECT_DENY <==> hs[i].effect == EFFECT_DENY))
    ensures Decide(hs, a).verdict == Deny ==> Decide(hs, a).needsSubject == []
    ensures Decide(hs, a).verdict != Deny ==>
              forall x :: x in Decide(hs, a).needsSubject <==> exists h :: h in hs && Undecided(h, a) && h.subject == x
    ensures Distinct(Decide(hs, a).needsSubject)
  {
    FirstExists(hs, a, true);
    FirstExists(hs, a, false);
    NeedsMeans(hs, a);
  }

  // ---- order independence -------------------------------------------------

  lemma {:induction false} HostHeadsMeans(rules: seq<Rule>, dest: Destination)
    ensures forall h ::
              h in HostHeads(rules, dest) <==> exists r :: r in rules && MatchesDestination(r, dest) && HeadOf(r) == h
  {
    if rules != [] {
      var n := |rules| - 1;
      HostHeadsMeans(rules[..n], dest);
      assert rules == rules[..n] + [rules[n]];
    }
  }

  lemma {:induction false} ResourceHeadsMeans(rules: seq<ResourceRule>, resource: string)
    ensures forall h :: h in ResourceHeads(rules, resource) <==>
              exists r :: r in rules && MatchesResource(r, resource) && ResourceHeadOf(r) == h
  {
    if rules != [] {
      var n := |rules| - 1;
      ResourceHeadsMeans(rules[..n], resource);
      assert rules == rules[..n] + [rules[n]];
    }
  }

  ghost predicate SameDecision(o: Outcome, o': Outcome) {
    o.verdict == o'.verdict && forall x :: x in o.needsSubject <==> x in o'.needsSubject
  }

  lemma SameHeadsSameDecision(hs: seq<Head>, hs': seq<Head>, a: Option<Attribution>)
    requires forall h :: h in hs <==> h in hs'
    ensures SameDecision(Decide(hs, a), Decide(hs', a))
  {
    VerdictMeans(hs, a);
    VerdictMeans(hs', a);
    assert forall d :: ApplicableRule(hs, a, d) <==> ApplicableRule(hs', a, d);
  }

  /** Neither order nor repetition of rules matters: permutations are a special case. */
  lemma OrderIndependence(rules: seq<Rule>, rules': seq<Rule>, dest: Destination, a: Option<Attribution>)
    requires forall r :: r in rules <==> r in rules'
    ensures SameDecision(Decide(HostHeads(rules, dest), a), Decide(HostHeads(rules', dest), a))
  {
    HostHeadsMeans(rules, dest);
    HostHeadsMeans(rules', dest);
    SameHeadsSameDecision(HostHeads(rules, dest), HostHeads(rules', dest), a);
  }

  lemma ResourceOrderIndependence(rules: seq<ResourceRule>, rules': seq<ResourceRule>, resource: string,
                                  a: Option<Attribution>)
    requires forall r :: r in rules <==> r in rules'
    ensures SameDecision(Decide(ResourceHeads(rules, resource), a), Decide(ResourceHeads(rules', resource), a))
  {
    ResourceHeadsMeans(rules, resource);
    ResourceHeadsMeans(rules', resource);
    SameHeadsSameDecision(ResourceHeads(rules, resource), ResourceHeads(rules', resource), a);
  }

  // ---- attribution only refines ------------------------------------------

  lemma {:induction false} NoneUndecided(hs: seq<Head>, a: Option<Attribution>)
    requires forall h :: h in hs ==> !Undecided(h, a)
    ensures Needs(hs, a) == []
  {
    if hs != [] {
      NoneUndecided(hs[..|hs| - 1], a);
    }
  }

  lemma AttributionOnlyRefines(hs: seq<Head>, w: Attribution)
    ensures Decide(hs, None).verdict == Deny ==> Decide(hs, Some(w)).verdict == Deny
    ensures Decide(hs, None).verdict == Allow ==> Decide(hs, Some(w)).verdict in {Allow, Deny}
    ensures Decide(hs, None).needsSubject == [] ==> Decide(hs, Some(w)).verdict == Decide(hs, None).verdict
    ensures Decide(hs, Some(w)).needsSubject == []
  {
    VerdictMeans(hs, None);
    VerdictMeans(hs, Some(w));
    assert forall h :: h in hs ==> !Undecided(h, Some(w));
    NoneUndecided(hs, Some(w));
    if Decide(hs, None).needsSubject == [] && Decide(hs, None).verdict != Deny {
      assert forall h :: h in hs && Undecided(h, None) ==> h.subject in Decide(hs, None).needsSubject;
      assert forall h :: h in hs ==> Applies(h, None) == Applies(h, Some(w));
    }
  }

  /** Some attribution makes the head apply. A workload rule naming no workload never does. */
  predicate Reachable(h: Head) {
    h.subject == SUBJECT_WORKLOAD ==> h.workloadId != ""
  }

  predicate CouldChange(hs: seq<Head>) {
    && Decide(hs, None).verdict != Deny
    && exists i :: 0 <= i < |hs| && NeedsAttribution(hs[i].subject) && Reachable(hs[i])
                   && (hs[i].effect == EFFECT_DENY || Decide(hs, None).verdict == Govern)
  }

  function WitnessFor(h: Head): Attribution {
    Attribution(true, h.workloadId)
  }

  /** Exactly when looking for an attribution can change the answer. */
  lemma LookingHelpsExactly(hs: seq<Head>)
    ensures (exists w :: Decide(hs, Some(w)).verdict != Decide(hs, None).verdict) <==> CouldChange(hs)
  {
    VerdictMeans(hs, None);
    if CouldChange(hs) {
      var i :| 0 <= i < |hs| && NeedsAttribution(hs[i].subject) && Reachable(hs[i])
               && (hs[i].effect == EFFECT_DENY || Decide(hs, None).verdict == Govern);
      var w := WitnessFor(hs[i]);
      assert hs[i] in hs && Applies(hs[i], Some(w));
      VerdictMeans(hs, Some(w));
      assert ApplicableRule(hs, Some(w), hs[i].effect == EFFECT_DENY);
      assert Decide(hs, Some(w)).verdict != Decide(hs, None).verdict;
    }
    if w :| Decide(hs, Some(w)).verdict != Decide(hs, None).verdict {
      VerdictMeans(hs, Some(w));
      AttributionOnlyRefines(hs, w);
      var deny := Decide(hs, Some(w)).verdict == Deny;
      var h :| h in hs && Applies(h, Some(w)) && (h.effect == EFFECT_DENY) == deny;
      assert !Applies(h, None);
      var i :| 0 <= i < |hs| && hs[i] == h;
    }
  }

  /** Two rules on one host: everyone may, and governed agents may. */
  const FOR_ALL := Rule("a", SUBJECT_ANY, "", ["h"], [], EFFECT_ALLOW)
  const FOR_AGENTS := Rule("b", SUBJECT_AGENT, "", ["h"], [], EFFECT_ALLOW)
  const IDLE_SET := RuleSet(1, [FOR_ALL, FOR_AGENTS], [], 0)
  const IDLE_HEADS := [HeadOf(FOR_ALL), HeadOf(FOR_AGENTS)]

  lemma IdleSetLoads()
    ensures Check(IDLE_SET).None?
  {
    CheckRulesMeans(IDLE_SET.rules, 0);
    assert Trim("h") == "h";
  }

  lemma HostMatchesItself()
    ensures MatchHost("h", "h")
  {
    assert NormalHost("h") == ToLower("h") && |ToLower("h")| == 1 && ToLower("h")[0] == 'h';
  }

  lemma BothMatch(r: Rule, q: Rule, dest: Destination)
    requires MatchesDestination(r, dest) && MatchesDestination(q, dest)
    ensures HostHeads([r, q], dest) == [HeadOf(r), HeadOf(q)]
  {
    HostHeadsStep([r, q], 0, dest);
    HostHeadsStep([r, q], 1, dest);
    assert [r, q][..0] == [] && [r, q][..2] == [r, q];
  }

  lemma IdleSetHeads()
    ensures HostHeads(IDLE_SET.rules, Destination("h", 443)) == IDLE_HEADS
  {
    HostMatchesItself();
    var rules, dest := IDLE_SET.rules, Destination("h", 443);
    assert MatchHost(rules[0].hosts[0], dest.host) && MatchHost(rules[1].hosts[0], dest.host);
    BothMatch(rules[0], rules[1], dest);
  }

  /** A reported subject need not matter: an undecided allow beside a decided one changes nothing. */
  lemma NeededSubjectMayNotMatter()
    ensures Check(IDLE_SET).None?
    ensures var hs := HostHeads(IDLE_SET.rules, Destination("h", 443));
            && Decide(hs, None).needsSubject != []
            && forall w :: Decide(hs, Some(w)).verdict == Decide(hs, None).verdict
  {
    IdleSetLoads();
    IdleSetHeads();
    var hs := IDLE_HEADS;
    VerdictMeans(hs, None);
    assert hs[0] in hs && hs[1] in hs && Applies(hs[0], None) && Undecided(hs[1], None);
    assert hs[1].subject in Decide(hs, None).needsSubject;
    LookingHelpsExactly(hs);
    assert !CouldChange(hs);
  }

  /** A set that passes `Validate(false)` never reports a needed subject, on either side. */
  lemma ValidatedNeverNeeds(s: RuleSet, dest: Destination, resource: string, a: Option<Attribution>)
    requires Validate(s, false)
    ensures Decide(HostHeads(s.rules, dest), a).needsSubject == []
    ensures Decide(ResourceHeads(s.resourceRules, resource), a).needsSubject == []
  {
    var hs, rs := HostHeads(s.rules, dest), ResourceHeads(s.resourceRules, resource);
    HostHeadsMeans(s.rules, dest);
    ResourceHeadsMeans(s.resourceRules, resource);
    NoneUndecided(hs, a);
    NoneUndecided(rs, a);
  }

  // ---- matchers: laminar families -----------------------------------------

  /**
   * Whom a subject covers: everyone, any governed agent, or the one workload named; undecided
   * only without attribution.
   */
  lemma SubjectMeans(h: Head, a: Option<Attribution>)
    ensures Applies(h, a) <==>
              || !NeedsAttribution(h.subject)
              || (a.Some? && a.value.isGovernedAgent
                  && (h.subject == SUBJECT_AGENT || (h.workloadId != "" && a.value.workloadId == h.workloadId)))
    ensures Undecided(h, a) <==> NeedsAttribution(h.subject) && a.None?
  {
  }

  function AnyOnly(hs: seq<Head>): seq<Head> {
    if hs == [] then []
    else
      var n := |hs| - 1;
      AnyOnly(hs[..n]) + if NeedsAttribution(hs[n].subject) then [] else [hs[n]]
  }

  lemma {:induction false} FirstSkipsScoped(hs: seq<Head>, a: Option<Attribution>, deny: bool)
    requires a.Some? && !a.value.isGovernedAgent
    ensures First(hs, a, deny) == First(AnyOnly(hs), a, deny)
  {
    if hs != [] {
      var n := |hs| - 1;
      FirstSkipsScoped(hs[..n], a, deny);
      assert hs == hs[..n] + [hs[n]];
      StepHead(hs[..n], hs[n], a);
      if NeedsAttribution(hs[n].subject) {
        assert AnyOnly(hs) == AnyOnly(hs[..n]);
      } else {
        StepHead(AnyOnly(hs[..n]), hs[n], a);
      }
    }
  }

  /** Traffic known not to come from a governed agent sees exactly the rules for everyone. */
  lemma {:induction false} UngovernedSeesOnlyAny(hs: seq<Head>, workloadId: string)
    ensures var w := Some(Attribution(false, workloadId));
            Decide(hs, w) == Decide(AnyOnly(hs), w)
  {
    FirstSkipsScoped(hs, Some(Attribution(false, workloadId)), true);
    FirstSkipsScoped(hs, Some(Attribution(false, workloadId)), false);
    NoneUndecided(hs, Some(Attribution(false, workloadId)));
    NoneUndecided(AnyOnly(hs), Some(Attribution(false, workloadId)));
  }

  // The b of a pattern "b/*".
  function Base(pattern: string): string
    requires HasSuffix(pattern, "/*")
  {
    pattern[..|pattern| - 2]
  }

  // "b/*" covers b itself and what starts with "b/", and nothing else.
  lemma SubtreeMeans(b: string, r: string)
    ensures MatchResource(b + "/*", r) <==> r == b || HasPrefix(r, b + "/")
  {
    var p := b + "/*";
    assert p[|p| - 2..] == "/*" && p[|p| - 1..] == "*";
    assert TrimSuffix(p, "*") == b + "/";
    assert (b + "/")[|b|..] == "/";
    assert TrimSuffix(b + "/", "/") == b;
  }

  lemma PatternShape(p: string)
    requires HasSuffix(p, "/*")
    ensures p == Base(p) + "/*"
  {
    assert p == p[..|p| - 2] + p[|p| - 2..];
  }

  /** A sibling that merely shares a name prefix is not covered. */
  lemma SiblingsStayOut(b: string, rest: string)
    requires rest != "" && rest[0] != '/'
    ensures !MatchResource(b + "/*", b + rest)
  {
    SubtreeMeans(b, b + rest);
    assert (b + rest)[|b|] == rest[0];
    assert (b + "/")[|b|] == '/';
  }

  ghost predicate Nested(p: string, q: string) {
    forall r :: MatchResource(p, r) ==> MatchResource(q, r)
  }

  ghost predicate Disjoint(p: string, q: string) {
    forall r :: !(MatchResource(p, r) && MatchResource(q, r))
  }

  lemma DeeperIsNested(b: string, c: string)
    requires c == b || HasPrefix(c, b + "/")
    ensures Nested(c + "/*", b + "/*")
  {
    forall r | MatchResource(c + "/*", r) ensures MatchResource(b + "/*", r) {
      SubtreeMeans(c, r);
      SubtreeMeans(b, r);
      if r != c {
        assert HasPrefix(c + "/", b + "/");
      }
    }
  }

  /** Two subtrees that share a resource: the longer base lies at or below the shorter. */
  lemma CommonSubtrees(b: string, c: string, r: string)
    requires |b| <= |c|
    requires r == b || HasPrefix(r, b + "/")
    requires r == c || HasPrefix(r, c + "/")
    ensures c == b || HasPrefix(c, b + "/")
  {
    assert HasPrefix(r, b) && HasPrefix(r, c);
    if |b| < |c| {
      assert r != b;
      assert c[..|b| + 1] == r[..|b| + 1] == b + "/";
    }
  }

  lemma ExactMatchNests(p: string, q: string, r: string)
    requires MatchResource(p, r) && MatchResource(q, r) && !(HasSuffix(p, "/*") && HasSuffix(q, "/*"))
    ensures Nested(p, q) || Nested(q, p)
  {
    if !HasSuffix(p, "/*") {
      assert forall x :: MatchResource(p, x) ==> x == r;
    } else {
      assert forall x :: MatchResource(q, x) ==> x == r;
    }
  }

  /** Two patterns that share a resource are comparable. */
  lemma CommonResourceNests(p: string, q: string, r: string)
    requires MatchResource(p, r) && MatchResource(q, r)
    ensures Nested(p, q) || Nested(q, p)
  {
    if HasSuffix(p, "/*") && HasSuffix(q, "/*") {
      PatternShape(p);
      PatternShape(q);
      var b, c := Base(p), Base(q);
      SubtreeMeans(b, r);
      SubtreeMeans(c, r);
      if |b| <= |c| {
        CommonSubtrees(b, c, r);
        DeeperIsNested(b, c);
      } else {
        CommonSubtrees(c, b, r);
        DeeperIsNested(c, b);
      }
    } else {
      ExactMatchNests(p, q, r);
    }
  }

  lemma ResourcePatternsAreLaminar(p: string, q: string)
    ensures Nested(p, q) || Nested(q, p) || Disjoint(p, q)
  {
    if r :| MatchResource(p, r) && MatchResource(q, r) {
      CommonResourceNests(p, q, r);
    }
  }

  lemma SuffixOfSuffix(s: string, p: string, q: string)
    requires HasSuffix(s, p) && HasSuffix(p, q)
    ensures HasSuffix(s, q)
  {
    assert s[|s| - |q|..] == p[|p| - |q|..];
  }

  /** Host patterns form a laminar family too. */
  lemma HostPatternsAreLaminar(p: string, q: string)
    ensures (forall h :: MatchHost(p, h) ==> MatchHost(q, h))
            || (forall h :: MatchHost(q, h) ==> MatchHost(p, h))
            || (forall h :: !(MatchHost(p, h) && MatchHost(q, h)))
  {
    if h0 :| MatchHost(p, h0) && MatchHost(q, h0) {
      var p', q', h := NormalHost(p), NormalHost(q), NormalHost(h0);
      if HasPrefix(p', ".") && HasPrefix(q', ".") {
        if |p'| <= |q'| {
          SuffixesNest(h, p', q');
          forall x | MatchHost(q, x) ensures MatchHost(p, x) {
            SuffixOfSuffix(NormalHost(x), q', p');
          }
        } else {
          SuffixesNest(h, q', p');
          forall x | MatchHost(p, x) ensures MatchHost(q, x) {
            SuffixOfSuffix(NormalHost(x), p', q');
          }
        }
      }
    }
  }

  /** A dot pattern covers strict subdomains only: not the domain itself, nor a name that merely ends alike. */
  lemma SubdomainsOnly(p: string, d: string, h: string)
    requires NormalHost(p) == "." + d && d != ""
    ensures MatchHost(p, h) <==> exists sub :: NormalHost(h) == sub + "." + d
    ensures NormalHost(h) == d ==> !MatchHost(p, h)
    ensures forall x :: x != "" && x[|x| - 1] != '.' && NormalHost(h) == x + d ==> !MatchHost(p, h)
  {
    var n := NormalHost(h);
    if MatchHost(p, h) {
      assert n == n[..|n| - |"." + d|] + "." + d;
    }
    if sub :| n == sub + "." + d {
      assert n[|n| - |"." + d|..] == "." + d;
    }
    if HasSuffix(n, "." + d) {
      assert n[|n| - |d| - 1..][0] == '.';
    }
    forall x | x != "" && x[|x| - 1] != '.' && n == x + d ensures !MatchHost(p, h) {
      assert n[|n| - |d| - 1] == x[|x| - 1];
    }
  }

  lemma {:induction false} TrimLeftOfLower(s: string)
    ensures TrimLeft(ToLower(s)) == ToLower(TrimLeft(s))
  {
    if s != "" && IsSpace(s[0]) {
      assert ToLower(s)[1..] == ToLower(s[1..]);
      TrimLeftOfLower(s[1..]);
    }
  }

  lemma {:induction false} TrimRightOfLower(s: string)
    ensures TrimRight(ToLower(s)) == ToLower(TrimRight(s))
  {
    if s != "" && IsSpace(s[|s| - 1]) {
      assert ToLower(s)[..|s| - 1] == ToLower(s[..|s| - 1]);
      TrimRightOfLower(s[..|s| - 1]);
    }
  }

  lemma NormalOfLower(s: string)
    ensures NormalHost(ToLower(s)) == NormalHost(s)
  {
    TrimLeftOfLower(s);
    TrimRightOfLower(TrimLeft(s));
    var t := Trim(s);
    if t != "" {
      assert ToLower(t)[|t| - 1..] == [ToLowerChar(t[|t| - 1])] && t[|t| - 1..] == [t[|t| - 1]];
      assert ToLower(t)[..|t| - 1] == ToLower(t[..|t| - 1]);
    }
  }

  /** Letter case is ignored on both sides. */
  lemma HostCaseIsIgnored(p: string, h: string)
    ensures MatchHost(ToLower(p), h) == MatchHost(p, h) == MatchHost(p, ToLower(h))
  {
    NormalOfLower(p);
    NormalOfLower(h);
  }

  // ---- accepted patterns, and the two matchers compared --------------------

  lemma {:induction false} IndexAfter(s: string)
    requires '*' !in s
    ensures IndexByte(s + "*", '*') == |s|
  {
    if s == "" {
      assert s + "*" == "*";
    } else {
      assert (s + "*")[1..] == s[1..] + "*";
      IndexAfter(s[1..]);
    }
  }

  lemma {:induction false} OneStarAtEnd(p: string)
    requires HasSuffix(p, "/*") && CountChar(p, '*') == 1
    ensures '*' !in Base(p) && IndexByte(p, '*') == |p| - 1
  {
    PatternShape(p);
    CountCharConcat(Base(p), "/*", '*');
    assert CountChar("/*", '*') == 1 by { assert "/*"[1..] == "*"; assert "*"[1..] == ""; }
    CountZero(Base(p), '*');
    IndexAfter(Base(p) + "/");
    assert p == Base(p) + "/" + "*";
  }

  lemma {:induction false} IndexMeans(s: string, c: char)
    ensures IndexByte(s, c) >= 0 <==> c in s
    ensures IndexByte(s, c) < |s|
  {
    if s != "" {
      IndexMeans(s[1..], c);
      assert s == [s[0]] + s[1..];
    }
  }

  lemma SchemeSuffix(b: string)
    ensures HasSuffix(b + "/*", "://*") <==> HasSuffix(b, ":/")
  {
    var p := b + "/*";
    if |b| >= 2 {
      assert p[|p| - 4..] == b[|b| - 2..] + "/*";
      if HasSuffix(p, "://*") {
        assert p[|p| - 4..][..2] == b[|b| - 2..];
      }
    }
  }

  lemma WildcardShape(p: string)
    ensures HasSuffix(p, "/*") && CountChar(p, '*') == 1 && !HasSuffix(p, "://*")
            <==> exists b :: p == b + "/*" && '*' !in b && !HasSuffix(b, ":/")
  {
    if HasSuffix(p, "/*") && CountChar(p, '*') == 1 {
      OneStarAtEnd(p);
      PatternShape(p);
      SchemeSuffix(Base(p));
    }
    if b :| p == b + "/*" && '*' !in b && !HasSuffix(b, ":/") {
      assert p[|p| - 2..] == "/*";
      CountCharConcat(b, "/*", '*');
      CountZero(b, '*');
      assert CountChar("/*", '*') == 1 by { assert "/*"[1..] == "*"; assert "*"[1..] == ""; }
      SchemeSuffix(b);
    }
  }

  /** Exactly which patterns load. */
  lemma AcceptedPatterns(p: string)
    ensures CheckResourcePattern(p).None?
            <==> && Trim(p) == p && Contains(p, "://")
                 && ('*' !in p || exists b :: p == b + "/*" && '*' !in b && !HasSuffix(b, ":/"))
  {
    IndexMeans(p, '*');
    if p == "" {
      assert Trim(p) == "";
    } else if '*' in p {
      WildcardShape(p);
      if HasSuffix(p, "/*") && CountChar(p, '*') == 1 {
        OneStarAtEnd(p);
      }
    }
  }

  /** An accepted pattern that holds a star is a subtree, and otherwise it matches only itself. */
  lemma AcceptedMeaning(p: string, r: string)
    requires CheckResourcePattern(p).None?
    ensures '*' !in p ==> (MatchResource(p, r) <==> r == p)
    ensures '*' in p ==> HasSuffix(p, "/*") && (MatchResource(p, r) <==> r == Base(p) || HasPrefix(r, Base(p) + "/"))
  {
    AcceptedPatterns(p);
    if '*' in p {
      var b :| p == b + "/*" && '*' !in b && !HasSuffix(b, ":/");
      assert p[|p| - 2..] == "/*" && Base(p) == b;
      SubtreeMeans(b, r);
    } else {
      assert |p| >= 2 ==> p[|p| - 2..][1] == p[|p| - 1];
    }
  }

  lemma GlobSubtree(d: Glob.Dialect, b: string, r: string)
    requires '*' !in b
    ensures Glob.Accepts(d, b + "/*", r) <==> HasPrefix(r, b + "/") && Glob.BreakFree(d, r[|b| + 1..])
  {
    assert b + "/*" == b + "/" + "*";
    Glob.TailRun(d, b + "/", r);
  }

  /**
   * The rule matcher against the certificate-scope glob on an accepted subtree: the same
   * set, plus the directory itself, plus whatever the glob's `.` refuses to cross.
   */
  lemma SubtreeAgainstGlob(d: Glob.Dialect, b: string, r: string)
    requires '*' !in b
    ensures Glob.Accepts(d, b + "/*", r) <==> HasPrefix(r, b + "/") && Glob.BreakFree(d, r[|b| + 1..])
    ensures Glob.BreakFree(d, r) ==> (MatchResource(b + "/*", r) <==> r == b || Glob.Accepts(d, b + "/*", r))
  {
    GlobSubtree(d, b, r);
    if HasPrefix(r, b + "/") && Glob.BreakFree(d, r) {
      var w := r[|b| + 1..];
      forall i | 0 <= i < |w| ensures !Glob.LineBreak(d, w[i]) { assert w[i] == r[|b| + 1 + i]; }
    }
    SubtreeMeans(b, r);
  }
}
