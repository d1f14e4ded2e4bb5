/**
 * The authoring side of rule sets: validation, the signed payload, and what the Go loader
 * makes of the result. Values are untyped JSON, as they are when a stored config is cast to
 * a rule list.
 */
module RuleAuthoring {
  import opened Prelude
  import opened Text
  import opened Json
  import Rules

  const PROXY_RULESET_VERSION := 1

  /** What `validateProxyRuleSet` throws; JsTypeError is the language's own. */
  datatype Thrown =
    | BadVersion | NoId | DuplicateId | UnknownEffect | UnknownSubject | WorkloadMissing | WorkloadUnused
    | NoPatterns | EmptyHost | WildcardHost | UrlHost | BadPort | BadPattern(fault: Rules.PatternFault) | JsTypeError

  datatype AuthoredSet = AuthoredSet(version: int, rules: seq<Value>, resourceRules: seq<Value>, issuedAt: int)

  // ---- validation ---------------------------------------------------------

  /** `validateResourcePattern`. */
  function PatternThrows(pattern: string): Option<Rules.PatternFault> {
    if Trim(pattern) == "" then Some(Rules.Blank)
    else if Trim(pattern) != pattern then Some(Rules.Padded)
    else if !Contains(pattern, "://") then Some(Rules.NotUri)
    else if '*' in pattern then
      if !HasSuffix(pattern, "/*") || CountChar(pattern, '*') != 1 then Some(Rules.BadWildcard)
      else if HasSuffix(pattern, "://*") then Some(Rules.WholeScheme)
      else None
    else None
  }

  /** What `for (const x of v)` iterates; None is a TypeError. Strings iterate by character. */
  function Iterate(v: Value): Option<seq<Value>> {
    match v
    case Arr(items) => Some(items)
    case Str(s) => Some(seq(|s|, i requires 0 <= i < |s| => Str([s[i]])))
    case _ => None
  }

  /** The checks both rule kinds share, up to and including the workload id. */
  function CommonThrows(rule: Value, seen: set<string>): Option<Thrown> {
    var id := Field(rule, "id");
    if id.None? || !id.value.Str? then Some(JsTypeError)
    else if Trim(id.value.s) == "" then Some(NoId)
    else if id.value.s in seen then Some(DuplicateId)
    else
      var effect, subject, workload := Field(rule, "effect"), Field(rule, "subject"), Field(rule, "workloadId");
      if effect != Some(Str("deny")) && effect != Some(Str("allow")) then Some(UnknownEffect)
      else if subject != Some(Str("any")) && subject != Some(Str("agent")) && subject != Some(Str("workload")) then
        Some(UnknownSubject)
      else if subject == Some(Str("workload")) then
        if workload.None? || workload.value.Null? then Some(WorkloadMissing)
        else if !workload.value.Str? then Some(JsTypeError)
        else if Trim(workload.value.s) == "" then Some(WorkloadMissing)
        else None
      else if Truthy(workload) then Some(WorkloadUnused)
      else None
  }

  /** The `.length === 0` test followed by the loop header. */
  function PatternsOf(v: Option<Value>): Option<seq<Value>>
  {
    if v.None? then None else Iterate(v.value)
  }

  predicate ZeroLength(v: Option<Value>) {
    v.Some? && match v.value
               case Arr(items) => items == []
               case Str(s) => s == ""
               case Obj(fields) => "length" in fields && fields["length"] == Num(0.0)
               case _ => false
  }

  function HostThrows(host: Value): Option<Thrown> {
    if !host.Str? then Some(JsTypeError)
    else
      var h := Trim(host.s);
      if h == "" || h == "." then Some(EmptyHost)
      else if '*' in h then Some(WildcardHost)
      else if '/' in h || ':' in h then Some(UrlHost)
      else None
  }

  predicate GoodPort(port: Value) {
    IsInteger(port) && 1.0 <= port.n <= 65535.0
  }

  function FirstThrown(hosts: seq<Value>): Option<Thrown> {
    if hosts == [] then None
    else match HostThrows(hosts[0])
         case Some(t) => Some(t)
         case None => FirstThrown(hosts[1..])
  }

  function FirstBadResource(resources: seq<Value>): Option<Thrown> {
    if resources == [] then None
    else if !resources[0].Str? then Some(JsTypeError)
    else match PatternThrows(resources[0].s)
         case Some(f) => Some(BadPattern(f))
         case None => FirstBadResource(resources[1..])
  }

  function RuleThrows(rule: Value, seen: set<string>): Option<Thrown> {
    match CommonThrows(rule, seen)
    case Some(t) => Some(t)
    case None =>
      var hosts := Field(rule, "hosts");
      if ZeroLength(hosts) then Some(NoPatterns)
      else match PatternsOf(hosts)
        case None => Some(JsTypeError)
        case Some(hs) =>
          match FirstThrown(hs)
          case Some(t) => Some(t)
          case None =>
            match Iterate(OrElse(Field(rule, "ports"), Arr([])))
            case None => Some(JsTypeError)
            case Some(ports) => if forall i :: 0 <= i < |ports| ==> GoodPort(ports[i]) then None else Some(BadPort)
  }

  function ResourceRuleThrows(rule: Value, seen: set<string>): Option<Thrown> {
    match CommonThrows(rule, seen)
    case Some(t) => Some(t)
    case None =>
      var resources := Field(rule, "resources");
      if ZeroLength(resources) then Some(NoPatterns)
      else match PatternsOf(resources)
        case None => Some(JsTypeError)
        case Some(rs) => FirstBadResource(rs)
  }

  function IdText(rule: Value): string {
    match Field(rule, "id")
    case Some(Str(id)) => id
    case _ => ""
  }

  function Ids(rules: seq<Value>): set<string> {
    if rules == [] then {} else Ids(rules[..|rules| - 1]) + {IdText(rules[|rules| - 1])}
  }

  type RuleTest = (Value, set<string>) -> Option<Thrown>

  /** The first throw of a loop, each rule tested against the ids seen so far. */
  function LoopThrows(rules: seq<Value>, i: nat, seen: set<string>, test: RuleTest): Option<Thrown>
    requires i <= |rules|
    decreases |rules| - i
  {
    if i == |rules| then None
    else match test(rules[i], seen)
         case Some(t) => Some(t)
         case None => LoopThrows(rules, i + 1, seen + {IdText(rules[i])}, test)
  }

  function ThrownBy(s: AuthoredSet): Option<Thrown> {
    if s.version != PROXY_RULESET_VERSION then Some(BadVersion)
    else match LoopThrows(s.rules, 0, {}, RuleThrows)
         case Some(t) => Some(t)
         case None => LoopThrows(s.resourceRules, 0, Ids(s.rules), ResourceRuleThrows)
  }

  /** What the validator accepts: each rule passes given the ids before it, across both lists. */
  ghost predicate Accepted(s: AuthoredSet) {
    && s.version == PROXY_RULESET_VERSION
    && (forall i :: 0 <= i < |s.rules| ==> RuleThrows(s.rules[i], Ids(s.rules[..i])).None?)
    && (forall i :: 0 <= i < |s.resourceRules| ==>
          ResourceRuleThrows(s.resourceRules[i], Ids(s.rules) + Ids(s.resourceRules[..i])).None?)
  }

  lemma IdsGrow(rules: seq<Value>, i: nat)
    requires i < |rules|
    ensures Ids(rules[..i + 1]) == Ids(rules[..i]) + {IdText(rules[i])}
  {
    assert rules[..i + 1][..i] == rules[..i];
  }

  /** `validateProxyRuleSet`, growing `seen` across both lists. */
  method ValidateProxyRuleSet(s: AuthoredSet) returns (thrown: Option<Thrown>)
    ensures thrown == ThrownBy(s)
  {
    if s.version != PROXY_RULESET_VERSION {
      return Some(BadVersion);
    }
    var seen: set<string> := {};
    for i := 0 to |s.rules|
      invariant seen == Ids(s.rules[..i])
      invariant LoopThrows(s.rules, 0, {}, RuleThrows) == LoopThrows(s.rules, i, seen, RuleThrows)
    {
      var t := RuleThrows(s.rules[i], seen);
      if t.Some? {
        return t;
      }
      IdsGrow(s.rules, i);
      seen := seen + {IdText(s.rules[i])};
    }
    assert s.rules[..|s.rules|] == s.rules;
    for i := 0 to |s.resourceRules|
      invariant LoopThrows(s.resourceRules, 0, Ids(s.rules), ResourceRuleThrows)
                == LoopThrows(s.resourceRules, i, seen, ResourceRuleThrows)
    {
      var t := ResourceRuleThrows(s.resourceRules[i], seen);
      if t.Some? {
        return t;
      }
      seen := seen + {IdText(s.resourceRules[i])};
    }
    return None;
  }

  lemma {:induction false} LoopThrowsMeans(rules: seq<Value>, i: nat, before: set<string>, test: RuleTest)
    requires i <= |rules|
    ensures LoopThrows(rules, i, before + Ids(rules[..i]), test).None?
            <==> forall k :: i <= k < |rules| ==> test(rules[k], before + Ids(rules[..k])).None?
    decreases |rules| - i
  {
    if i < |rules| {
      assert rules[..i + 1][..i] == rules[..i];
      assert before + Ids(rules[..i]) + {IdText(rules[i])} == before + Ids(rules[..i + 1]);
      LoopThrowsMeans(rules, i + 1, before, test);
    }
  }

  lemma WholeLoopMeans(rules: seq<Value>, before: set<string>, test: RuleTest)
    ensures LoopThrows(rules, 0, before, test).None?
            <==> forall k :: 0 <= k < |rules| ==> test(rules[k], before + Ids(rules[..k])).None?
  {
    assert rules[..0] == [] && before + {} == before;
    LoopThrowsMeans(rules, 0, before, test);
  }

  lemma FirstLoopMeans(rules: seq<Value>, test: RuleTest)
    ensures LoopThrows(rules, 0, {}, test).None?
            <==> forall k :: 0 <= k < |rules| ==> test(rules[k], Ids(rules[..k])).None?
  {
    WholeLoopMeans(rules, {}, test);
    forall k | 0 <= k < |rules| ensures {} + Ids(rules[..k]) == Ids(rules[..k]) { }
  }

  /** No throw, whatever the order of checks, means every rule is acceptable and no id is used twice. */
  lemma AcceptanceMeans(s: AuthoredSet)
    ensures ThrownBy(s).None? <==> Accepted(s)
  {
    FirstLoopMeans(s.rules, RuleThrows);
    WholeLoopMeans(s.resourceRules, Ids(s.rules), ResourceRuleThrows);
  }

  // ---- the signed payload --------------------------------------------------

  function OrNull(v: Option<Value>): Value {
    if v.Some? then v.value else Null
  }

  predicate NonEmptyPorts(v: Option<Value>) {
    Truthy(v) && match v.value
                 case Arr(items) => items != []
                 case Str(s) => s != ""
                 case _ => false
  }

  function EncodeCommon(rule: Value): map<string, Value> {
    map["id" := OrNull(Field(rule, "id")), "subject" := OrNull(Field(rule, "subject")),
        "effect" := OrNull(Field(rule, "effect"))]
    + if Truthy(Field(rule, "workloadId")) then map["workloadId" := Field(rule, "workloadId").value] else map[]
  }

  function EncodeRule(rule: Value): Value {
    Obj(EncodeCommon(rule)
        + map["hosts" := OrNull(Field(rule, "hosts"))]
        + if NonEmptyPorts(Field(rule, "ports")) then map["ports" := Field(rule, "ports").value] else map[])
  }

  function EncodeResourceRule(rule: Value): Value {
    Obj(EncodeCommon(rule) + map["resources" := OrNull(Field(rule, "resources"))])
  }

  function EncodeAll(rules: seq<Value>, enc: Value -> Value): seq<Value> {
    seq(|rules|, i requires 0 <= i < |rules| => enc(rules[i]))
  }

  /** The msgpack body `signProxyRuleSet` signs, as a value. */
  function Payload(s: AuthoredSet): Value {
    Obj(map["version" := Num(s.version as real), "issuedAt" := Num(s.issuedAt as real),
            "rules" := Arr(EncodeAll(s.rules, EncodeRule))]
        + if s.resourceRules != [] then map["resourceRules" := Arr(EncodeAll(s.resourceRules, EncodeResourceRule))]
          else map[])
  }

  // ---- the Go decoder: missing or nil is the zero value, any other shape an error --

  predicate Absent(v: Option<Value>) {
    v.None? || v.value.Null?
  }

  function DecodeString(v: Option<Value>): Option<string> {
    if Absent(v) then Some("") else if v.value.Str? then Some(v.value.s) else None
  }

  function DecodeInt(v: Option<Value>): Option<int> {
    if Absent(v) then Some(0) else if IsInteger(v.value) then Some(v.value.n.Floor) else None
  }

  function StringsOf(items: seq<Value>): Option<seq<string>> {
    if items == [] then Some([])
    else
      var rest := StringsOf(items[1..]);
      if (!items[0].Str? && !items[0].Null?) || rest.None? then None
      else Some([if items[0].Str? then items[0].s else ""] + rest.value)
  }

  function DecodeStrings(v: Option<Value>): Option<seq<string>> {
    if Absent(v) then Some([]) else if v.value.Arr? then StringsOf(v.value.items) else None
  }

  function IntsOf(items: seq<Value>): Option<seq<int>> {
    if items == [] then Some([])
    else
      var first, rest := DecodeInt(Some(items[0])), IntsOf(items[1..]);
      if first.None? || rest.None? then None else Some([first.value] + rest.value)
  }

  function DecodeInts(v: Option<Value>): Option<seq<int>> {
    if Absent(v) then Some([]) else if v.value.Arr? then IntsOf(v.value.items) else None
  }

  function DecodeRule(v: Value): Option<Rules.Rule> {
    if !v.Obj? then None
    else
      var id, subject, workload := DecodeString(Field(v, "id")), DecodeString(Field(v, "subject")),
                                   DecodeString(Field(v, "workloadId"));
      var hosts, ports, effect := DecodeStrings(Field(v, "hosts")), DecodeInts(Field(v, "ports")),
                                  DecodeString(Field(v, "effect"));
      if id.None? || subject.None? || workload.None? || hosts.None? || ports.None? || effect.None? then None
      else Some(Rules.Rule(id.value, subject.value, workload.value, hosts.value, ports.value, effect.value))
  }

  function DecodeResourceRule(v: Value): Option<Rules.ResourceRule> {
    if !v.Obj? then None
    else
      var id, subject, workload := DecodeString(Field(v, "id")), DecodeString(Field(v, "subject")),
                                   DecodeString(Field(v, "workloadId"));
      var resources, effect := DecodeStrings(Field(v, "resources")), DecodeString(Field(v, "effect"));
      if id.None? || subject.None? || workload.None? || resources.None? || effect.None? then None
      else Some(Rules.ResourceRule(id.value, subject.value, workload.value, resources.value, effect.value))
  }

  function DecodeEach<T>(items: seq<Value>, decode: Value -> Option<T>): Option<seq<T>> {
    if items == [] then Some([])
    else
      var first, rest := decode(items[0]), DecodeEach(items[1..], decode);
      if first.None? || rest.None? then None else Some([first.value] + rest.value)
  }

  function DecodeList<T>(v: Option<Value>, decode: Value -> Option<T>): Option<seq<T>> {
    if Absent(v) then Some([]) else if v.value.Arr? then DecodeEach(v.value.items, decode) else None
  }

  function DecodeSet(v: Value): Option<Rules.RuleSet> {
    if !v.Obj? then None
    else
      var version, issuedAt := DecodeInt(Field(v, "version")), DecodeInt(Field(v, "issuedAt"));
      var rules, resourceRules := DecodeList(Field(v, "rules"), DecodeRule),
                                  DecodeList(Field(v, "resourceRules"), DecodeResourceRule);
      if version.None? || issuedAt.None? || rules.None? || resourceRules.None? then None
      else Some(Rules.RuleSet(version.value, rules.value, resourceRules.value, issuedAt.value))
  }

  /** `VerifySet` past the signature: decode, then check. */
  function Load(v: Value): Option<Rules.RuleSet> {
    match DecodeSet(v)
    case None => None
    case Some(s) => if Rules.Check(s).None? then Some(s) else None
  }

  // ---- subject-scoped rules -------------------------------------------------

  predicate Scoped(rule: Value) {
    Field(rule, "subject") == Some(Str("agent")) || Field(rule, "subject") == Some(Str("workload"))
  }

  function ScopedIds(rules: seq<Value>): seq<Value> {
    if rules == [] then []
    else (if Scoped(rules[0]) then [OrNull(Field(rules[0], "id"))] else []) + ScopedIds(rules[1..])
  }

  function SubjectScopedRuleIds(s: AuthoredSet): seq<Value> {
    ScopedIds(s.rules) + ScopedIds(s.resourceRules)
  }
}
