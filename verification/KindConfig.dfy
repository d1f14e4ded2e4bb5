/** The stored `kindConfig` of harness and proxy actors, and what their rules amount to once signed. */
module KindConfig {
  import opened Prelude
  import opened Text
  import opened Json
  import opened RuleAuthoring
  import opened SignsImpliesLoads

  datatype Refusal = NotAnObject | BadMode | BadSandbox | BadAge | RulesNotAnArray | RuleFault(thrown: Thrown)

  datatype Parsed<+C> = Config(config: C) | Refused(why: Refusal)

  datatype HarnessConfig = HarnessConfig(mode: Value, sandbox: Value, resourceRules: seq<Value>,
                                         maxStatusAgeSeconds: Value)
  datatype ProxyConfig = ProxyConfig(mode: Value, listenAddr: Option<string>, rules: seq<Value>,
                                     maxStatusAgeSeconds: Value)

  const DEFAULT_HARNESS := HarnessConfig(Str("observe"), Str("auto"), [], Num(-1.0))
  const DEFAULT_PROXY := ProxyConfig(Str("explicit"), None, [], Num(-1.0))

  function ParseHarness(raw: Option<Value>, now: int): Parsed<HarnessConfig> {
    if raw.None? || raw.value.Null? then Config(DEFAULT_HARNESS)
    else if !raw.value.Obj? then Refused(NotAnObject)
    else
      var o := raw.value;
      var mode := OrElse(Field(o, "mode"), DEFAULT_HARNESS.mode);
      var sandbox := OrElse(Field(o, "sandbox"), DEFAULT_HARNESS.sandbox);
      var age := OrElse(Field(o, "maxStatusAgeSeconds"), DEFAULT_HARNESS.maxStatusAgeSeconds);
      var rules := OrElse(Field(o, "resourceRules"), Arr([]));
      if mode != Str("observe") && mode != Str("explicit") then Refused(BadMode)
      else if sandbox != Str("off") && sandbox != Str("auto") && sandbox != Str("require") then Refused(BadSandbox)
      else if !age.Num? then Refused(BadAge)
      else if !rules.Arr? then Refused(RulesNotAnArray)
      else match ThrownBy(AuthoredSet(PROXY_RULESET_VERSION, [], rules.items, now))
           case Some(t) => Refused(RuleFault(t))
           case None => Config(HarnessConfig(mode, sandbox, rules.items, age))
  }

  function ParseProxy(raw: Option<Value>, now: int): Parsed<ProxyConfig> {
    if raw.None? || raw.value.Null? then Config(DEFAULT_PROXY)
    else if !raw.value.Obj? then Refused(NotAnObject)
    else if raw.value.fields == map[] then Config(DEFAULT_PROXY)
    else
      var o := raw.value;
      var mode := OrElse(Field(o, "mode"), DEFAULT_PROXY.mode);
      var age := OrElse(Field(o, "maxStatusAgeSeconds"), DEFAULT_PROXY.maxStatusAgeSeconds);
      var rules := OrElse(Field(o, "rules"), Arr([]));
      if mode != Str("explicit") && mode != Str("system") then Refused(BadMode)
      else if !IsInteger(age) then Refused(BadAge)
      else if !rules.Arr? then Refused(RulesNotAnArray)
      else match ThrownBy(AuthoredSet(PROXY_RULESET_VERSION, rules.items, [], now))
           case Some(t) => Refused(RuleFault(t))
           case None =>
             var addr := Field(o, "listenAddr");
             var listens := addr.Some? && addr.value.Str? && Trim(addr.value.s) != "";
             Config(ProxyConfig(mode, if listens then Some(Trim(addr.value.s)) else None, rules.items, age))
  }

  /** The set signed at push time, whenever that is. */
  function HarnessSet(c: HarnessConfig, at: int): AuthoredSet {
    AuthoredSet(PROXY_RULESET_VERSION, [], c.resourceRules, at)
  }

  function ProxySet(c: ProxyConfig, at: int): AuthoredSet {
    AuthoredSet(PROXY_RULESET_VERSION, c.rules, [], at)
  }

  /** The rules a stored config holds; a missing or null list holds none. */
  function StoredRules(raw: Option<Value>, key: string): seq<Value> {
    if raw.None? then []
    else match Field(raw.value, key)
         case Some(Arr(items)) => items
         case _ => []
  }

  /** When a set is signed has no bearing on whether it is accepted. */
  lemma SigningTimeIsFree(s: AuthoredSet, at: int)
    requires Accepted(s)
    ensures Accepted(s.(issuedAt := at))
  {
  }

  /** A harness config that parses keeps every stored rule, and always yields a set that signs and loads. */
  lemma HarnessConfigsLoad(raw: Option<Value>, now: int, at: int)
    requires ParseHarness(raw, now).Config?
    ensures var c := ParseHarness(raw, now).config;
            && c.resourceRules == StoredRules(raw, "resourceRules")
            && Accepted(HarnessSet(c, at))
            && Load(Payload(HarnessSet(c, at))) == Some(TypedSet(HarnessSet(c, at)))
  {
    var c := ParseHarness(raw, now).config;
    AcceptanceMeans(HarnessSet(c, now));
    SigningTimeIsFree(HarnessSet(c, now), at);
    SignedSetsLoad(HarnessSet(c, at));
  }

  /** A proxy config that parses yields a set that signs, and that loads exactly when each `hosts` is a list. */
  lemma ProxyConfigsLoadExactly(raw: Option<Value>, now: int, at: int)
    requires ParseProxy(raw, now).Config?
    ensures var c := ParseProxy(raw, now).config;
            && c.rules == StoredRules(raw, "rules")
            && Accepted(ProxySet(c, at))
            && (Load(Payload(ProxySet(c, at))).Some? <==> HostsAreLists(ProxySet(c, at)))
  {
    var c := ParseProxy(raw, now).config;
    AcceptanceMeans(ProxySet(c, now));
    SigningTimeIsFree(ProxySet(c, now), at);
    SignedSetsLoad(ProxySet(c, at));
  }

  // ---- what parses -----------------------------------------------------------

  predicate OneOf(v: Option<Value>, choices: set<string>) {
    v.None? || v.value.Null? || (v.value.Str? && v.value.s in choices)
  }

  predicate AListOrNothing(v: Option<Value>) {
    v.None? || v.value.Null? || v.value.Arr?
  }

  /**
   * Nothing stored parses; anything stored parses iff it is an object with known modes, a number,
   * and acceptable rules.
   */
  lemma HarnessParsesExactly(raw: Option<Value>, now: int)
    ensures ParseHarness(raw, now).Config? <==>
              || raw.None? || raw.value.Null?
              || (&& raw.value.Obj?
                  && OneOf(Field(raw.value, "mode"), {"observe", "explicit"})
                  && OneOf(Field(raw.value, "sandbox"), {"off", "auto", "require"})
                  && OrElse(Field(raw.value, "maxStatusAgeSeconds"), Num(-1.0)).Num?
                  && AListOrNothing(Field(raw.value, "resourceRules"))
                  && Accepted(AuthoredSet(PROXY_RULESET_VERSION, [], StoredRules(raw, "resourceRules"), now)))
  {
    AcceptanceMeans(AuthoredSet(PROXY_RULESET_VERSION, [], StoredRules(raw, "resourceRules"), now));
  }

  lemma ProxyParsesExactly(raw: Option<Value>, now: int)
    ensures ParseProxy(raw, now).Config? <==>
              || raw.None? || raw.value.Null?
              || (&& raw.value.Obj?
                  && OneOf(Field(raw.value, "mode"), {"explicit", "system"})
                  && IsInteger(OrElse(Field(raw.value, "maxStatusAgeSeconds"), Num(-1.0)))
                  && AListOrNothing(Field(raw.value, "rules"))
                  && Accepted(AuthoredSet(PROXY_RULESET_VERSION, StoredRules(raw, "rules"), [], now)))
  {
    AcceptanceMeans(AuthoredSet(PROXY_RULESET_VERSION, StoredRules(raw, "rules"), [], now));
  }

  const BARE_STRING_CONFIG := Obj(map["rules" := Arr([BARE_STRING_RULE])])

  /** The input: a stored proxy config that parses and signs, and whose set no verifier loads. */
  lemma StoredButNeverLoaded(now: int, at: int)
    ensures var p := ParseProxy(Some(BARE_STRING_CONFIG), now);
            p.Config? && Accepted(ProxySet(p.config, at)) && Load(Payload(ProxySet(p.config, at))).None?
  {
    var raw := Some(BARE_STRING_CONFIG);
    assert Field(BARE_STRING_CONFIG, "rules") == Some(Arr([BARE_STRING_RULE]));
    assert Field(BARE_STRING_CONFIG, "mode") == None && Field(BARE_STRING_CONFIG, "maxStatusAgeSeconds") == None;
    BareStringPasses();
    BareStringFields();
    assert StoredRules(raw, "rules") == [BARE_STRING_RULE];
    assert [BARE_STRING_RULE][..0] == [];
    ProxyParsesExactly(raw, now);
    ProxyConfigsLoadExactly(raw, now, at);
    assert !HostsAreLists(ProxySet(ParseProxy(raw, now).config, at));
  }

  /** A parsed config as the JSON it is stored as again. */
  function StoredHarness(c: HarnessConfig): Value {
    Obj(map["mode" := c.mode, "sandbox" := c.sandbox, "resourceRules" := Arr(c.resourceRules),
            "maxStatusAgeSeconds" := c.maxStatusAgeSeconds])
  }

  function StoredProxy(c: ProxyConfig): Value {
    Obj(map["mode" := c.mode, "rules" := Arr(c.rules), "maxStatusAgeSeconds" := c.maxStatusAgeSeconds]
        + if c.listenAddr.Some? then map["listenAddr" := Str(c.listenAddr.value)] else map[])
  }

  /** What a parsed config is made of. */
  ghost predicate GoodHarness(c: HarnessConfig, now: int) {
    && (c.mode == Str("observe") || c.mode == Str("explicit"))
    && (c.sandbox == Str("off") || c.sandbox == Str("auto") || c.sandbox == Str("require"))
    && c.maxStatusAgeSeconds.Num? && ThrownBy(HarnessSet(c, now)).None?
  }

  ghost predicate GoodProxy(c: ProxyConfig, now: int) {
    && (c.mode == Str("explicit") || c.mode == Str("system"))
    && IsInteger(c.maxStatusAgeSeconds) && ThrownBy(ProxySet(c, now)).None?
    && (c.listenAddr.Some? ==> c.listenAddr.value != "" && Trim(c.listenAddr.value) == c.listenAddr.value)
  }

  lemma ParsedHarnessIsGood(raw: Option<Value>, now: int)
    requires ParseHarness(raw, now).Config?
    ensures GoodHarness(ParseHarness(raw, now).config, now)
  {
  }

  lemma {:induction false} TrimLeftEnds(s: string)
    ensures TrimLeft(s) != "" ==> !IsSpace(TrimLeft(s)[0])
  {
    if s != "" && IsSpace(s[0]) {
      TrimLeftEnds(s[1..]);
    }
  }

  lemma {:induction false} TrimRightEnds(s: string)
    ensures TrimRight(s) <= s && (TrimRight(s) != "" ==> !IsSpace(TrimRight(s)[|TrimRight(s)| - 1]))
  {
    if s != "" && IsSpace(s[|s| - 1]) {
      TrimRightEnds(s[..|s| - 1]);
    }
  }

  lemma TrimTwice(s: string)
    ensures Trim(Trim(s)) == Trim(s)
  {
    TrimLeftEnds(s);
    TrimRightEnds(TrimLeft(s));
  }

  lemma ParsedProxyIsGood(raw: Option<Value>, now: int)
    requires ParseProxy(raw, now).Config?
    ensures GoodProxy(ParseProxy(raw, now).config, now)
  {
    var c := ParseProxy(raw, now).config;
    if c.listenAddr.Some? {
      TrimTwice(Field(raw.value, "listenAddr").value.s);
    }
  }

  lemma GoodHarnessParses(c: HarnessConfig, now: int)
    requires GoodHarness(c, now)
    ensures ParseHarness(Some(StoredHarness(c)), now) == Config(c)
  {
    var o := StoredHarness(c);
    assert Field(o, "mode") == Some(c.mode) && Field(o, "sandbox") == Some(c.sandbox);
    assert Field(o, "resourceRules") == Some(Arr(c.resourceRules))
           && Field(o, "maxStatusAgeSeconds") == Some(c.maxStatusAgeSeconds);
  }

  lemma StoredProxyFields(c: ProxyConfig)
    ensures var o := StoredProxy(c);
            && o.fields != map[]
            && Field(o, "mode") == Some(c.mode) && Field(o, "rules") == Some(Arr(c.rules))
            && Field(o, "maxStatusAgeSeconds") == Some(c.maxStatusAgeSeconds)
            && Field(o, "listenAddr") == if c.listenAddr.Some? then Some(Str(c.listenAddr.value)) else None
  {
    assert "mode" in StoredProxy(c).fields;
  }

  lemma GoodProxyParses(c: ProxyConfig, now: int)
    requires GoodProxy(c, now)
    ensures ParseProxy(Some(StoredProxy(c)), now) == Config(c)
  {
    StoredProxyFields(c);
  }

  lemma AnyTimeWillDo(s: AuthoredSet, at: int)
    requires ThrownBy(s).None?
    ensures ThrownBy(s.(issuedAt := at)).None?
  {
  }

  /** Parsing is a projection: a parsed config, stored and read back at any time, is itself. */
  lemma HarnessReparses(raw: Option<Value>, now: int, later: int)
    requires ParseHarness(raw, now).Config?
    ensures var c := ParseHarness(raw, now).config;
            ParseHarness(Some(StoredHarness(c)), later) == Config(c)
  {
    var c := ParseHarness(raw, now).config;
    ParsedHarnessIsGood(raw, now);
    AnyTimeWillDo(HarnessSet(c, now), later);
    GoodHarnessParses(c, later);
  }

  lemma ProxyReparses(raw: Option<Value>, now: int, later: int)
    requires ParseProxy(raw, now).Config?
    ensures var c := ParseProxy(raw, now).config;
            ParseProxy(Some(StoredProxy(c)), later) == Config(c)
  {
    var c := ParseProxy(raw, now).config;
    ParsedProxyIsGood(raw, now);
    AnyTimeWillDo(ProxySet(c, now), later);
    GoodProxyParses(c, later);
  }

  /** A parsed harness config holds what was stored, and the documented default for what was not. */
  lemma HarnessFieldsExactly(raw: Option<Value>, now: int)
    requires ParseHarness(raw, now).Config?
    ensures var c, o := ParseHarness(raw, now).config, (if raw.Some? then raw.value else Null);
            && c.mode == OrElse(Field(o, "mode"), Str("observe"))
            && c.sandbox == OrElse(Field(o, "sandbox"), Str("auto"))
            && c.maxStatusAgeSeconds == OrElse(Field(o, "maxStatusAgeSeconds"), Num(-1.0))
            && c.resourceRules == StoredRules(raw, "resourceRules")
  {
  }

  lemma ProxyFieldsExactly(raw: Option<Value>, now: int)
    requires ParseProxy(raw, now).Config?
    ensures var c, o := ParseProxy(raw, now).config, (if raw.Some? then raw.value else Null);
            && c.mode == OrElse(Field(o, "mode"), Str("explicit"))
            && c.maxStatusAgeSeconds == OrElse(Field(o, "maxStatusAgeSeconds"), Num(-1.0))
            && c.rules == StoredRules(raw, "rules")
            && (forall s :: Field(o, "listenAddr") == Some(Str(s)) && Trim(s) != "" ==> c.listenAddr == Some(Trim(s)))
            && (c.listenAddr.Some? ==>
                exists s :: Field(o, "listenAddr") == Some(Str(s)) && Trim(s) == c.listenAddr.value != "")
  {
  }
}
