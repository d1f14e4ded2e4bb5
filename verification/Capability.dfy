/** Capability names, and the filter against the admin registry (sdk-go/capability/name.go). */
module Capability {
  import opened Prelude
  import opened Text

  const BUILTINS_A: seq<string> := ["file_read", "file_write", "file_access", "internet_access"]
  const BUILTINS_B: seq<string> := ["browser_control", "api_call", "mail_send", "code_execution"]
  const BUILTINS_C: seq<string> := ["system_command", "agent_communication", "knowledge_search", "admin_console_access"]
  const BUILTINS_D: seq<string> := ["portal_access", "process_read", "non_delegatable", "delegation"]

  const BUILTINS: seq<string> := BUILTINS_A + BUILTINS_B + BUILTINS_C + BUILTINS_D

  predicate IsBuiltin(name: string) {
    name in BUILTINS
  }

  predicate LowerAlnum(c: char) {
    'a' <= c <= 'z' || '0' <= c <= '9'
  }

  predicate VendorText(s: string) {
    2 <= |s| <= 32 && LowerAlnum(s[0]) && forall i :: 1 <= i < |s| ==> LowerAlnum(s[i]) || s[i] == '-'
  }

  predicate ActionText(s: string) {
    && 2 <= |s| <= 64 && LowerAlnum(s[0])
    && forall i :: 1 <= i < |s| ==> LowerAlnum(s[i]) || s[i] == '-' || s[i] == '.' || s[i] == '_'
  }

  /** Exactly the anchored custom-name grammar, minus the reserved vendors. */
  predicate IsCustom(name: string) {
    var colon := IndexByte(name, ':');
    colon >= 0 && colon < |name| && VendorText(name[..colon]) && ActionText(name[colon + 1..])
    && name[..colon] != "core" && name[..colon] != "vaultys"
  }

  predicate Survives(name: string, registry: set<string>) {
    IsBuiltin(name) || (IsCustom(name) && name in registry)
  }

  /** What the registry filter computes: the surviving names, in order. */
  function Filter(names: seq<string>, registry: set<string>): seq<string> {
    Keep(names, name => Survives(name, registry))
  }

  method FilterAgainstRegistry(names: seq<string>, registry: set<string>) returns (out: seq<string>)
    ensures out == Filter(names, registry)
  {
    out := [];
    for i := 0 to |names|
      invariant out == Filter(names[..i], registry)
    {
      var c := names[i];
      assert names[..i + 1][..i] == names[..i];
      if IsBuiltin(c) {
        out := out + [c];
        continue;
      }
      if !IsCustom(c) {
        continue;
      }
      if c in registry {
        out := out + [c];
      }
    }
    assert names[..|names|] == names;
  }

  /** Exactly the built-in and the still-registered custom names are left, and filtering again changes nothing. */
  lemma FilterMeans(names: seq<string>, registry: set<string>)
    ensures forall x :: x in Filter(names, registry) <==> x in names && Survives(x, registry)
    ensures Filter(Filter(names, registry), registry) == Filter(names, registry)
  {
    var wanted := name => Survives(name, registry);
    KeepMeans(names, wanted);
    KeepAll(Filter(names, registry), wanted);
  }

  lemma ColonFreeA() ensures forall s :: s in BUILTINS_A ==> ':' !in s {}

  lemma ColonFreeB() ensures forall s :: s in BUILTINS_B ==> ':' !in s {}

  lemma ColonFreeC() ensures forall s :: s in BUILTINS_C ==> ':' !in s {}

  lemma ColonFreeD() ensures forall s :: s in BUILTINS_D ==> ':' !in s {}

  lemma ColonFreeBuiltins(name: string)
    requires IsBuiltin(name)
    ensures ':' !in name
  {
    ColonFreeA();
    ColonFreeB();
    ColonFreeC();
    ColonFreeD();
    assert name in BUILTINS_A || name in BUILTINS_B || name in BUILTINS_C || name in BUILTINS_D;
  }

  lemma {:induction false} NoIndex(s: string, c: char)
    requires c !in s
    ensures IndexByte(s, c) == -1
  {
    if s != "" {
      NoIndex(s[1..], c);
    }
  }

  /** A custom name can never shadow a built-in, so unregistering one never revokes a built-in. */
  lemma CustomNeverBuiltin(name: string)
    ensures !(IsBuiltin(name) && IsCustom(name))
  {
    if IsBuiltin(name) && IsCustom(name) {
      ColonFreeBuiltins(name);
      NoIndex(name, ':');
      assert false;
    }
  }

  // ---- custom names, in characters -------------------------------------------

  /** The written grammar of a vendor: `[a-z0-9][a-z0-9-]{1,31}`. */
  predicate VendorWritten(v: string) {
    && 2 <= |v| <= 32
    && forall i :: 0 <= i < |v| ==> 'a' <= v[i] <= 'z' || '0' <= v[i] <= '9' || (i > 0 && v[i] == '-')
  }

  /** The written grammar of an action: `[a-z0-9][a-z0-9._-]{1,63}`. */
  predicate ActionWritten(t: string) {
    && 2 <= |t| <= 64
    && forall i :: 0 <= i < |t| ==>
         'a' <= t[i] <= 'z' || '0' <= t[i] <= '9' || (i > 0 && (t[i] == '.' || t[i] == '_' || t[i] == '-'))
  }

  lemma {:induction false} FirstColon(v: string, t: string)
    requires ':' !in v
    ensures IndexByte(v + ":" + t, ':') == |v|
  {
    var s := v + ":" + t;
    if v != "" {
      assert s[1..] == v[1..] + ":" + t;
      FirstColon(v[1..], t);
    }
  }

  lemma VendorExactly(v: string)
    ensures VendorText(v) <==> VendorWritten(v)
  {
  }

  lemma ActionExactly(t: string)
    ensures ActionText(t) <==> ActionWritten(t)
  {
  }

  /** A custom name is a vendor, a colon and an action, of a vendor nobody reserved; nothing without a colon is one. */
  lemma CustomExactly(v: string, t: string)
    requires ':' !in v
    ensures IsCustom(v + ":" + t) <==> VendorWritten(v) && ActionWritten(t) && v != "core" && v != "vaultys"
    ensures !IsCustom(v)
  {
    var name := v + ":" + t;
    FirstColon(v, t);
    NoIndex(v, ':');
    assert name[..|v|] == v && name[|v| + 1..] == t;
    VendorExactly(v);
    ActionExactly(t);
  }

  /** Every well-formed, unreserved, registered name a certificate lists is in what the filter returns. */
  lemma RegisteredIsKept(v: string, t: string, names: seq<string>, registry: set<string>)
    requires VendorWritten(v) && ActionWritten(t) && v != "core" && v != "vaultys"
    requires v + ":" + t in names && v + ":" + t in registry
    ensures v + ":" + t in Filter(names, registry)
  {
    assert ':' !in v;
    CustomExactly(v, t);
    FilterMeans(names, registry);
  }

  /** The filter works name by name: order and repetition are kept. */
  lemma FilterSplits(a: seq<string>, b: seq<string>, x: string, registry: set<string>)
    ensures Filter(a + b, registry) == Filter(a, registry) + Filter(b, registry)
    ensures Filter([x], registry) == if Survives(x, registry) then [x] else []
  {
    var wanted := name => Survives(name, registry);
    KeepSplits(a, b, wanted);
    KeepOne(x, wanted);
  }

  lemma PartsAreClosed(name: string)
    ensures name in BUILTINS_A
            <==> name == "file_read" || name == "file_write" || name == "file_access" || name == "internet_access"
    ensures name in BUILTINS_B
            <==> name == "browser_control" || name == "api_call" || name == "mail_send" || name == "code_execution"
  {
  }

  lemma MorePartsAreClosed(name: string)
    ensures name in BUILTINS_C
            <==> || name == "system_command" || name == "agent_communication"
                 || name == "knowledge_search" || name == "admin_console_access"
    ensures name in BUILTINS_D
            <==> || name == "portal_access" || name == "process_read"
                 || name == "non_delegatable" || name == "delegation"
  {
  }

  /** The built-ins are a closed list: these sixteen names and no other. */
  lemma BuiltinsExactly(name: string)
    ensures IsBuiltin(name)
            <==> || name == "file_read" || name == "file_write" || name == "file_access" || name == "internet_access"
                 || name == "browser_control" || name == "api_call" || name == "mail_send" || name == "code_execution"
                 || name == "system_command" || name == "agent_communication" || name == "knowledge_search"
                 || name == "admin_console_access" || name == "portal_access" || name == "process_read"
                 || name == "non_delegatable" || name == "delegation"
  {
    PartsAreClosed(name);
    MorePartsAreClosed(name);
    assert name in BUILTINS <==> name in BUILTINS_A || name in BUILTINS_B || name in BUILTINS_C || name in BUILTINS_D;
  }

  /** A name as a vendor, a colon and an action of the written grammar, of a vendor nobody reserved. */
  ghost predicate WrittenCustom(name: string) {
    exists v, t :: name == v + ":" + t && VendorWritten(v) && ActionWritten(t) && v != "core" && v != "vaultys"
  }

  lemma {:induction false} ColonCuts(name: string)
    requires ':' in name
    ensures exists v, t :: name == v + ":" + t && ':' !in v
  {
    if name[0] == ':' {
      assert name == "" + ":" + name[1..];
    } else {
      ColonCuts(name[1..]);
      var v, t :| name[1..] == v + ":" + t && ':' !in v;
      assert name == ([name[0]] + v) + ":" + t;
    }
  }

  lemma CustomIsWritten(name: string)
    ensures IsCustom(name) <==> WrittenCustom(name)
  {
    if v, t :| name == v + ":" + t && VendorWritten(v) && ActionWritten(t) && v != "core" && v != "vaultys" {
      assert ':' !in v;
      CustomExactly(v, t);
    }
    if ':' in name {
      ColonCuts(name);
      var v, t :| name == v + ":" + t && ':' !in v;
      CustomExactly(v, t);
    } else {
      NoIndex(name, ':');
    }
  }

  /**
   * What the filter leaves of a certificate: its built-ins, and its well-formed unreserved names
   * that are registered.
   */
  lemma FilterExactly(names: seq<string>, registry: set<string>, x: string)
    ensures x in Filter(names, registry) <==> x in names && (IsBuiltin(x) || (x in registry && WrittenCustom(x)))
  {
    FilterMeans(names, registry);
    CustomIsWritten(x);
  }
}
