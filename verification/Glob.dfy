/**
 * The `*`-glob of certificate scopes: split at stars, quote each literal segment,
 * join with `.*`, anchor, compile, match. One definition covers both twins — Go's
 * `matchesPattern` and the TypeScript original — which differ only in the characters
 * that `.` refuses.
 */
module Glob {
  import opened Prelude
  import opened Text

  datatype Dialect = GoRegexp | JsRegExp

  /** What `.` does not match, over ASCII. */
  predicate LineBreak(d: Dialect, c: char) {
    c == '\n' || (d.JsRegExp? && c == '\r')
  }

  predicate BreakFree(d: Dialect, s: string) {
    forall i :: 0 <= i < |s| ==> !LineBreak(d, s[i])
  }

  // ---- the pattern text -------------------------------------------------

  function Split(s: string, sep: char): (r: seq<string>)
    ensures |r| > 0
  {
    if s == "" then [""]
    else if s[0] == sep then [""] + Split(s[1..], sep)
    else var r := Split(s[1..], sep); [[s[0]] + r[0]] + r[1..]
  }

  function Join(parts: seq<string>, sep: string): string
    requires |parts| > 0
  {
    if |parts| == 1 then parts[0] else parts[0] + sep + Join(parts[1..], sep)
  }

  /** What quoting escapes: Go's `QuoteMeta`, and the replacement class of the TypeScript twin. */
  predicate IsMeta(c: char) {
    || c == '\\' || c == '.' || c == '+' || c == '*' || c == '?' || c == '(' || c == ')'
    || c == '|' || c == '[' || c == ']' || c == '{' || c == '}' || c == '^' || c == '$'
  }

  function QuoteChar(c: char): string {
    if IsMeta(c) then ['\\', c] else [c]
  }

  function QuoteMeta(s: string): string {
    if s == "" then "" else QuoteChar(s[0]) + QuoteMeta(s[1..])
  }

  function QuoteAll(parts: seq<string>): (r: seq<string>)
    ensures |r| == |parts|
    ensures forall i :: 0 <= i < |parts| ==> r[i] == QuoteMeta(parts[i])
  {
    seq(|parts|, i requires 0 <= i < |parts| => QuoteMeta(parts[i]))
  }

  function RegexText(pattern: string): string {
    "^" + Join(QuoteAll(Split(pattern, '*')), ".*") + "$"
  }

  // ---- the fragment of regular expressions that text lies in ---------------

  datatype Atom = Lit(c: char) | AnyRun

  /** The characters that either regular-expression syntax gives a meaning of their own. */
  predicate Special(c: char) {
    c in ['^', '$', '.', '*', '+', '?', '(', ')', '[', ']', '{', '}', '|', '\\']
  }

  /** Reads quoted characters, plain characters and `.*`; anything else is outside the fragment. */
  function ParseAtoms(t: string): Option<seq<Atom>> {
    if t == "" then Some([])
    else if t[0] == '\\' then
      if |t| < 2 || !Special(t[1]) then None
      else match ParseAtoms(t[2..])
           case None => None
           case Some(rest) => Some([Lit(t[1])] + rest)
    else if t[0] == '.' then
      if |t| < 2 || t[1] != '*' then None
      else match ParseAtoms(t[2..])
           case None => None
           case Some(rest) => Some([AnyRun] + rest)
    else if Special(t[0]) then None
    else match ParseAtoms(t[1..])
         case None => None
         case Some(rest) => Some([Lit(t[0])] + rest)
  }

  function Compile(text: string): Option<seq<Atom>> {
    if |text| >= 2 && text[0] == '^' && text[|text| - 1] == '$' then ParseAtoms(text[1..|text| - 1]) else None
  }

  /** Anchored matching. */
  predicate Matches(d: Dialect, atoms: seq<Atom>, v: string)
    decreases |v|, |atoms|
  {
    if atoms == [] then v == ""
    else if atoms[0].Lit? then v != "" && v[0] == atoms[0].c && Matches(d, atoms[1..], v[1..])
    else Matches(d, atoms[1..], v) || (v != "" && !LineBreak(d, v[0]) && Matches(d, atoms, v[1..]))
  }

  /** `matchesPattern`: a star-free pattern is a literal; a compile error never matches. */
  predicate Accepts(d: Dialect, pattern: string, value: string) {
    if '*' !in pattern then pattern == value
    else match Compile(RegexText(pattern))
         case None => false
         case Some(atoms) => Matches(d, atoms, value)
  }

  method MatchesPattern(d: Dialect, pattern: string, value: string) returns (ok: bool)
    ensures ok == Accepts(d, pattern, value)
  {
    if '*' !in pattern {
      return pattern == value;
    }
    var parts := Split(pattern, '*');
    ghost var whole := parts;
    var i := 0;
    while i < |parts|
      invariant 0 <= i <= |parts| == |whole|
      invariant forall k :: 0 <= k < i ==> parts[k] == QuoteMeta(whole[k])
      invariant forall k :: i <= k < |parts| ==> parts[k] == whole[k]
    {
      parts := parts[i := QuoteMeta(parts[i])];
      i := i + 1;
    }
    assert parts == QuoteAll(whole);
    match Compile("^" + Join(parts, ".*") + "$") {
      case None => return false;
      case Some(atoms) => return Matches(d, atoms, value);
    }
  }

  // ---- quoting is inert: the regex means the pattern, character by character --

  function PatternAtoms(p: string): seq<Atom> {
    if p == "" then [] else [if p[0] == '*' then AnyRun else Lit(p[0])] + PatternAtoms(p[1..])
  }

  lemma ParseQuotedChar(c: char, w: string)
    requires ParseAtoms(w).Some?
    ensures ParseAtoms(QuoteChar(c) + w) == Some([Lit(c)] + ParseAtoms(w).value)
  {
    var u := QuoteChar(c) + w;
    assert u[|QuoteChar(c)|..] == w;
  }

  lemma QuoteConcat(c: char, rest: string, t: string)
    ensures QuoteMeta([c] + rest) + t == QuoteChar(c) + (QuoteMeta(rest) + t)
  {
    assert ([c] + rest)[1..] == rest;
  }

  lemma PatternConcat(c: char, rest: string, a: seq<Atom>)
    requires c != '*'
    ensures PatternAtoms([c] + rest) + a == [Lit(c)] + (PatternAtoms(rest) + a)
  {
    assert ([c] + rest)[1..] == rest;
  }

  lemma {:induction false} ParseQuoted(s: string, t: string, a: seq<Atom>)
    requires ParseAtoms(t) == Some(a)
    requires '*' !in s
    ensures ParseAtoms(QuoteMeta(s) + t) == Some(PatternAtoms(s) + a)
  {
    if s == "" {
      assert QuoteMeta(s) + t == t;
      assert PatternAtoms(s) + a == a;
    } else {
      var c, rest := s[0], s[1..];
      assert s == [c] + rest;
      ParseQuoted(rest, t, a);
      ParseQuotedChar(c, QuoteMeta(rest) + t);
      QuoteConcat(c, rest, t);
      PatternConcat(c, rest, a);
    }
  }

  lemma {:induction false} SplitStarFree(p: string)
    ensures forall i :: 0 <= i < |Split(p, '*')| ==> '*' !in Split(p, '*')[i]
  {
    if p != "" {
      SplitStarFree(p[1..]);
    }
  }

  /** The atoms of the segments with a run between each two. */
  function SegmentAtoms(segs: seq<string>): seq<Atom>
    requires |segs| > 0
  {
    if |segs| == 1 then PatternAtoms(segs[0]) else PatternAtoms(segs[0]) + [AnyRun] + SegmentAtoms(segs[1..])
  }

  lemma {:induction false} SegmentAtomsOfSplit(p: string)
    ensures SegmentAtoms(Split(p, '*')) == PatternAtoms(p)
  {
    if p != "" {
      SegmentAtomsOfSplit(p[1..]);
      var r := Split(p[1..], '*');
      var s := Split(p, '*');
      if p[0] == '*' {
        assert s[1..] == r && s[0] == "";
      } else {
        assert s[0] == [p[0]] + r[0] && s[1..] == r[1..];
        assert s[0][1..] == r[0];
        assert PatternAtoms(s[0]) == [Lit(p[0])] + PatternAtoms(r[0]);
      }
    }
  }

  lemma ParseRun(t: string, a: seq<Atom>)
    requires ParseAtoms(t) == Some(a)
    ensures ParseAtoms(".*" + t) == Some([AnyRun] + a)
  {
    assert (".*" + t)[2..] == t;
  }

  lemma {:induction false} ParseJoined(segs: seq<string>)
    requires |segs| > 0
    requires forall i :: 0 <= i < |segs| ==> '*' !in segs[i]
    ensures ParseAtoms(Join(QuoteAll(segs), ".*")) == Some(SegmentAtoms(segs))
  {
    var q := QuoteAll(segs);
    if |segs| == 1 {
      ParseQuoted(segs[0], "", []);
      assert q[0] + "" == q[0];
      assert PatternAtoms(segs[0]) + [] == PatternAtoms(segs[0]);
    } else {
      ParseJoined(segs[1..]);
      assert q[1..] == QuoteAll(segs[1..]);
      var tail, rest := Join(q[1..], ".*"), SegmentAtoms(segs[1..]);
      ParseRun(tail, rest);
      ParseQuoted(segs[0], ".*" + tail, [AnyRun] + rest);
      Regroup(q[0], ".*", tail);
      Regroup(PatternAtoms(segs[0]), [AnyRun], rest);
    }
  }

  /** Compilation always succeeds, and every metacharacter of the pattern stays a literal. */
  lemma QuotingIsInert(p: string)
    ensures Compile(RegexText(p)) == Some(PatternAtoms(p))
  {
    var segs := Split(p, '*');
    SplitStarFree(p);
    ParseJoined(segs);
    SegmentAtomsOfSplit(p);
    var body := Join(QuoteAll(segs), ".*");
    assert RegexText(p)[1..|RegexText(p)| - 1] == body;
  }

  // ---- the meaning: segments in order, break-free fillers between ---------

  function Interleave(segs: seq<string>, fillers: seq<string>): string
    requires |segs| == |fillers| + 1
  {
    if fillers == [] then segs[0] else segs[0] + fillers[0] + Interleave(segs[1..], fillers[1..])
  }

  ghost predicate Fills(d: Dialect, segs: seq<string>, fillers: seq<string>, v: string) {
    && |segs| == |fillers| + 1
    && (forall i :: 0 <= i < |fillers| ==> BreakFree(d, fillers[i]))
    && v == Interleave(segs, fillers)
  }

  lemma {:induction false} MatchLiteral(d: Dialect, s: string, rest: seq<Atom>, v: string)
    requires '*' !in s
    ensures Matches(d, PatternAtoms(s) + rest, v) <==> HasPrefix(v, s) && Matches(d, rest, v[|s|..])
  {
    var atoms := PatternAtoms(s) + rest;
    if s == "" {
      assert atoms == rest && v[0..] == v;
    } else {
      assert atoms[0] == Lit(s[0]) && atoms[1..] == PatternAtoms(s[1..]) + rest;
      if v != "" && v[0] == s[0] {
        MatchLiteral(d, s[1..], rest, v[1..]);
        assert HasPrefix(v, s) <==> HasPrefix(v[1..], s[1..]);
        if HasPrefix(v, s) {
          assert v[1..][|s| - 1..] == v[|s|..];
        }
      }
    }
  }

  /** A run followed by `rest` matches iff some break-free prefix can be skipped. */
  lemma {:induction false} MatchRun(d: Dialect, rest: seq<Atom>, v: string)
    ensures Matches(d, [AnyRun] + rest, v)
            <==> exists k :: 0 <= k <= |v| && BreakFree(d, v[..k]) && Matches(d, rest, v[k..])
  {
    assert ([AnyRun] + rest)[1..] == rest;
    assert v[0..] == v && BreakFree(d, v[..0]);
    if v != "" {
      var w := v[1..];
      MatchRun(d, rest, w);
      if !LineBreak(d, v[0]) && Matches(d, [AnyRun] + rest, w) {
        var k :| 0 <= k <= |w| && BreakFree(d, w[..k]) && Matches(d, rest, w[k..]);
        assert v[..k + 1] == [v[0]] + w[..k] && v[k + 1..] == w[k..];
        assert BreakFree(d, v[..k + 1]);
      }
      if k :| 0 < k <= |v| && BreakFree(d, v[..k]) && Matches(d, rest, v[k..]) {
        assert w[..k - 1] == v[..k][1..] && w[k - 1..] == v[k..] && v[..k][0] == v[0];
        assert BreakFree(d, w[..k - 1]);
      }
    }
  }

  /** Cuts a match at its first run. */
  lemma CutMatch(d: Dialect, s: string, rest: seq<Atom>, v: string) returns (filler: string, after: string)
    requires '*' !in s
    requires Matches(d, PatternAtoms(s) + ([AnyRun] + rest), v)
    ensures v == s + (filler + after) && BreakFree(d, filler) && Matches(d, rest, after)
  {
    MatchLiteral(d, s, [AnyRun] + rest, v);
    var w := v[|s|..];
    MatchRun(d, rest, w);
    var k :| 0 <= k <= |w| && BreakFree(d, w[..k]) && Matches(d, rest, w[k..]);
    filler, after := w[..k], w[k..];
  }

  lemma OnlySegment(d: Dialect, s: string, v: string)
    requires '*' !in s
    ensures Matches(d, SegmentAtoms([s]), v) <==> v == s
  {
    MatchLiteral(d, s, [], v);
    assert PatternAtoms(s) + [] == SegmentAtoms([s]);
    if HasPrefix(v, s) { assert v == s + v[|s|..]; }
  }

  lemma FillsCons(d: Dialect, s: string, rest: seq<string>, filler: string, fs: seq<string>, after: string)
    requires Fills(d, rest, fs, after) && BreakFree(d, filler)
    ensures Fills(d, [s] + rest, [filler] + fs, s + (filler + after))
  {
    var segs, fillers := [s] + rest, [filler] + fs;
    assert segs[1..] == rest && fillers[1..] == fs;
    assert s + filler + after == s + (filler + after);
  }

  lemma {:induction false} MatchGivesFillers(d: Dialect, segs: seq<string>, v: string) returns (fillers: seq<string>)
    requires |segs| > 0
    requires forall i :: 0 <= i < |segs| ==> '*' !in segs[i]
    requires Matches(d, SegmentAtoms(segs), v)
    ensures Fills(d, segs, fillers, v)
  {
    if |segs| == 1 {
      fillers := [];
      assert segs == [segs[0]];
      OnlySegment(d, segs[0], v);
    } else {
      var rest := segs[1..];
      assert SegmentAtoms(segs) == PatternAtoms(segs[0]) + ([AnyRun] + SegmentAtoms(rest));
      var filler, after := CutMatch(d, segs[0], SegmentAtoms(rest), v);
      var fs := MatchGivesFillers(d, rest, after);
      fillers := [filler] + fs;
      FillsCons(d, segs[0], rest, filler, fs, after);
      assert segs == [segs[0]] + rest;
    }
  }

  lemma {:induction false} FillersGiveMatch(d: Dialect, segs: seq<string>, v: string, fillers: seq<string>)
    requires Fills(d, segs, fillers, v)
    requires forall i :: 0 <= i < |segs| ==> '*' !in segs[i]
    ensures Matches(d, SegmentAtoms(segs), v)
  {
    var s := segs[0];
    if |segs| == 1 {
      MatchLiteral(d, s, [], v);
      assert PatternAtoms(s) + [] == SegmentAtoms(segs);
    } else {
      var rest := segs[1..];
      var tail := Interleave(rest, fillers[1..]);
      var w := fillers[0] + tail;
      assert v == s + w;
      var k := |fillers[0]|;
      assert w[..k] == fillers[0] && w[k..] == tail;
      FillersGiveMatch(d, rest, tail, fillers[1..]);
      MatchRun(d, SegmentAtoms(rest), w);
      MatchLiteral(d, s, [AnyRun] + SegmentAtoms(rest), v);
      assert SegmentAtoms(segs) == PatternAtoms(s) + ([AnyRun] + SegmentAtoms(rest));
      assert v[|s|..] == w;
    }
  }

  lemma AcceptsAtoms(d: Dialect, p: string, v: string)
    ensures Accepts(d, p, v) <==> Matches(d, PatternAtoms(p), v)
  {
    QuotingIsInert(p);
    if '*' !in p {
      MatchLiteral(d, p, [], v);
      assert PatternAtoms(p) + [] == PatternAtoms(p);
      if HasPrefix(v, p) && v[|p|..] == "" {
        assert v == p + v[|p|..];
      }
    }
  }

  /** What a glob means, for every pattern (starred or not), value and dialect. */
  lemma GlobMeaning(d: Dialect, p: string, v: string)
    ensures Accepts(d, p, v) <==> exists fillers :: Fills(d, Split(p, '*'), fillers, v)
  {
    AcceptsAtoms(d, p, v);
    SegmentAtomsOfSplit(p);
    SplitStarFree(p);
    var segs := Split(p, '*');
    if Matches(d, SegmentAtoms(segs), v) {
      var fillers := MatchGivesFillers(d, segs, v);
    }
    if fillers :| Fills(d, segs, fillers, v) {
      FillersGiveMatch(d, segs, v, fillers);
    }
  }

  // ---- the greedy leftmost matcher decides the same relation --------------

  /** Where `s` first occurs after a break-free stretch. */
  function FirstFit(d: Dialect, s: string, v: string): (r: Option<nat>)
    ensures r.Some? ==> r.value + |s| <= |v|
  {
    if HasPrefix(v, s) then Some(0)
    else if v == "" || LineBreak(d, v[0]) then None
    else match FirstFit(d, s, v[1..])
         case None => None
         case Some(k) => Some(k + 1)
  }

  predicate GreedyRest(d: Dialect, segs: seq<string>, v: string)
    requires |segs| > 0
  {
    var s := segs[0];
    if |segs| == 1 then HasSuffix(v, s) && BreakFree(d, v[..|v| - |s|])
    else match FirstFit(d, s, v)
         case None => false
         case Some(k) => GreedyRest(d, segs[1..], v[k..][|s|..])
  }

  ghost predicate FitsAt(d: Dialect, s: string, v: string, k: nat) {
    k <= |v| && HasPrefix(v[k..], s) && BreakFree(d, v[..k])
  }

  lemma BreakFreeCons(d: Dialect, c: char, s: string)
    ensures BreakFree(d, [c] + s) <==> !LineBreak(d, c) && BreakFree(d, s)
  {
    var t := [c] + s;
    if BreakFree(d, t) {
      assert t[0] == c;
      forall i | 0 <= i < |s| ensures !LineBreak(d, s[i]) { assert t[i + 1] == s[i]; }
    }
  }

  lemma FitShift(d: Dialect, s: string, v: string, k: nat)
    requires v != "" && 0 < k
    ensures FitsAt(d, s, v, k) <==> !LineBreak(d, v[0]) && FitsAt(d, s, v[1..], k - 1)
  {
    if k <= |v| {
      assert v[k..] == v[1..][k - 1..];
      assert v[..k] == [v[0]] + v[1..][..k - 1];
      BreakFreeCons(d, v[0], v[1..][..k - 1]);
    }
  }

  lemma {:induction false} FirstFitIsFirst(d: Dialect, s: string, v: string)
    ensures match FirstFit(d, s, v)
            case None => forall k: nat :: !FitsAt(d, s, v, k)
            case Some(j) => FitsAt(d, s, v, j) && forall k: nat :: FitsAt(d, s, v, k) ==> j <= k
  {
    assert v[0..] == v;
    if !HasPrefix(v, s) && v != "" {
      forall k: nat | 0 < k
        ensures FitsAt(d, s, v, k) <==> !LineBreak(d, v[0]) && FitsAt(d, s, v[1..], k - 1)
      {
        FitShift(d, s, v, k);
      }
      if !LineBreak(d, v[0]) {
        FirstFitIsFirst(d, s, v[1..]);
        var fit := FirstFit(d, s, v[1..]);
        if fit.Some? { FitShift(d, s, v, fit.value + 1); }
      }
    }
  }

  predicate Greedy(d: Dialect, p: string, v: string) {
    var segs := Split(p, '*');
    if |segs| == 1 then v == segs[0]
    else HasPrefix(v, segs[0]) && GreedyRest(d, segs[1..], v[|segs[0]|..])
  }

  /** A break-free stretch can always be added in front of a run. */
  lemma RunAbsorbs(d: Dialect, rest: seq<Atom>, v: string, m: nat)
    requires m <= |v| && BreakFree(d, v[..m])
    requires Matches(d, [AnyRun] + rest, v[m..])
    ensures Matches(d, [AnyRun] + rest, v)
  {
    MatchRun(d, rest, v[m..]);
    var k :| 0 <= k <= |v[m..]| && BreakFree(d, v[m..][..k]) && Matches(d, rest, v[m..][k..]);
    assert v[m..][k..] == v[m + k..];
    assert BreakFree(d, v[..m + k]) by {
      var pre := v[..m + k];
      forall i | 0 <= i < |pre| ensures !LineBreak(d, pre[i]) {
        if i < m { assert v[..m][i] == v[i]; } else { assert v[m..][..k][i - m] == v[i]; }
      }
    }
    MatchRun(d, rest, v);
  }

  /** A segment that fits twice, each time after a break-free stretch, holds no line break itself. */
  lemma {:induction false} FitsTwice(d: Dialect, s: string, v: string, k: nat, l: nat, i: nat)
    requires k < l && l + |s| <= |v|
    requires forall j :: 0 <= j < |s| ==> v[k + j] == s[j] && v[l + j] == s[j]
    requires forall j :: 0 <= j < l ==> !LineBreak(d, v[j])
    requires i < |s|
    ensures !LineBreak(d, s[i])
    decreases i
  {
    assert s[i] == v[k + i];
    if k + i >= l {
      var j := k + i - l;
      assert v[l + j] == s[j];
      FitsTwice(d, s, v, k, l, j);
    }
  }

  /** Between two admissible occurrences of a segment, everything up to the end of the later one is break-free. */
  lemma LaterFit(d: Dialect, s: string, v: string, k: nat, l: nat)
    requires k <= l <= |v|
    requires HasPrefix(v[k..], s) && HasPrefix(v[l..], s)
    requires BreakFree(d, v[..l])
    ensures k + |s| <= l + |s| <= |v| && BreakFree(d, v[k + |s|..l + |s|])
  {
    forall j | 0 <= j < |s| ensures v[k + j] == s[j] && v[l + j] == s[j] {
      assert s[j] == v[k..][j] && s[j] == v[l..][j];
    }
    forall j | 0 <= j < l ensures !LineBreak(d, v[j]) {
      assert v[..l][j] == v[j];
    }
    var u := v[k + |s|..l + |s|];
    forall i | 0 <= i < |u| ensures !LineBreak(d, u[i]) {
      var q := k + |s| + i;
      if q >= l {
        assert u[i] == v[l + (q - l)] == s[q - l];
        FitsTwice(d, s, v, k, l, q - l);
      }
    }
  }

  /** After a run, a match is a break-free stretch, the first segment, and a match of what follows it. */
  lemma RunThenSegment(d: Dialect, s: string, tail: seq<Atom>, v: string)
    requires '*' !in s
    ensures Matches(d, [AnyRun] + (PatternAtoms(s) + tail), v)
            <==> exists k: nat :: FitsAt(d, s, v, k) && Matches(d, tail, v[k..][|s|..])
  {
    MatchRun(d, PatternAtoms(s) + tail, v);
    forall k | 0 <= k <= |v|
      ensures Matches(d, PatternAtoms(s) + tail, v[k..]) <==> HasPrefix(v[k..], s) && Matches(d, tail, v[k..][|s|..])
    {
      MatchLiteral(d, s, tail, v[k..]);
    }
    if k: nat :| FitsAt(d, s, v, k) && Matches(d, tail, v[k..][|s|..]) {
      assert Matches(d, PatternAtoms(s) + tail, v[k..]);
    }
  }

  lemma LastSegment(d: Dialect, s: string, v: string)
    requires '*' !in s
    ensures Matches(d, [AnyRun] + (PatternAtoms(s) + []), v) <==> HasSuffix(v, s) && BreakFree(d, v[..|v| - |s|])
  {
    RunThenSegment(d, s, [], v);
    if HasSuffix(v, s) && BreakFree(d, v[..|v| - |s|]) {
      var k := |v| - |s|;
      assert v[k..][|s|..] == "";
      assert FitsAt(d, s, v, k);
    }
    if k: nat :| FitsAt(d, s, v, k) && Matches(d, [], v[k..][|s|..]) {
      assert v[k..] == s + v[k..][|s|..] == s;
      assert k == |v| - |s|;
    }
  }

  /** If any admissible occurrence leads to a match, an earlier one does. */
  lemma EarliestIsBest(d: Dialect, s: string, rest: seq<Atom>, v: string, k: nat, l: nat)
    requires k <= l && FitsAt(d, s, v, k) && FitsAt(d, s, v, l)
    requires Matches(d, [AnyRun] + rest, v[l..][|s|..])
    ensures Matches(d, [AnyRun] + rest, v[k..][|s|..])
  {
    LaterFit(d, s, v, k, l);
    var u := v[k..][|s|..];
    assert u[..l - k] == v[k + |s|..l + |s|] && u[l - k..] == v[l..][|s|..];
    RunAbsorbs(d, rest, u, l - k);
  }

  lemma FirstFitDecides(d: Dialect, s: string, rest: seq<Atom>, v: string)
    requires '*' !in s
    ensures Matches(d, [AnyRun] + (PatternAtoms(s) + ([AnyRun] + rest)), v)
            <==> FirstFit(d, s, v).Some? && Matches(d, [AnyRun] + rest, v[FirstFit(d, s, v).value..][|s|..])
  {
    RunThenSegment(d, s, [AnyRun] + rest, v);
    FirstFitIsFirst(d, s, v);
    if l: nat :| FitsAt(d, s, v, l) && Matches(d, [AnyRun] + rest, v[l..][|s|..]) {
      EarliestIsBest(d, s, rest, v, FirstFit(d, s, v).value, l);
    }
  }

  lemma {:induction false} GreedyRestDecides(d: Dialect, segs: seq<string>, v: string)
    requires |segs| > 0
    requires forall i :: 0 <= i < |segs| ==> '*' !in segs[i]
    ensures GreedyRest(d, segs, v) <==> Matches(d, [AnyRun] + SegmentAtoms(segs), v)
    decreases |segs|
  {
    var s := segs[0];
    if |segs| == 1 {
      LastSegment(d, s, v);
      assert SegmentAtoms(segs) == PatternAtoms(s) + [];
    } else {
      var rest := SegmentAtoms(segs[1..]);
      assert SegmentAtoms(segs) == PatternAtoms(s) + ([AnyRun] + rest);
      FirstFitDecides(d, s, rest, v);
      if FirstFit(d, s, v).Some? {
        GreedyRestDecides(d, segs[1..], v[FirstFit(d, s, v).value..][|s|..]);
      }
    }
  }

  /** Leftmost search with no backtracking decides exactly the regex relation. */
  lemma GreedyDecidesGlob(d: Dialect, p: string, v: string)
    ensures Greedy(d, p, v) <==> Accepts(d, p, v)
  {
    var segs := Split(p, '*');
    AcceptsAtoms(d, p, v);
    SegmentAtomsOfSplit(p);
    SplitStarFree(p);
    var s := segs[0];
    if |segs| == 1 {
      MatchLiteral(d, s, [], v);
      assert SegmentAtoms(segs) == PatternAtoms(s) + [];
      if HasPrefix(v, s) { assert v == s + v[|s|..]; }
    } else {
      var tail := [AnyRun] + SegmentAtoms(segs[1..]);
      assert SegmentAtoms(segs) == PatternAtoms(s) + tail;
      MatchLiteral(d, s, tail, v);
      if HasPrefix(v, s) { GreedyRestDecides(d, segs[1..], v[|s|..]); }
    }
  }

  // ---- collapsing runs of stars ------------------------------------------

  function Collapse(p: string): string {
    if |p| >= 2 && p[0] == '*' && p[1] == '*' then Collapse(p[1..])
    else if p == "" then ""
    else [p[0]] + Collapse(p[1..])
  }

  lemma {:induction false} DoubleRun(d: Dialect, rest: seq<Atom>, v: string)
    ensures Matches(d, [AnyRun, AnyRun] + rest, v) <==> Matches(d, [AnyRun] + rest, v)
  {
    var one := [AnyRun] + rest;
    assert [AnyRun, AnyRun] + rest == [AnyRun] + one;
    MatchRun(d, one, v);
    if k :| 0 <= k <= |v| && BreakFree(d, v[..k]) && Matches(d, one, v[k..]) {
      RunAbsorbs(d, rest, v, k);
    }
    if Matches(d, one, v) {
      assert v[0..] == v && BreakFree(d, v[..0]);
    }
  }

  lemma {:induction false} CollapseMatches(d: Dialect, p: string, v: string)
    ensures Matches(d, PatternAtoms(Collapse(p)), v) <==> Matches(d, PatternAtoms(p), v)
    decreases |p|, |v|
  {
    if |p| >= 2 && p[0] == '*' && p[1] == '*' {
      CollapseMatches(d, p[1..], v);
      var rest := PatternAtoms(p[1..][1..]);
      assert PatternAtoms(p[1..]) == [AnyRun] + rest;
      assert PatternAtoms(p) == [AnyRun, AnyRun] + rest;
      DoubleRun(d, rest, v);
    } else if p != "" {
      var q := Collapse(p);
      assert q[0] == p[0] && q[1..] == Collapse(p[1..]);
      var atoms, collapsed := PatternAtoms(p), PatternAtoms(q);
      assert atoms[1..] == PatternAtoms(p[1..]) && collapsed[1..] == PatternAtoms(Collapse(p[1..]));
      CollapseMatches(d, p[1..], v);
      if v != "" {
        CollapseMatches(d, p[1..], v[1..]);
        CollapseMatches(d, p, v[1..]);
      }
    }
  }

  lemma CollapsingStars(d: Dialect, p: string, v: string)
    ensures Accepts(d, Collapse(p), v) <==> Accepts(d, p, v)
  {
    AcceptsAtoms(d, p, v);
    AcceptsAtoms(d, Collapse(p), v);
    CollapseMatches(d, p, v);
  }

  // ---- the two twins -----------------------------------------------------

  lemma {:induction false} JsMatchesGoMatches(atoms: seq<Atom>, v: string)
    requires Matches(JsRegExp, atoms, v)
    ensures Matches(GoRegexp, atoms, v)
    decreases |v|, |atoms|
  {
    if atoms != [] {
      if atoms[0].Lit? {
        JsMatchesGoMatches(atoms[1..], v[1..]);
      } else if Matches(JsRegExp, atoms[1..], v) {
        JsMatchesGoMatches(atoms[1..], v);
      } else {
        JsMatchesGoMatches(atoms, v[1..]);
      }
    }
  }

  lemma {:induction false} SameWithoutReturns(atoms: seq<Atom>, v: string)
    requires '\r' !in v
    ensures Matches(JsRegExp, atoms, v) == Matches(GoRegexp, atoms, v)
    decreases |v|, |atoms|
  {
    if atoms != [] {
      if atoms[0].AnyRun? {
        SameWithoutReturns(atoms[1..], v);
        if v != "" { SameWithoutReturns(atoms, v[1..]); }
      } else if v != "" {
        SameWithoutReturns(atoms[1..], v[1..]);
      }
    }
  }

  /** A JavaScript match accounts for every carriage return of the value by a literal one. */
  lemma {:induction false} ReturnsAreLiteral(p: string, v: string)
    requires Matches(JsRegExp, PatternAtoms(p), v)
    ensures CountChar(v, '\r') == CountChar(p, '\r')
    decreases |v|, |p|
  {
    if p != "" {
      assert PatternAtoms(p)[1..] == PatternAtoms(p[1..]);
      if p[0] != '*' {
        ReturnsAreLiteral(p[1..], v[1..]);
      } else if Matches(JsRegExp, PatternAtoms(p[1..]), v) {
        ReturnsAreLiteral(p[1..], v);
      } else {
        ReturnsAreLiteral(p, v[1..]);
      }
    }
  }

  lemma {:induction false} ValueAsPattern(a: string, p: string, v: string)
    requires Matches(GoRegexp, PatternAtoms(p), v)
    ensures Matches(GoRegexp, PatternAtoms(a + p), a + v)
  {
    if a == "" {
      assert a + p == p && a + v == v;
    } else {
      ValueAsPattern(a[1..], p, v);
      assert (a + p)[1..] == a[1..] + p && (a + v)[1..] == a[1..] + v;
      var atoms := PatternAtoms(a + p);
      assert atoms[1..] == PatternAtoms(a[1..] + p);
      if a[0] == '*' {
        var rest := atoms[1..];
        assert atoms == [AnyRun] + rest;
        var w := a + v;
        assert BreakFree(GoRegexp, w[..1]) && Matches(GoRegexp, rest, w[1..]);
        MatchRun(GoRegexp, rest, w);
      }
    }
  }

  lemma {:induction false} StringMatchesItself(a: string)
    ensures Matches(GoRegexp, PatternAtoms(a), a)
  {
    assert a + "" == a;
    ValueAsPattern(a, "", "");
  }

  /** Splits a value at its first carriage return. */
  lemma CutAtReturn(v: string) returns (a: string, b: string)
    requires '\r' in v
    ensures v == a + "\r" + b
  {
    var i :| 0 <= i < |v| && v[i] == '\r';
    a, b := v[..i], v[i + 1..];
  }

  /**
   * The twins agree on a value, whatever the pattern, exactly when the value holds no
   * carriage return; the TypeScript side never accepts more.
   */
  lemma TwinsAgreeExactly(v: string)
    ensures forall p :: Accepts(JsRegExp, p, v) ==> Accepts(GoRegexp, p, v)
    ensures (forall p :: Accepts(JsRegExp, p, v) == Accepts(GoRegexp, p, v)) <==> '\r' !in v
  {
    forall p
      ensures Accepts(JsRegExp, p, v) ==> Accepts(GoRegexp, p, v)
      ensures '\r' !in v ==> Accepts(JsRegExp, p, v) == Accepts(GoRegexp, p, v)
    {
      AcceptsAtoms(JsRegExp, p, v);
      AcceptsAtoms(GoRegexp, p, v);
      if Matches(JsRegExp, PatternAtoms(p), v) { JsMatchesGoMatches(PatternAtoms(p), v); }
      if '\r' !in v { SameWithoutReturns(PatternAtoms(p), v); }
    }
    if '\r' in v {
      var a, b := CutAtReturn(v);
      var p := a + ("*" + b);
      StringMatchesItself(b);
      assert PatternAtoms("*" + b) == [AnyRun] + PatternAtoms(b) by { assert ("*" + b)[1..] == b; }
      var w := "\r" + b;
      assert BreakFree(GoRegexp, w[..1]) && w[1..] == b;
      MatchRun(GoRegexp, PatternAtoms(b), w);
      ValueAsPattern(a, "*" + b, w);
      assert a + w == v;
      AcceptsAtoms(GoRegexp, p, v);
      AcceptsAtoms(JsRegExp, p, v);
      if Accepts(JsRegExp, p, v) {
        ReturnsAreLiteral(p, v);
        CountCharConcat(a, "*" + b, '\r');
        CountCharConcat("*", b, '\r');
        CountCharConcat(a, w, '\r');
        CountCharConcat("\r", b, '\r');
        assert false;
      }
      assert Accepts(GoRegexp, p, v) && !Accepts(JsRegExp, p, v);
    }
  }

  // ---- the same, in characters ----------------------------------------------

  lemma {:induction false} StarAfter(s: string)
    requires '*' !in s
    ensures PatternAtoms(s + "*") == PatternAtoms(s) + [AnyRun]
  {
    if s == "" {
      assert s + "*" == "*" && "*"[1..] == "";
    } else {
      assert (s + "*")[1..] == s[1..] + "*";
      StarAfter(s[1..]);
    }
  }

  lemma TailRun(d: Dialect, s: string, v: string)
    requires '*' !in s
    ensures Accepts(d, s + "*", v) <==> HasPrefix(v, s) && BreakFree(d, v[|s|..])
  {
    AcceptsAtoms(d, s + "*", v);
    StarAfter(s);
    MatchLiteral(d, s, [AnyRun], v);
    if HasPrefix(v, s) {
      var w := v[|s|..];
      MatchRun(d, [], w);
      assert [AnyRun] + [] == [AnyRun];
      assert w[..|w|] == w && w[|w|..] == "";
    }
  }

  /** A filler crosses every character but a newline, and in JavaScript a carriage return. */
  lemma FillersExactly(d: Dialect, w: string)
    ensures BreakFree(d, w) <==> '\n' !in w && (d.JsRegExp? ==> '\r' !in w)
  {
    forall c: char | c in w ensures exists i :: 0 <= i < |w| && w[i] == c {
    }
  }

  /** What one trailing star admits: slashes and all, up to a line break of the dialect. */
  lemma TailWildcard(s: string, w: string)
    requires '*' !in s
    ensures Accepts(GoRegexp, s + "*", s + w) <==> '\n' !in w
    ensures Accepts(JsRegExp, s + "*", s + w) <==> '\n' !in w && '\r' !in w
  {
    assert (s + w)[|s|..] == w;
    TailRun(GoRegexp, s, s + w);
    TailRun(JsRegExp, s, s + w);
    FillersExactly(GoRegexp, w);
    FillersExactly(JsRegExp, w);
  }

  /** The segments are the pattern cut at every star: nothing lost, no star left. */
  lemma {:induction false} SplitRejoins(p: string)
    ensures Join(Split(p, '*'), "*") == p
    ensures forall i :: 0 <= i < |Split(p, '*')| ==> '*' !in Split(p, '*')[i]
  {
    SplitStarFree(p);
    if p != "" {
      SplitRejoins(p[1..]);
      var r, s := Split(p[1..], '*'), Split(p, '*');
      if p[0] == '*' {
        assert s[1..] == r && s[0] == "";
        assert Join(s, "*") == "" + "*" + Join(r, "*");
      } else {
        assert s[0] == [p[0]] + r[0] && s[1..] == r[1..];
        if |r| > 1 {
          assert Join(s, "*") == ([p[0]] + r[0]) + "*" + Join(r[1..], "*");
          assert Join(r, "*") == r[0] + "*" + Join(r[1..], "*");
        }
        assert Join(s, "*") == [p[0]] + Join(r, "*");
      }
    }
  }
}
