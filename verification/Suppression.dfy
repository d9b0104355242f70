/** Ignore rules (src/analysis/suppress.rs): how a pattern matches a path, and how rule sets are built. */
module Suppression {
  import opened Wrappers
  import opened Strings

  /** `Regex::new`: which expressions compile, and to which predicate on strings. */
  type RegexNew = string -> Option<string -> bool>

  datatype Matcher = Subtree | Glob | Regex(isMatch: string -> bool)

  datatype Rule = Rule(raw: string, matcher: Matcher)

  datatype SuppressRules = SuppressRules(perEndpoint: map<string, seq<Rule>>)

  const REGEX_PREFIX := "re:"
  const NO_RULES := SuppressRules(map[])

  // ---------- matching ----------

  /** One segment for each `*`, and the same number of segments. */
  predicate GlobMatches(path: string, pattern: string) {
    var p, s := Split(path, '.'), Split(pattern, '.');
    |p| == |s| && forall i | 0 <= i < |p| :: s[i] == "*" || s[i] == p[i]
  }

  method GlobMatch(path: string, pattern: string) returns (matched: bool)
    ensures matched == GlobMatches(path, pattern)
  {
    var pathSegs, patSegs := Split(path, '.'), Split(pattern, '.');
    ghost var p, s := pathSegs, patSegs;
    ghost var n := 0;
    while true
      invariant n <= |p| && n <= |s| && pathSegs == p[n..] && patSegs == s[n..]
      invariant forall i | 0 <= i < n :: s[i] == "*" || s[i] == p[i]
      decreases |p| - n
    {
      if pathSegs == [] || patSegs == [] {
        return pathSegs == patSegs == [];
      }
      if patSegs[0] != "*" && pathSegs[0] != patSegs[0] {
        assert p[n] == pathSegs[0] && s[n] == patSegs[0];
        return false;
      }
      pathSegs, patSegs := pathSegs[1..], patSegs[1..];
      n := n + 1;
    }
  }

  /** Every prefix of `path` that ends where a dot follows, and `path` itself. */
  function AncestorPrefixes(path: string): seq<string> {
    PrefixesFrom(path, 0)
  }

  function PrefixesFrom(path: string, i: nat): seq<string>
    requires i <= |path|
    decreases |path| - i
  {
    if i == |path| then [path]
    else (if path[i] == '.' then [path[..i]] else []) + PrefixesFrom(path, i + 1)
  }

  predicate Matches(rule: Rule, path: string) {
    match rule.matcher
    case Subtree => path == rule.raw || rule.raw + "." <= path
    case Glob => GlobMatches(path, rule.raw)
    case Regex(isMatch) => exists prefix <- AncestorPrefixes(path) :: isMatch(prefix)
  }

  // ---------- building rule sets ----------

  function CompileRule(rx: RegexNew, raw: string): Result<Rule> {
    if REGEX_PREFIX <= raw then
      var re := rx(raw[|REGEX_PREFIX|..]);
      if re.Some? then Ok(Rule(raw, Regex(re.value))) else Err
    else if '*' in raw then Ok(Rule(raw, Glob))
    else Ok(Rule(raw, Subtree))
  }

  function CompileRules(rx: RegexNew, patterns: seq<string>): Result<seq<Rule>> {
    if patterns == [] then Ok([])
    else
      var first, rest := CompileRule(rx, patterns[0]), CompileRules(rx, patterns[1..]);
      if first.Ok? && rest.Ok? then Ok([first.value] + rest.value) else Err
  }

  function ForEndpoint(rx: RegexNew, endpoint: string, patterns: seq<string>): Result<SuppressRules> {
    if patterns == [] then Ok(NO_RULES)
    else
      var rules := CompileRules(rx, patterns);
      if rules.Ok? then Ok(SuppressRules(map[endpoint := rules.value])) else Err
  }

  function Raws(rules: seq<Rule>): seq<string> {
    if rules == [] then [] else [rules[0].raw] + Raws(rules[1..])
  }

  function PathsFor(s: SuppressRules, endpoint: string): seq<string> {
    if endpoint in s.perEndpoint then Raws(s.perEndpoint[endpoint]) else []
  }

  predicate AnyMatches(rules: seq<Rule>, path: string) {
    exists i | 0 <= i < |rules| :: Matches(rules[i], path)
  }

  predicate IsSuppressed(s: SuppressRules, endpoint: string, path: string) {
    endpoint in s.perEndpoint && AnyMatches(s.perEndpoint[endpoint], path)
  }

  function WithEndpoint(rx: RegexNew, s: SuppressRules, endpoint: string, patterns: seq<string>): Result<SuppressRules>
  {
    if patterns == [] then Ok(SuppressRules(s.perEndpoint - {endpoint}))
    else
      var rules := CompileRules(rx, patterns);
      if rules.Ok? then Ok(SuppressRules(s.perEndpoint[endpoint := rules.value])) else Err
  }

  datatype EndpointConfig = EndpointConfig(pattern: string, suppressPaths: seq<string>)

  /** The patterns a configuration gives an endpoint: those of its last entry that has any. */
  function ConfiguredPaths(endpoints: seq<EndpointConfig>, endpoint: string): seq<string> {
    if endpoints == [] then []
    else
      var n := |endpoints| - 1;
      if endpoints[n].pattern == endpoint && endpoints[n].suppressPaths != [] then endpoints[n].suppressPaths
      else ConfiguredPaths(endpoints[..n], endpoint)
  }

  method FromConfig(rx: RegexNew, endpoints: seq<EndpointConfig>) returns (r: Result<SuppressRules>)
    ensures r.Err? <==> exists c <- endpoints :: CompileRules(rx, c.suppressPaths).Err?
    ensures r.Ok? ==> WellCompiled(rx, r.value) && forall e :: PathsFor(r.value, e) == ConfiguredPaths(endpoints, e)
  {
    var perEndpoint: map<string, seq<Rule>> := map[];
    for i := 0 to |endpoints|
      invariant forall c <- endpoints[..i] :: CompileRules(rx, c.suppressPaths).Ok?
      invariant WellCompiled(rx, SuppressRules(perEndpoint))
      invariant forall e :: PathsFor(SuppressRules(perEndpoint), e) == ConfiguredPaths(endpoints[..i], e)
    {
      var c := endpoints[i];
      assert endpoints[..i + 1] == endpoints[..i] + [c];
      assert endpoints[..i + 1][..i] == endpoints[..i];
      if c.suppressPaths != [] {
        var rules := CompileRules(rx, c.suppressPaths);
        if rules.Err? {
          assert c in endpoints;
          return Err;
        }
        RawsOfCompiled(rx, c.suppressPaths);
        perEndpoint := perEndpoint[c.pattern := rules.value];
      }
    }
    assert endpoints[..|endpoints|] == endpoints;
    r := Ok(SuppressRules(perEndpoint));
  }

  // ---------- string matching is segment matching ----------

  lemma PrefixAtDot(head: string, rest: seq<string>, later: seq<string>, k: nat)
    requires |later| == |rest| && k <= |rest|
    requires k > 0 ==> later[k - 1] == head + "." + Join(rest[..k], '.')
    ensures ([head] + later)[k] == head + Join(([""] + rest)[..k + 1], '.')
  {
    var t := ([""] + rest)[..k + 1];
    if k == 0 {
      assert t == [""];
    } else {
      assert t[1..] == rest[..k];
      assert Join(t, '.') == "" + "." + Join(rest[..k], '.') == "." + Join(rest[..k], '.');
    }
  }

  lemma PrefixInSegment(head: string, c: char, rest: seq<string>, later: seq<string>, k: nat)
    requires |later| == |rest| && k < |rest| && later[k] == head + [c] + Join(rest[..k + 1], '.')
    ensures later[k] == head + Join(([[c] + rest[0]] + rest[1..])[..k + 1], '.')
  {
    var t := ([[c] + rest[0]] + rest[1..])[..k + 1];
    assert t[1..] == rest[..k + 1][1..];
    assert Join(t, '.') == [c] + Join(rest[..k + 1], '.');
  }

  lemma SplitFrom(path: string, i: nat)
    requires i < |path|
    ensures var rest := Split(path[i + 1..], '.');
      Split(path[i..], '.') == if path[i] == '.' then [""] + rest else [[path[i]] + rest[0]] + rest[1..]
  {
    assert path[i..][1..] == path[i + 1..] && path[i..][0] == path[i];
  }

  lemma LastPrefix(path: string)
    ensures Split(path[|path|..], '.') == [""] && PrefixesFrom(path, |path|) == [path]
    ensures path[..|path|] + Join([""][..1], '.') == path
  {
    assert path[|path|..] == "" && [""][..1] == [""];
  }

  /** The k-th prefix listed from position `i` on ends with the k-th segment that ends there or later. */
  lemma {:induction false} PrefixesFromExact(path: string, i: nat, k: nat)
    requires i <= |path| && k < |Split(path[i..], '.')|
    ensures |PrefixesFrom(path, i)| == |Split(path[i..], '.')|
    ensures PrefixesFrom(path, i)[k] == path[..i] + Join(Split(path[i..], '.')[..k + 1], '.')
    decreases |path| - i
  {
    if i == |path| {
      LastPrefix(path);
    } else {
      SplitFrom(path, i);
      var rest, later := Split(path[i + 1..], '.'), PrefixesFrom(path, i + 1);
      assert path[..i + 1] == path[..i] + [path[i]];
      if path[i] == '.' {
        PrefixesFromExact(path, i + 1, if k > 0 then k - 1 else 0);
        PrefixAtDot(path[..i], rest, later, k);
      } else {
        PrefixesFromExact(path, i + 1, k);
        PrefixInSegment(path[..i], path[i], rest, later, k);
        assert [] + later == later;
      }
    }
  }

  /** The ancestor prefixes are the joins of the non-empty prefixes of the segment list, shortest first. */
  lemma AncestorPrefixesExact(path: string)
    ensures var segs := Split(path, '.');
      AncestorPrefixes(path) == seq(|segs|, k requires 0 <= k < |segs| => Join(segs[..k + 1], '.'))
  {
    PrefixesFromExact(path, 0, 0);
    assert path[0..] == path;
    var segs := Split(path, '.');
    forall k | 0 <= k < |segs| ensures AncestorPrefixes(path)[k] == Join(segs[..k + 1], '.') {
      PrefixesFromExact(path, 0, k);
      assert path[..0] + Join(segs[..k + 1], '.') == Join(segs[..k + 1], '.');
    }
  }

  /** A subtree rule matches by whole segments. */
  lemma SubtreeIsSegmentPrefix(rule: Rule, path: string)
    requires rule.matcher.Subtree?
    ensures Matches(rule, path) <==> Split(rule.raw, '.') <= Split(path, '.')
  {
    var p, s := Split(rule.raw, '.'), Split(path, '.');
    if rule.raw + "." <= path {
      var rest := path[|rule.raw| + 1..];
      assert path == rule.raw + ['.'] + rest;
      SplitAppend(rule.raw, rest, '.');
    }
    if p <= s {
      var rest := s[|p|..];
      assert s == p + rest;
      JoinSplit(rule.raw, '.');
      JoinSplit(path, '.');
      if rest != [] { JoinAppend(p, rest, '.'); }
      else { assert s == p; }
    }
  }

  /** `q` names the place of `p` or one below it. */
  predicate AtOrBelow(p: string, q: string) {
    Split(p, '.') <= Split(q, '.')
  }

  lemma AncestorsShared(p: string, q: string)
    requires AtOrBelow(p, q)
    ensures AncestorPrefixes(p) <= AncestorPrefixes(q)
  {
    AncestorPrefixesExact(p);
    AncestorPrefixesExact(q);
    var s, t := Split(p, '.'), Split(q, '.');
    forall k | 0 <= k < |s| ensures AncestorPrefixes(p)[k] == AncestorPrefixes(q)[k] {
      assert s[..k + 1] == t[..k + 1];
    }
  }

  /** Subtree and regex rules, whatever the regex, also match everything below what they match. */
  lemma ClosedUnderDescendants(rule: Rule, p: string, q: string)
    requires !rule.matcher.Glob? && Matches(rule, p) && AtOrBelow(p, q)
    ensures Matches(rule, q)
  {
    if rule.matcher.Subtree? {
      SubtreeIsSegmentPrefix(rule, p);
      SubtreeIsSegmentPrefix(rule, q);
    } else {
      AncestorsShared(p, q);
      var prefix :| prefix in AncestorPrefixes(p) && rule.matcher.isMatch(prefix);
      assert prefix in AncestorPrefixes(q);
    }
  }

  /** A glob never matches both a path and one strictly below it. */
  lemma GlobStopsAtItsDepth(pattern: string, p: string, q: string)
    requires GlobMatches(p, pattern) && AtOrBelow(p, q) && p != q
    ensures !GlobMatches(q, pattern)
  {
    if |Split(p, '.')| == |Split(q, '.')| {
      SplitInjective(p, q, '.');
    }
  }

  // ---------- rule sets ----------

  /** Every stored rule list is the compilation of its own patterns, and is not empty. */
  ghost predicate WellCompiled(rx: RegexNew, s: SuppressRules) {
    forall e <- s.perEndpoint ::
      s.perEndpoint[e] != [] && CompileRules(rx, Raws(s.perEndpoint[e])) == Ok(s.perEndpoint[e])
  }

  lemma {:induction false} RawsOfCompiled(rx: RegexNew, patterns: seq<string>)
    requires CompileRules(rx, patterns).Ok?
    ensures Raws(CompileRules(rx, patterns).value) == patterns
  {
    if patterns != [] {
      RawsOfCompiled(rx, patterns[1..]);
      var rules := CompileRules(rx, patterns).value;
      assert rules[1..] == CompileRules(rx, patterns[1..]).value;
      assert [patterns[0]] + patterns[1..] == patterns;
    }
  }

  lemma CompileOne(rx: RegexNew, pattern: string)
    ensures CompileRules(rx, [pattern]) ==
      if CompileRule(rx, pattern).Ok? then Ok([CompileRule(rx, pattern).value]) else Err
  {
    var first, rest := CompileRule(rx, pattern), CompileRules(rx, [pattern][1..]);
    assert [pattern][1..] == [] && rest == Ok([]);
    if first.Ok? { assert [first.value] + rest.value == [first.value]; }
  }

  lemma {:induction false} CompileAppend(rx: RegexNew, a: seq<string>, b: seq<string>)
    ensures CompileRules(rx, a + b) ==
      var ra, rb := CompileRules(rx, a), CompileRules(rx, b);
      if ra.Ok? && rb.Ok? then Ok(ra.value + rb.value) else Err
  {
    if a == [] {
      assert a + b == b;
      var rb := CompileRules(rx, b);
      if rb.Ok? { assert [] + rb.value == rb.value; }
    } else {
      CompileAppend(rx, a[1..], b);
      assert (a + b)[1..] == a[1..] + b && (a + b)[0] == a[0];
      var first, ra, rb := CompileRule(rx, a[0]), CompileRules(rx, a[1..]), CompileRules(rx, b);
      if first.Ok? && ra.Ok? && rb.Ok? {
        assert [first.value] + (ra.value + rb.value) == ([first.value] + ra.value) + rb.value;
      }
    }
  }

  /** Installing patterns keeps rule sets well compiled, can be read back, and leaves other endpoints alone. */
  lemma WithEndpointReadsBack(rx: RegexNew, s: SuppressRules, endpoint: string, patterns: seq<string>)
    requires WellCompiled(rx, s)
    ensures WithEndpoint(rx, s, endpoint, patterns).Ok? <==> CompileRules(rx, patterns).Ok?
    ensures WithEndpoint(rx, s, endpoint, patterns).Ok? ==>
      var t := WithEndpoint(rx, s, endpoint, patterns).value;
      && WellCompiled(rx, t)
      && PathsFor(t, endpoint) == patterns
      && (forall e | e != endpoint :: PathsFor(t, e) == PathsFor(s, e))
      && (forall e, p | e != endpoint :: IsSuppressed(t, e, p) == IsSuppressed(s, e, p))
  {
    if CompileRules(rx, patterns).Ok? {
      RawsOfCompiled(rx, patterns);
      var t := WithEndpoint(rx, s, endpoint, patterns).value;
      assert forall e | e != endpoint :: e in t.perEndpoint <==> e in s.perEndpoint;
    }
  }

  lemma AnyMatchesAppend(a: seq<Rule>, b: seq<Rule>, path: string)
    ensures AnyMatches(a + b, path) <==> AnyMatches(a, path) || AnyMatches(b, path)
  {
    if AnyMatches(a, path) {
      var i :| 0 <= i < |a| && Matches(a[i], path);
      assert (a + b)[i] == a[i];
    }
    if AnyMatches(b, path) {
      var i :| 0 <= i < |b| && Matches(b[i], path);
      assert (a + b)[|a| + i] == b[i];
    }
  }

  /** Previewing patterns on top of the stored rules suppresses the same paths as saving them with the stored ones. */
  lemma PreviewEqualsSaveRules(rx: RegexNew, s: SuppressRules, endpoint: string, extra: seq<string>, path: string)
    requires WellCompiled(rx, s) && ForEndpoint(rx, endpoint, extra).Ok?
    ensures var saved := WithEndpoint(rx, s, endpoint, PathsFor(s, endpoint) + extra);
      && saved.Ok?
      && (IsSuppressed(saved.value, endpoint, path) <==>
           IsSuppressed(s, endpoint, path) || IsSuppressed(ForEndpoint(rx, endpoint, extra).value, endpoint, path))
  {
    var stored := if endpoint in s.perEndpoint then s.perEndpoint[endpoint] else [];
    assert CompileRules(rx, PathsFor(s, endpoint)) == Ok(stored);
    CompileAppend(rx, PathsFor(s, endpoint), extra);
    var added := CompileRules(rx, extra).value;
    AnyMatchesAppend(stored, added, path);
  }

  // ---------- what a pattern means, in segments ----------

  /** The places a pattern covers, in terms of the segments of a path. */
  ghost predicate Covers(rx: RegexNew, pattern: string, segs: seq<string>) {
    if REGEX_PREFIX <= pattern then
      var re := rx(pattern[|REGEX_PREFIX|..]);
      re.Some? && exists n | 0 < n <= |segs| :: re.value(Join(segs[..n], '.'))
    else
      var p := Split(pattern, '.');
      if '*' in pattern then |p| == |segs| && forall i | 0 <= i < |p| :: p[i] == "*" || p[i] == segs[i]
      else p <= segs
  }

  lemma CompiledCovers(rx: RegexNew, pattern: string, path: string)
    requires CompileRule(rx, pattern).Ok?
    ensures Matches(CompileRule(rx, pattern).value, path) <==> Covers(rx, pattern, Split(path, '.'))
  {
    var rule, segs := CompileRule(rx, pattern).value, Split(path, '.');
    match rule.matcher {
      case Subtree => SubtreeIsSegmentPrefix(rule, path);
      case Glob =>
      case Regex(isMatch) =>
        AncestorPrefixesExact(path);
        forall n | 0 < n <= |segs| ensures Join(segs[..n], '.') == AncestorPrefixes(path)[n - 1] {}
        if Matches(rule, path) {
          var k :| 0 <= k < |segs| && isMatch(AncestorPrefixes(path)[k]);
          assert isMatch(Join(segs[..k + 1], '.'));
        }
        if n: nat :| 0 < n <= |segs| && isMatch(Join(segs[..n], '.')) {
          assert AncestorPrefixes(path)[n - 1] in AncestorPrefixes(path);
        }
    }
  }

  lemma {:induction false} CompiledAt(rx: RegexNew, patterns: seq<string>, i: nat)
    requires CompileRules(rx, patterns).Ok?
    ensures |CompileRules(rx, patterns).value| == |patterns|
    ensures i < |patterns| ==> CompileRule(rx, patterns[i]) == Ok(CompileRules(rx, patterns).value[i])
  {
    if patterns != [] {
      CompiledAt(rx, patterns[1..], if i > 0 then i - 1 else 0);
    }
  }

  /** Patterns compile iff the expressions among them do. */
  lemma {:induction false} CompilesExactly(rx: RegexNew, patterns: seq<string>)
    ensures CompileRules(rx, patterns).Ok? <==>
      forall pattern <- patterns :: "re:" <= pattern ==> rx(pattern[3..]).Some?
  {
    if patterns != [] {
      CompilesExactly(rx, patterns[1..]);
      assert forall pattern :: pattern in patterns <==> pattern == patterns[0] || pattern in patterns[1..];
    }
  }

  /** An ad-hoc rule set hides from its endpoint what its patterns cover, and nothing from any other. */
  lemma {:induction false} ForEndpointExactly(rx: RegexNew, endpoint: string, patterns: seq<string>, e: string,
                                              path: string)
    ensures ForEndpoint(rx, endpoint, patterns).Ok? <==> CompileRules(rx, patterns).Ok?
    ensures ForEndpoint(rx, endpoint, patterns).Ok? ==>
      && WellCompiled(rx, ForEndpoint(rx, endpoint, patterns).value)
      && (IsSuppressed(ForEndpoint(rx, endpoint, patterns).value, e, path) <==>
            e == endpoint && exists pattern <- patterns :: Covers(rx, pattern, Split(path, '.')))
  {
    if CompileRules(rx, patterns).Ok? {
      RawsOfCompiled(rx, patterns);
      SuppressedIffCovered(rx, ForEndpoint(rx, endpoint, patterns).value, e, path);
    }
  }

  /** The entry that configures an endpoint: the last one with its pattern that lists any paths. */
  ghost predicate Configures(endpoints: seq<EndpointConfig>, i: nat, endpoint: string) {
    && i < |endpoints| && endpoints[i].pattern == endpoint && endpoints[i].suppressPaths != []
    && forall j | i < j < |endpoints| :: endpoints[j].pattern != endpoint || endpoints[j].suppressPaths == []
  }

  lemma {:induction false} ConfiguredExactly(endpoints: seq<EndpointConfig>, endpoint: string)
    ensures ConfiguredPaths(endpoints, endpoint) == [] ==> !exists i: nat :: Configures(endpoints, i, endpoint)
    ensures ConfiguredPaths(endpoints, endpoint) != [] ==>
      exists i: nat :: Configures(endpoints, i, endpoint)
        && endpoints[i].suppressPaths == ConfiguredPaths(endpoints, endpoint)
  {
    if endpoints != [] {
      var n := |endpoints| - 1;
      if endpoints[n].pattern == endpoint && endpoints[n].suppressPaths != [] {
        assert Configures(endpoints, n, endpoint);
      } else {
        ConfiguredExactly(endpoints[..n], endpoint);
        forall i: nat ensures Configures(endpoints, i, endpoint) <==> Configures(endpoints[..n], i, endpoint) {
          ConfiguresShorter(endpoints, i, endpoint);
        }
      }
    }
  }

  lemma ConfiguresShorter(endpoints: seq<EndpointConfig>, i: nat, endpoint: string)
    requires endpoints != []
    requires var last := endpoints[|endpoints| - 1];
      last.pattern != endpoint || last.suppressPaths == []
    ensures Configures(endpoints, i, endpoint) <==> Configures(endpoints[..|endpoints| - 1], i, endpoint)
  {
    var n := |endpoints| - 1;
    if Configures(endpoints[..n], i, endpoint) {
      forall j | i < j < |endpoints| ensures endpoints[j].pattern != endpoint || endpoints[j].suppressPaths == [] {
        if j < n { assert endpoints[..n][j] == endpoints[j]; }
      }
    }
  }

  lemma ConfigurersAgree(endpoints: seq<EndpointConfig>, i: nat, j: nat, endpoint: string)
    requires Configures(endpoints, i, endpoint) && Configures(endpoints, j, endpoint)
    ensures i == j
  {}

  /** Rules read from a configuration hide from an endpoint exactly what the patterns of its own entry cover. */
  lemma {:induction false} ConfigSuppressesExactly(rx: RegexNew, endpoints: seq<EndpointConfig>, rules: SuppressRules,
                                                   endpoint: string, path: string)
    requires WellCompiled(rx, rules) && forall e :: PathsFor(rules, e) == ConfiguredPaths(endpoints, e)
    ensures IsSuppressed(rules, endpoint, path) <==>
      exists i: nat :: Configures(endpoints, i, endpoint) &&
        exists pattern <- endpoints[i].suppressPaths :: Covers(rx, pattern, Split(path, '.'))
  {
    SuppressedIffCovered(rx, rules, endpoint, path);
    ConfiguredExactly(endpoints, endpoint);
    forall i: nat, j: nat | Configures(endpoints, i, endpoint) && Configures(endpoints, j, endpoint) ensures i == j {
      ConfigurersAgree(endpoints, i, j, endpoint);
    }
  }

  /** A path is suppressed iff one of the endpoint's patterns covers its segments. */
  lemma SuppressedIffCovered(rx: RegexNew, s: SuppressRules, endpoint: string, path: string)
    requires WellCompiled(rx, s)
    ensures IsSuppressed(s, endpoint, path) <==>
      exists pattern <- PathsFor(s, endpoint) :: Covers(rx, pattern, Split(path, '.'))
  {
    if endpoint in s.perEndpoint {
      var rules, patterns := s.perEndpoint[endpoint], PathsFor(s, endpoint);
      assert CompileRules(rx, patterns) == Ok(rules);
      CompiledAt(rx, patterns, 0);
      forall i: nat | i < |patterns| ensures Matches(rules[i], path) <==> Covers(rx, patterns[i], Split(path, '.')) {
        CompiledAt(rx, patterns, i);
        CompiledCovers(rx, patterns[i], path);
      }
      if IsSuppressed(s, endpoint, path) {
        var i :| 0 <= i < |rules| && Matches(rules[i], path);
        assert patterns[i] in patterns;
      }
      if pattern :| pattern in patterns && Covers(rx, pattern, Split(path, '.')) {
        var i :| 0 <= i < |patterns| && patterns[i] == pattern;
        assert Matches(rules[i], path);
      }
    }
  }
}
