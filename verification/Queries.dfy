/** The decisions of the query handlers (src/http/query.rs): exclude patterns, path summaries, page clamping
    and the not-found answers. */
module Queries {
  import opened Wrappers
  import opened Strings
  import opened Sequences
  import opened Suppression
  import opened Classifying
  import opened Samples
  import opened Readings
  import opened Engine
  import opened EngineFacts

  // ---------- the exclude parameter ----------

  /** Unicode White_Space, which `str::trim` removes. */
  predicate IsWhitespace(c: char) {
    var n := c as int;
    9 <= n <= 13 || n in {0x20, 0x85, 0xA0, 0x1680, 0x2028, 0x2029, 0x202F, 0x205F, 0x3000} || 0x2000 <= n <= 0x200A
  }

  function TrimStart(s: string): string {
    if s != "" && IsWhitespace(s[0]) then TrimStart(s[1..]) else s
  }

  function TrimEnd(s: string): string {
    if s != "" && IsWhitespace(s[|s| - 1]) then TrimEnd(s[..|s| - 1]) else s
  }

  function Trim(s: string): string {
    TrimEnd(TrimStart(s))
  }

  function TrimmedNonEmpty(parts: seq<string>): seq<string> {
    if parts == [] then []
    else (if Trim(parts[0]) == "" then [] else [Trim(parts[0])]) + TrimmedNonEmpty(parts[1..])
  }

  function ExcludePatterns(exclude: Option<string>): seq<string> {
    match exclude
    case None => []
    case Some(s) => TrimmedNonEmpty(Split(s, ','))
  }

  function ExcludeRules(rx: RegexNew, endpoint: string, exclude: Option<string>): Result<SuppressRules> {
    ForEndpoint(rx, endpoint, ExcludePatterns(exclude))
  }

  /** A pattern that survives the trip through the comma-separated parameter. */
  predicate Listable(p: string) {
    p != "" && Trim(p) == p && Free(p, ',')
  }

  predicate Bare(s: string) {
    s == "" || (!IsWhitespace(s[0]) && !IsWhitespace(s[|s| - 1]))
  }

  lemma {:induction false} TrimStartFacts(s: string)
    ensures var t := TrimStart(s);
      (t == "" || !IsWhitespace(t[0])) && (Free(s, ',') ==> Free(t, ','))
  {
    if s != "" && IsWhitespace(s[0]) { TrimStartFacts(s[1..]); }
  }

  lemma {:induction false} TrimEndFacts(s: string)
    requires s == "" || !IsWhitespace(s[0])
    ensures Bare(TrimEnd(s)) && (Free(s, ',') ==> Free(TrimEnd(s), ','))
  {
    if s != "" && IsWhitespace(s[|s| - 1]) { TrimEndFacts(s[..|s| - 1]); }
  }

  /** Trimming leaves nothing to trim. */
  lemma TrimFacts(s: string)
    ensures Bare(Trim(s)) && Trim(Trim(s)) == Trim(s) && (Free(s, ',') ==> Free(Trim(s), ','))
  {
    TrimStartFacts(s);
    TrimEndFacts(TrimStart(s));
  }

  lemma {:induction false} PartsListable(parts: seq<string>)
    requires forall p <- parts :: Free(p, ',')
    ensures forall p <- TrimmedNonEmpty(parts) :: Listable(p)
  {
    if parts != [] {
      TrimFacts(parts[0]);
      PartsListable(parts[1..]);
    }
  }

  lemma {:induction false} ListablePartsKept(parts: seq<string>)
    requires forall p <- parts :: Listable(p)
    ensures TrimmedNonEmpty(parts) == parts
  {
    if parts != [] {
      assert parts[0] in parts && forall p <- parts[1..] :: p in parts;
      ListablePartsKept(parts[1..]);
      assert [parts[0]] + parts[1..] == parts;
    }
  }

  /** A list of patterns can be passed as a comma-separated parameter iff each is trimmed, non-empty and comma-free. */
  lemma {:induction false} ExcludeReadsBack(patterns: seq<string>)
    ensures ExcludePatterns(Some(Join(patterns, ','))) == patterns <==> forall p <- patterns :: Listable(p)
  {
    PartsListable(Split(Join(patterns, ','), ','));
    if forall p <- patterns :: Listable(p) {
      if patterns == [] {
        assert Split("", ',') == [""] && Trim("") == "";
      } else {
        SplitJoin(patterns, ',');
        ListablePartsKept(patterns);
      }
    }
  }

  /** A pattern as a client may write it, with blanks around it. */
  datatype Padded = Padded(before: string, core: string, behind: string)

  predicate Blank(s: string) {
    forall c <- s :: IsWhitespace(c)
  }

  predicate WellPadded(p: Padded) {
    Blank(p.before) && Bare(p.core) && Free(p.core, ',') && Blank(p.behind)
  }

  function Written(ps: seq<Padded>): seq<string> {
    seq(|ps|, i requires 0 <= i < |ps| => ps[i].before + ps[i].core + ps[i].behind)
  }

  function Cores(ps: seq<Padded>): seq<string> {
    if ps == [] then [] else (if ps[0].core == "" then [] else [ps[0].core]) + Cores(ps[1..])
  }

  lemma {:induction false} TrimStartBlank(blank: string, s: string)
    requires Blank(blank)
    ensures TrimStart(blank + s) == TrimStart(s)
  {
    if blank == "" {
      assert blank + s == s;
    } else {
      assert blank[0] in blank && forall c <- blank[1..] :: c in blank;
      assert (blank + s)[1..] == blank[1..] + s;
      TrimStartBlank(blank[1..], s);
    }
  }

  lemma {:induction false} TrimEndBlank(s: string, blank: string)
    requires Blank(blank)
    ensures TrimEnd(s + blank) == TrimEnd(s)
    decreases |blank|
  {
    if blank == "" {
      assert s + blank == s;
    } else {
      var n := |blank| - 1;
      assert blank[n] in blank && forall c <- blank[..n] :: c in blank;
      assert (s + blank)[..|s + blank| - 1] == s + blank[..n];
      TrimEndBlank(s, blank[..n]);
    }
  }

  /** Trimming takes away the blanks around a pattern and nothing else. */
  lemma TrimPadded(p: Padded)
    requires WellPadded(p)
    ensures Trim(p.before + p.core + p.behind) == p.core
  {
    assert p.before + p.core + p.behind == p.before + (p.core + p.behind);
    TrimStartBlank(p.before, p.core + p.behind);
    if p.core == "" {
      assert p.core + p.behind == p.behind + "";
      TrimStartBlank(p.behind, "");
    } else {
      assert (p.core + p.behind)[0] == p.core[0];
      TrimEndBlank(p.core, p.behind);
    }
  }

  lemma {:induction false} CoresKept(ps: seq<Padded>)
    requires forall p <- ps :: WellPadded(p)
    ensures TrimmedNonEmpty(Written(ps)) == Cores(ps)
  {
    if ps != [] {
      assert ps[0] in ps && forall p <- ps[1..] :: p in ps;
      assert Written(ps)[1..] == Written(ps[1..]);
      TrimPadded(ps[0]);
      CoresKept(ps[1..]);
    }
  }

  lemma BlankFree(s: string)
    requires Blank(s)
    ensures Free(s, ',')
  {}

  /** A comma-separated list is read as its patterns without the blanks around them, in order, without empty ones. */
  lemma {:induction false} PaddedPatternsRead(ps: seq<Padded>)
    requires ps != [] && forall p <- ps :: WellPadded(p)
    ensures ExcludePatterns(Some(Join(Written(ps), ','))) == Cores(ps)
    ensures ExcludePatterns(None) == []
  {
    forall s | s in Written(ps) ensures Free(s, ',') {
      var i :| 0 <= i < |ps| && Written(ps)[i] == s;
      assert ps[i] in ps;
      BlankFree(ps[i].before);
      BlankFree(ps[i].behind);
    }
    SplitJoin(Written(ps), ',');
    CoresKept(ps);
  }

  /** The `exclude` parameter hides from its endpoint exactly what its patterns cover, nothing from any other, and is
      refused iff one of them is an expression that does not compile. */
  lemma {:induction false} ExcludeHidesExactly(rx: RegexNew, endpoint: string, ps: seq<Padded>, e: string, path: string)
    requires ps != [] && forall p <- ps :: WellPadded(p)
    ensures var rules := ExcludeRules(rx, endpoint, Some(Join(Written(ps), ',')));
      && (rules.Ok? <==> forall core <- Cores(ps) :: "re:" <= core ==> rx(core[3..]).Some?)
      && (rules.Ok? ==>
            (IsSuppressed(rules.value, e, path) <==>
               e == endpoint && exists core <- Cores(ps) :: Covers(rx, core, Split(path, '.'))))
    ensures ExcludeRules(rx, endpoint, None) == Ok(NO_RULES)
  {
    PaddedPatternsRead(ps);
    CompilesExactly(rx, Cores(ps));
    ForEndpointExactly(rx, endpoint, Cores(ps), e, path);
  }

  // ---------- path summaries ----------

  datatype PathSummary = PathSummary(path: string, rawCount: nat, noiseCount: nat, isRegression: bool)

  datatype EndpointPaths = EndpointPaths(
    endpoint: string, total: nat, regressions: nat, paths: seq<PathSummary>, lastUpdated: int)

  function SummaryOf(classifiers: EndpointClassifiers, counts: EndpointCounts, path: string): PathSummary
    requires path in counts.fields
  {
    var c := counts.fields[path];
    PathSummary(path, c.rawCount, c.noiseCount, Regresses(classifiers, counts.endpoint, path, c, counts.total))
  }

  function Summarise(classifiers: EndpointClassifiers, counts: EndpointCounts, keys: seq<string>): seq<PathSummary>
    requires forall k <- keys :: k in counts.fields
  {
    if keys == [] then []
    else [SummaryOf(classifiers, counts, keys[0])] + Summarise(classifiers, counts, keys[1..])
  }

  function RegressingPaths(paths: seq<PathSummary>): seq<string> {
    if paths == [] then [] else (if paths[0].isRegression then [paths[0].path] else []) + RegressingPaths(paths[1..])
  }

  function EndpointPathsOf(classifiers: EndpointClassifiers, counts: EndpointCounts): EndpointPaths {
    var paths := Summarise(classifiers, counts, Sorted(counts.fields.Keys));
    EndpointPaths(counts.endpoint, counts.total, |RegressingPaths(paths)|, paths, counts.lastUpdated)
  }

  lemma {:induction false} SummariseAt(classifiers: EndpointClassifiers, counts: EndpointCounts, keys: seq<string>)
    requires forall k <- keys :: k in counts.fields
    ensures var paths := Summarise(classifiers, counts, keys);
      |paths| == |keys| && forall i | 0 <= i < |keys| :: paths[i] == SummaryOf(classifiers, counts, keys[i])
  {
    if keys != [] {
      assert forall k <- keys[1..] :: k in keys;
      SummariseAt(classifiers, counts, keys[1..]);
    }
  }

  predicate Regressing(classifiers: EndpointClassifiers, counts: EndpointCounts, k: string) {
    k in counts.fields && Regresses(classifiers, counts.endpoint, k, counts.fields[k], counts.total)
  }

  lemma {:induction false} RegressingAscend(classifiers: EndpointClassifiers, counts: EndpointCounts, keys: seq<string>)
    requires (forall k <- keys :: k in counts.fields) && Ascending(keys)
    ensures var out := RegressingPaths(Summarise(classifiers, counts, keys));
      && Ascending(out)
      && forall k :: k in out <==> k in keys && Regressing(classifiers, counts, k)
  {
    if keys != [] {
      assert forall k <- keys[1..] :: k in keys;
      RegressingAscend(classifiers, counts, keys[1..]);
      var paths := Summarise(classifiers, counts, keys);
      assert paths[1..] == Summarise(classifiers, counts, keys[1..]);
      var rest, out := RegressingPaths(paths[1..]), RegressingPaths(paths);
      assert forall k :: k in keys <==> k == keys[0] || k in keys[1..];
      assert out == if paths[0].isRegression then [keys[0]] + rest else rest;
      forall i, j | 0 <= i < j < |out| ensures Lt(out[i], out[j]) {
        if paths[0].isRegression && i == 0 {
          assert out[j] == rest[j - 1] && rest[j - 1] in keys[1..];
          var m :| 0 <= m < |keys[1..]| && keys[1..][m] == out[j];
          assert Lt(keys[0], keys[m + 1]);
        }
      }
    }
  }

  /** The regressing summaries are, in order, the paths `regressions` returns, so the count shown is their number. */
  lemma {:induction false} RegressionsMatchSummaries(classifiers: EndpointClassifiers, counts: EndpointCounts)
    ensures RegressingPaths(EndpointPathsOf(classifiers, counts).paths) == Regressions(classifiers, counts)
    ensures EndpointPathsOf(classifiers, counts).regressions == |Regressions(classifiers, counts)|
  {
    var keys := Sorted(counts.fields.Keys);
    RegressingAscend(classifiers, counts, keys);
    var s := set p | p in counts.fields && Regresses(classifiers, counts.endpoint, p, counts.fields[p], counts.total);
    var out := RegressingPaths(Summarise(classifiers, counts, keys));
    forall k ensures k in out <==> k in s {
      assert k in keys <==> k in counts.fields.Keys;
    }
    SortedUnique(s, out);
  }

  // ---------- the two handlers ----------

  datatype Reply<T> = BadRequest | NotFound | Found(body: T)

  const DEFAULT_SAMPLE_LIMIT := 20
  const MAX_SAMPLE_LIMIT := 100
  const MAX_SAMPLE_OFFSET := 100_000

  function PageLimit(limit: Option<nat>): nat {
    var n := if limit.Some? then limit.value else DEFAULT_SAMPLE_LIMIT;
    if n < 1 then 1 else if n > MAX_SAMPLE_LIMIT then MAX_SAMPLE_LIMIT else n
  }

  function PageOffset(offset: Option<nat>): nat {
    var n := if offset.Some? then offset.value else 0;
    if n > MAX_SAMPLE_OFFSET then MAX_SAMPLE_OFFSET else n
  }

  /** The reply to `GET /diffs/paths` for one endpoint. */
  ghost predicate AnswersPaths(reply: Reply<EndpointPaths>, engine: DiffEngine, endpoint: string,
                               exclude: Option<string>, samples: seq<RawSample>)
    reads engine
  {
    var extra := ExcludeRules(engine.rx, endpoint, exclude);
    && (reply.BadRequest? <==> extra.Err?)
    && (reply.NotFound? <==> extra.Ok? && samples == [])
    && (reply.Found? ==>
          exists r: Option<EndpointCounts> ::
            r.Some? && IsAggregate(r, engine.ReadingOf(endpoint, extra.value), samples)
            && reply.body == EndpointPathsOf(engine.classifiers, r.value))
  }

  /** The reply to `GET /diffs/detail`. */
  ghost predicate AnswersDetail(reply: Reply<DiffDetail>, engine: DiffEngine, endpoint: string, path: string,
                                limit: Option<nat>, offset: Option<nat>, exclude: Option<string>,
                                samples: seq<RawSample>)
    reads engine
  {
    var extra := ExcludeRules(engine.rx, endpoint, exclude);
    && (reply.BadRequest? <==> extra.Err?)
    && (reply.NotFound? <==>
          extra.Ok? && (samples == []
            || (PageOffset(offset) == 0 && engine.ReadingOf(endpoint, extra.value).Matching(samples, path) == [])))
    && (reply.Found? ==>
          IsDetail(reply.body, engine.classifiers, engine.ReadingOf(endpoint, extra.value), path, samples,
            PageLimit(limit), PageOffset(offset)))
  }

  /** The page size a client gets: the one it asks for from 1 to 100, the nearer bound otherwise, and 20 by default; and
      the offset it gets: the one it asks for up to 100000. */
  lemma PageBoundsExactly(n: nat)
    ensures PageLimit(None) == 20 && (1 <= n <= 100 ==> PageLimit(Some(n)) == n)
    ensures PageLimit(Some(0)) == 1 && (n > 100 ==> PageLimit(Some(n)) == 100)
    ensures PageOffset(None) == 0 && PageOffset(Some(n)) == if n <= 100000 then n else 100000
  {}

  method ListPaths(engine: DiffEngine, endpoint: string, exclude: Option<string>, samples: seq<RawSample>)
      returns (reply: Reply<EndpointPaths>)
    ensures AnswersPaths(reply, engine, endpoint, exclude, samples)
  {
    var extra := ExcludeRules(engine.rx, endpoint, exclude);
    if extra.Err? {
      return BadRequest;
    }
    var counts := engine.Aggregate(endpoint, samples, extra.value);
    if counts.None? {
      return NotFound;
    }
    reply := Found(EndpointPathsOf(engine.classifiers, counts.value));
  }

  method ShowDetail(engine: DiffEngine, endpoint: string, path: string, limit: Option<nat>, offset: Option<nat>,
                    exclude: Option<string>, samples: seq<RawSample>)
      returns (reply: Reply<DiffDetail>)
    requires |samples| <= USIZE_MAX
    ensures AnswersDetail(reply, engine, endpoint, path, limit, offset, exclude, samples)
  {
    var extra := ExcludeRules(engine.rx, endpoint, exclude);
    if extra.Err? {
      return BadRequest;
    }
    if samples == [] {
      return NotFound;
    }
    var detail := engine.Detail(endpoint, path, samples, extra.value, PageLimit(limit), PageOffset(offset));
    MatchingIffCounted(engine.ReadingOf(endpoint, extra.value), samples, path);
    if detail.IsEmptyAtFirstPage() {
      return NotFound;
    }
    reply := Found(detail);
  }

  lemma SummariesAreTallied(classifiers: EndpointClassifiers, counts: EndpointCounts, s: PathSummary)
    requires s in EndpointPathsOf(classifiers, counts).paths
    ensures s.path in counts.fields
  {
    var keys, paths := Sorted(counts.fields.Keys), EndpointPathsOf(classifiers, counts).paths;
    SummariseAt(classifiers, counts, keys);
    var i :| 0 <= i < |paths| && paths[i] == s;
    assert keys[i] in keys;
  }

  lemma TalliedIsSummarised(classifiers: EndpointClassifiers, counts: EndpointCounts, path: string)
    requires path in counts.fields
    ensures SummaryOf(classifiers, counts, path) in EndpointPathsOf(classifiers, counts).paths
  {
    var keys, paths := Sorted(counts.fields.Keys), EndpointPathsOf(classifiers, counts).paths;
    SummariseAt(classifiers, counts, keys);
    assert path in keys;
    var i :| 0 <= i < |keys| && keys[i] == path;
    assert paths[i] in paths;
  }

  /** The summaries are those of the tallied paths. */
  lemma SummaryOfPath(classifiers: EndpointClassifiers, counts: EndpointCounts, path: string)
    ensures path in counts.fields <==> exists s <- EndpointPathsOf(classifiers, counts).paths :: s.path == path
    ensures path in counts.fields ==> SummaryOf(classifiers, counts, path) in EndpointPathsOf(classifiers, counts).paths
  {
    if path in counts.fields {
      TalliedIsSummarised(classifiers, counts, path);
      assert SummaryOf(classifiers, counts, path).path == path;
    }
    forall s | s in EndpointPathsOf(classifiers, counts).paths { SummariesAreTallied(classifiers, counts, s); }
  }

  lemma SummaryExactly(classifiers: EndpointClassifiers, reading: Reading, samples: seq<RawSample>,
                       r: Option<EndpointCounts>, s: PathSummary)
    requires samples != [] && IsAggregate(r, reading, samples) && s in EndpointPathsOf(classifiers, r.value).paths
    ensures s.rawCount == |RawPositions(reading, samples, s.path)|
    ensures s.noiseCount == |NoisePositions(reading, samples, s.path)|
    ensures s.isRegression <==> IsRegressing(classifiers, reading, samples, s.path)
  {
    var keys, paths := Sorted(r.value.fields.Keys), EndpointPathsOf(classifiers, r.value).paths;
    SummariseAt(classifiers, r.value, keys);
    var i :| 0 <= i < |paths| && paths[i] == s;
    assert keys[i] in keys;
    CountsExactly(reading, samples, s.path);
    assert TalliesAt(r.value.fields, s.path, reading.RawCount(samples, s.path), reading.NoiseCount(samples, s.path));
  }

  lemma SummariesAscend(classifiers: EndpointClassifiers, counts: EndpointCounts)
    ensures var paths := EndpointPathsOf(classifiers, counts).paths;
      forall i, j | 0 <= i < j < |paths| :: Lt(paths[i].path, paths[j].path)
  {
    SummariseAt(classifiers, counts, Sorted(counts.fields.Keys));
  }

  /** The summaries say truly, in ascending order of paths, how many samples diverge where and whether that is a
      regression. */
  ghost predicate SummariesOf(paths: seq<PathSummary>, classifiers: EndpointClassifiers, reading: Reading,
                              samples: seq<RawSample>)
  {
    && (forall i, j | 0 <= i < j < |paths| :: Lt(paths[i].path, paths[j].path))
    && (forall s <- paths ::
          && s.rawCount == |RawPositions(reading, samples, s.path)|
          && s.noiseCount == |NoisePositions(reading, samples, s.path)|
          && (s.isRegression <==> IsRegressing(classifiers, reading, samples, s.path)))
    && forall p :: (exists s <- paths :: s.path == p) <==>
         RawPositions(reading, samples, p) + NoisePositions(reading, samples, p) != {}
  }

  lemma PathSummarised(classifiers: EndpointClassifiers, reading: Reading, samples: seq<RawSample>,
                       r: Option<EndpointCounts>, p: string)
    requires samples != [] && IsAggregate(r, reading, samples)
    ensures (exists s <- EndpointPathsOf(classifiers, r.value).paths :: s.path == p) <==>
      RawPositions(reading, samples, p) + NoisePositions(reading, samples, p) != {}
  {
    SummaryOfPath(classifiers, r.value, p);
    CountsExactly(reading, samples, p);
    assert TalliesAt(r.value.fields, p, reading.RawCount(samples, p), reading.NoiseCount(samples, p));
  }

  lemma SummariesExactly(classifiers: EndpointClassifiers, reading: Reading, samples: seq<RawSample>,
                         r: Option<EndpointCounts>)
    requires samples != [] && IsAggregate(r, reading, samples)
    ensures SummariesOf(EndpointPathsOf(classifiers, r.value).paths, classifiers, reading, samples)
  {
    var paths := EndpointPathsOf(classifiers, r.value).paths;
    SummariesAscend(classifiers, r.value);
    forall s | s in paths { SummaryExactly(classifiers, reading, samples, r, s); }
    forall p { PathSummarised(classifiers, reading, samples, r, p); }
  }

  /** The reading a query asks for: the engine's rules and the excluded patterns. */
  ghost function Asked(engine: DiffEngine, endpoint: string, exclude: Option<string>): Reading
    reads engine
    requires ExcludeRules(engine.rx, endpoint, exclude).Ok?
  {
    Reading(engine.codec, endpoint, engine.suppress, ExcludeRules(engine.rx, endpoint, exclude).value)
  }

  /** The reply for one endpoint says of the fetched samples how many they are, which is the latest, and how many of
      them diverge where. */
  lemma {:induction false} ListedExactly(engine: DiffEngine, endpoint: string, exclude: Option<string>,
                                         samples: seq<RawSample>, reply: Reply<EndpointPaths>)
    requires AnswersPaths(reply, engine, endpoint, exclude, samples) && reply.Found?
    ensures var body := reply.body;
      && body.endpoint == endpoint && body.total == |samples| && samples != []
      && (forall x <- samples :: x.timestamp <= body.lastUpdated)
      && (exists x <- samples :: x.timestamp == body.lastUpdated)
      && SummariesOf(body.paths, engine.classifiers, Asked(engine, endpoint, exclude), samples)
  {
    var reading := Asked(engine, endpoint, exclude);
    var r: Option<EndpointCounts> :| r.Some? && IsAggregate(r, reading, samples)
      && reply.body == EndpointPathsOf(engine.classifiers, r.value);
    LatestBounds(samples);
    SummariesExactly(engine.classifiers, reading, samples, r);
  }

  /** The items are the samples at these positions, in order, with a difference on the sides where each diverges. */
  ghost predicate ItemsOf(items: seq<DiffItem>, reading: Reading, samples: seq<RawSample>, path: string, at: seq<nat>) {
    && |items| == |at|
    && forall i | 0 <= i < |items| ::
         && at[i] < |samples|
         && items[i].id == samples[at[i]].id && items[i].timestamp == samples[at[i]].timestamp
         && items[i].requestCurl == samples[at[i]].requestCurl
         && (items[i].raw.Some? <==> IsRawAt(reading, samples, path, at[i]))
         && (items[i].noise.Some? <==> IsNoiseAt(reading, samples, path, at[i]))
  }

  lemma ItemsExactly(reading: Reading, samples: seq<RawSample>, path: string, items: seq<DiffItem>, at: seq<nat>,
                     limit: nat, offset: nat)
    requires Picks(reading.Matching(samples, path), samples, at)
    requires ShowsAll(reading, items, Page(reading.Matching(samples, path), offset, limit), path)
    ensures ItemsOf(items, reading, samples, path, Take(Skip(at, offset), limit))
  {
    var all := reading.Matching(samples, path);
    var page, positions := Page(all, offset, limit), Take(Skip(at, offset), limit);
    forall i | 0 <= i < |items|
      ensures positions[i] == at[offset + i] && page[i] == all[offset + i] && Shows(reading, items[i], page[i], path)
    {}
  }

  /** The reply for one path says of the fetched samples how many diverge there on either side, whether that is a
      regression, and which ones they are: of the positions at which a sample diverges, in order, those of the page. */
  lemma {:induction false} DetailExactly(engine: DiffEngine, endpoint: string, path: string, limit: Option<nat>,
                                         offset: Option<nat>, exclude: Option<string>, samples: seq<RawSample>,
                                         reply: Reply<DiffDetail>)
      returns (at: seq<nat>)
    requires AnswersDetail(reply, engine, endpoint, path, limit, offset, exclude, samples) && reply.Found?
    ensures var reading, d := Asked(engine, endpoint, exclude), reply.body;
      && d.endpoint == endpoint && d.path == path && d.total == |samples|
      && d.rawCount == |RawPositions(reading, samples, path)|
      && d.noiseCount == |NoisePositions(reading, samples, path)|
      && (d.isRegression <==> IsRegressing(engine.classifiers, reading, samples, path))
      && samples != [] && d.lastUpdated == Some(samples[0].timestamp)
      && Increasing(at)
      && (forall i: nat :: i in at <==> IsRawAt(reading, samples, path, i) || IsNoiseAt(reading, samples, path, i))
      && ItemsOf(d.samples.items, reading, samples, path, Take(Skip(at, PageOffset(offset)), PageLimit(limit)))
      && d.samples.limit == PageLimit(limit) && d.samples.offset == PageOffset(offset)
      && d.samples.hasMore == (|at| > PageOffset(offset) + PageLimit(limit))
  {
    var reading := Asked(engine, endpoint, exclude);
    at := MatchingExactly(reading, samples, path);
    CountsExactly(reading, samples, path);
    ItemsExactly(reading, samples, path, reply.body.samples.items, at, PageLimit(limit), PageOffset(offset));
  }

  /** A path is in the list iff its first detail page is found, and then both show the same counts and verdict. */
  lemma {:induction false} ListedIffFound(engine: DiffEngine, endpoint: string, path: string, limit: Option<nat>,
                                          exclude: Option<string>, samples: seq<RawSample>, list: Reply<EndpointPaths>,
                                          page: Reply<DiffDetail>)
    requires AnswersPaths(list, engine, endpoint, exclude, samples)
    requires AnswersDetail(page, engine, endpoint, path, limit, None, exclude, samples)
    ensures page.Found? <==> list.Found? && exists s <- list.body.paths :: s.path == path
    ensures page.Found? ==>
      PathSummary(path, page.body.rawCount, page.body.noiseCount, page.body.isRegression) in list.body.paths
  {
    if list.Found? {
      var reading := engine.ReadingOf(endpoint, ExcludeRules(engine.rx, endpoint, exclude).value);
      var r: Option<EndpointCounts> :| r.Some? && IsAggregate(r, reading, samples)
        && list.body == EndpointPathsOf(engine.classifiers, r.value);
      SummaryOfPath(engine.classifiers, r.value, path);
      MatchingIffCounted(reading, samples, path);
      assert TalliesAt(r.value.fields, path, reading.RawCount(samples, path), reading.NoiseCount(samples, path));
    }
  }

  /** The cap on `offset` gives a client a page other than the one it asked for iff it asks beyond the cap while
      there are matches beyond the cap. */
  lemma ClampedOffsetExact(all: seq<RawSample>, limit: Option<nat>, offset: nat)
    requires forall i, j | 0 <= i < j < |all| :: all[i].id != all[j].id
    ensures Page(all, PageOffset(Some(offset)), PageLimit(limit)) == Page(all, offset, PageLimit(limit))
            <==> offset <= MAX_SAMPLE_OFFSET || |all| <= MAX_SAMPLE_OFFSET
  {
    var n := PageLimit(limit);
    var given, asked := Page(all, PageOffset(Some(offset)), n), Page(all, offset, n);
    if offset > MAX_SAMPLE_OFFSET && |all| > MAX_SAMPLE_OFFSET {
      assert given[0] == all[MAX_SAMPLE_OFFSET];
      if asked != [] {
        assert asked[0] == all[offset];
      }
    }
  }

  // ---------- paging through the handler ----------

  /** What a client collects from the pages of `all` that `AnswersDetail` promises, if it starts at `offset` and, while
      `has_more` says so, moves on by one page (src/http/ui/index.html:473-477); `None` if it has not come to an end
      after `patience` requests. */
  function Browse<T>(all: seq<T>, limit: Option<nat>, offset: nat, patience: nat): Option<seq<T>>
    decreases patience
  {
    if patience == 0 then None
    else
      var n, at := PageLimit(limit), PageOffset(Some(offset));
      if |all| <= at + n then Some(Page(all, at, n))
      else
        var rest := Browse(all, limit, offset + n, patience - 1);
        if rest.None? then None else Some(Page(all, at, n) + rest.value)
  }

  /** Where the last page starts that can be reached from `offset` without passing the cap. */
  function LastPageFrom(limit: Option<nat>, offset: nat): (last: nat)
    requires offset <= MAX_SAMPLE_OFFSET
    ensures offset <= last <= MAX_SAMPLE_OFFSET < last + PageLimit(limit)
    decreases MAX_SAMPLE_OFFSET - offset
  {
    var next := offset + PageLimit(limit);
    if next > MAX_SAMPLE_OFFSET then offset else LastPageFrom(limit, next)
  }

  /** It is the greatest multiple of the page size that does not exceed the cap. */
  lemma {:induction false} LastPageIsMultiple(limit: Option<nat>, pages: nat) returns (k: nat)
    requires pages * PageLimit(limit) <= MAX_SAMPLE_OFFSET
    ensures LastPageFrom(limit, pages * PageLimit(limit)) == k * PageLimit(limit)
    decreases MAX_SAMPLE_OFFSET - pages * PageLimit(limit)
  {
    var n := PageLimit(limit);
    assert (pages + 1) * n == pages * n + n;
    if (pages + 1) * n > MAX_SAMPLE_OFFSET { k := pages; } else { k := LastPageIsMultiple(limit, pages + 1); }
  }

  /** Beyond the cap a client gets the page at the cap, and never another. */
  lemma {:induction false} BrowseBeyondCap<T>(all: seq<T>, limit: Option<nat>, offset: nat, patience: nat)
    requires offset >= MAX_SAMPLE_OFFSET && |all| > MAX_SAMPLE_OFFSET
    ensures var r := Browse(all, limit, offset, patience);
      r.Some? ==> |all| <= MAX_SAMPLE_OFFSET + PageLimit(limit) && r.value == all[MAX_SAMPLE_OFFSET..]
    decreases patience
  {
    if patience > 0 && |all| > MAX_SAMPLE_OFFSET + PageLimit(limit) {
      BrowseBeyondCap(all, limit, offset + PageLimit(limit), patience - 1);
    }
  }

  /** Too many matches: the client never comes to an end or collects some twice. */
  lemma {:induction false} BrowseTooMany<T>(all: seq<T>, limit: Option<nat>, offset: nat, patience: nat)
    requires offset <= MAX_SAMPLE_OFFSET && |all| > LastPageFrom(limit, offset) + PageLimit(limit)
    ensures var r := Browse(all, limit, offset, patience);
      r.Some? ==> |r.value| > |all| - offset
    decreases patience
  {
    var next := offset + PageLimit(limit);
    if patience > 0 {
      if next <= MAX_SAMPLE_OFFSET {
        BrowseTooMany(all, limit, next, patience - 1);
      } else {
        BrowseBeyondCap(all, limit, next, patience - 1);
      }
    }
  }

  lemma PageIs<T>(all: seq<T>, offset: nat, n: nat)
    requires offset <= |all|
    ensures |all| <= offset + n ==> Page(all, offset, n) == all[offset..]
    ensures |all| > offset + n ==> Page(all, offset, n) + all[offset + n..] == all[offset..]
  {}

  lemma {:induction false} BrowseFew<T>(all: seq<T>, limit: Option<nat>, offset: nat, patience: nat)
    requires offset <= MAX_SAMPLE_OFFSET && offset <= |all| <= LastPageFrom(limit, offset) + PageLimit(limit)
    requires patience > |all| - offset
    ensures Browse(all, limit, offset, patience) == Some(all[offset..])
    decreases patience
  {
    var next := offset + PageLimit(limit);
    PageIs(all, offset, PageLimit(limit));
    if |all| > next { BrowseFew(all, limit, next, patience - 1); }
  }

  /** A client that pages through the handler from the start collects every match once and in order iff the matches
      end no later than the last page that starts within the cap on `offset`. */
  lemma {:induction false} BrowsingTilesExactly<T>(all: seq<T>, limit: Option<nat>)
    ensures (exists patience :: Browse(all, limit, 0, patience) == Some(all)) <==>
      |all| <= LastPageFrom(limit, 0) + PageLimit(limit)
  {
    if |all| <= LastPageFrom(limit, 0) + PageLimit(limit) {
      BrowseFew(all, limit, 0, |all| + 1);
      assert all[0..] == all;
    } else {
      forall patience ensures Browse(all, limit, 0, patience) != Some(all) {
        BrowseTooMany(all, limit, 0, patience);
      }
    }
  }
}
