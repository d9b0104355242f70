/** What the engine's two read paths promise together, over any list of samples. */
module EngineFacts {
  import opened Wrappers
  import opened Json
  import opened Flattening
  import opened FlatteningFacts
  import opened Suppression
  import opened Classifying
  import opened Samples
  import opened Readings
  import opened Engine

  // ---------- counting does not depend on where a sample stands ----------

  lemma {:induction false} CountNewest(reading: Reading, s: RawSample, samples: seq<RawSample>, path: string)
    ensures FieldCounts(reading.RawCount([s] + samples, path), reading.NoiseCount([s] + samples, path)) ==
      Count(FieldCounts(reading.RawCount(samples, path), reading.NoiseCount(samples, path)), reading.Raw(s, path),
        reading.Noise(s, path))
    decreases |samples|
  {
    var all := [s] + samples;
    if samples == [] {
      assert all[..0] == [] && all[|all| - 1] == s;
    } else {
      var n := |samples| - 1;
      CountNewest(reading, s, samples[..n], path);
      assert all[..|all| - 1] == [s] + samples[..n];
      assert all[|all| - 1] == samples[n];
    }
  }

  lemma VerdictMoves(classifiers: EndpointClassifiers, endpoint: string, path: string, c: FieldCounts, total: nat,
                     raw: bool, noise: bool)
    requires c.rawCount <= total && c.noiseCount <= total
    ensures !Regresses(classifiers, endpoint, path, c, total)
      && Regresses(classifiers, endpoint, path, Count(c, raw, noise), total + 1)
      ==> raw && !noise
    ensures Regresses(classifiers, endpoint, path, c, total) && raw && !noise
      ==> Regresses(classifiers, endpoint, path, Count(c, raw, noise), total + 1)
  {
    OnlyRightEvidenceMoves(classifiers.ForEndpoint(endpoint), c, total, raw, noise);
  }

  function CountsOf(reading: Reading, samples: seq<RawSample>, path: string): FieldCounts {
    FieldCounts(reading.RawCount(samples, path), reading.NoiseCount(samples, path))
  }

  /** The verdict on a path, from the samples. */
  predicate IsRegressing(classifiers: EndpointClassifiers, reading: Reading, samples: seq<RawSample>, path: string) {
    Regresses(classifiers, reading.endpoint, path, CountsOf(reading, samples, path), |samples|)
  }

  /** One more sample turns a path into a regression only if it diverges there on the candidate and not on the
      control, and such a sample never clears a regression. */
  lemma {:induction false} OnlyDivergingSampleMovesVerdict(classifiers: EndpointClassifiers, reading: Reading,
                                                           samples: seq<RawSample>, s: RawSample, path: string)
    ensures !IsRegressing(classifiers, reading, samples, path)
      && IsRegressing(classifiers, reading, [s] + samples, path)
      ==> reading.Raw(s, path) && !reading.Noise(s, path)
    ensures IsRegressing(classifiers, reading, samples, path) && reading.Raw(s, path) && !reading.Noise(s, path)
      ==> IsRegressing(classifiers, reading, [s] + samples, path)
  {
    CountNewest(reading, s, samples, path);
    VerdictMoves(classifiers, reading.endpoint, path, CountsOf(reading, samples, path), |samples|,
                 reading.Raw(s, path), reading.Noise(s, path));
  }

  /** How much a sample speaks for a regression at `path`. */
  function SampleRank(reading: Reading, s: RawSample, path: string): nat {
    Rank(reading.Raw(s, path), reading.Noise(s, path))
  }

  lemma RegressesWithHigherRank(classifiers: EndpointClassifiers, endpoint: string, path: string, c: FieldCounts,
                                total: nat, raw: bool, noise: bool, raw': bool, noise': bool)
    requires c.rawCount < total && c.noiseCount < total && Rank(raw, noise) <= Rank(raw', noise')
    requires Regresses(classifiers, endpoint, path, Count(c, raw, noise), total)
    ensures Regresses(classifiers, endpoint, path, Count(c, raw', noise'), total)
  {
    if path != STATUS_FIELD {
      HigherRankKeepsRegression(classifiers.ForEndpoint(endpoint), c, total, raw, noise, raw', noise');
    }
  }

  lemma CountOldest(reading: Reading, s: RawSample, samples: seq<RawSample>, path: string)
    ensures CountsOf(reading, samples + [s], path) ==
      Count(CountsOf(reading, samples, path), reading.Raw(s, path), reading.Noise(s, path))
  {
    assert (samples + [s])[..|samples|] == samples;
  }

  /** When an arriving sample drives out the oldest, a path turns into a regression only if the arriving sample ranks
      above the evicted one there, and stops being one only if it ranks below. */
  lemma {:induction false} EvictionMovesVerdict(classifiers: EndpointClassifiers, reading: Reading,
                                                samples: seq<RawSample>, arriving: RawSample, evicted: RawSample,
                                                path: string)
    ensures var before, after := samples + [evicted], [arriving] + samples;
      && (!IsRegressing(classifiers, reading, before, path) && IsRegressing(classifiers, reading, after, path) ==>
            SampleRank(reading, arriving, path) > SampleRank(reading, evicted, path))
      && (IsRegressing(classifiers, reading, before, path) && !IsRegressing(classifiers, reading, after, path) ==>
            SampleRank(reading, arriving, path) < SampleRank(reading, evicted, path))
  {
    CountNewest(reading, arriving, samples, path);
    CountOldest(reading, evicted, samples, path);
    var c, total, endpoint := CountsOf(reading, samples, path), |samples| + 1, reading.endpoint;
    var raw, noise := reading.Raw(evicted, path), reading.Noise(evicted, path);
    var raw', noise' := reading.Raw(arriving, path), reading.Noise(arriving, path);
    if Rank(raw', noise') <= Rank(raw, noise) && Regresses(classifiers, endpoint, path, Count(c, raw', noise'), total) {
      RegressesWithHigherRank(classifiers, endpoint, path, c, total, raw', noise', raw, noise);
    }
    if Rank(raw, noise) <= Rank(raw', noise') && Regresses(classifiers, endpoint, path, Count(c, raw, noise), total) {
      RegressesWithHigherRank(classifiers, endpoint, path, c, total, raw, noise, raw', noise');
    }
  }

  /** Both percentages shown for a path lie between 0 and 100. */
  lemma {:induction false} ShownPercentagesBounded(classifiers: EndpointClassifiers, reading: Reading,
                                                   samples: seq<RawSample>, path: string, d: DiffDetail, limit: nat,
                                                   offset: nat)
    requires IsDetail(d, classifiers, reading, path, samples, limit, offset)
    ensures 0.0 <= d.relativeDifference <= 100.0 && 0.0 <= d.absoluteDifference <= 100.0
  {
    PercentagesBounded(CountsOf(reading, samples, path), |samples|);
  }

  /** Candidate divergence exceeds control divergence, by more than the thresholds of the endpoint ask for: its own if
      it has any, and the default ones otherwise. */
  predicate Exceeds(classifiers: EndpointClassifiers, endpoint: string, raw: nat, noise: nat, total: nat) {
    var k := if endpoint in classifiers.perEndpoint then classifiers.perEndpoint[endpoint] else classifiers.default;
    var excess := (raw - noise) as real * 100.0;
    raw > noise && excess > k.relativeThreshold * (raw + noise) as real && excess > k.absoluteThreshold * total as real
  }

  /** A path is a regression iff the samples that diverge there exceed the thresholds of its endpoint; the status field
      iff more of them diverge on the candidate than on the control. */
  lemma {:induction false} VerdictExactly(classifiers: EndpointClassifiers, reading: Reading, samples: seq<RawSample>,
                                          path: string)
    ensures var raw, noise := |RawPositions(reading, samples, path)|, |NoisePositions(reading, samples, path)|;
      IsRegressing(classifiers, reading, samples, path) <==>
        if path == ":status" then raw > noise
        else Exceeds(classifiers, reading.endpoint, raw, noise, |samples|)
  {
    CountsExactly(reading, samples, path);
    RegressesExactly(classifiers, reading.endpoint, path, CountsOf(reading, samples, path), |samples|);
  }

  lemma RegressesExactly(classifiers: EndpointClassifiers, endpoint: string, path: string, c: FieldCounts, total: nat)
    requires c.rawCount <= total && c.noiseCount <= total
    ensures Regresses(classifiers, endpoint, path, c, total) <==>
      if path == ":status" then c.rawCount > c.noiseCount
      else Exceeds(classifiers, endpoint, c.rawCount, c.noiseCount, total)
  {
    VerdictByCrossMultiplication(classifiers.ForEndpoint(endpoint), c, total);
  }

  /** That is the verdict of every detail, and what puts a path on the list of regressions. */
  lemma {:induction false} VerdictShownExactly(classifiers: EndpointClassifiers, reading: Reading,
                                               samples: seq<RawSample>, path: string, r: Option<EndpointCounts>,
                                               d: DiffDetail, limit: nat, offset: nat)
    requires samples != [] && IsAggregate(r, reading, samples)
    requires IsDetail(d, classifiers, reading, path, samples, limit, offset)
    ensures var raw, noise := |RawPositions(reading, samples, path)|, |NoisePositions(reading, samples, path)|;
      && d.rawCount == raw && d.noiseCount == noise
      && (d.isRegression <==>
            if path == ":status" then raw > noise
            else Exceeds(classifiers, reading.endpoint, raw, noise, |samples|))
      && (path in Regressions(classifiers, r.value) <==> d.isRegression)
  {
    VerdictExactly(classifiers, reading, samples, path);
    CountsExactly(reading, samples, path);
    ReadPathsAgree(classifiers, reading, samples, path, r, d, limit, offset);
  }

  /** Status divergence needs no margin: its verdict is the one a classifier with zero thresholds would give. */
  lemma {:induction false} StatusIgnoresThresholds(classifiers: EndpointClassifiers, reading: Reading,
                                                   samples: seq<RawSample>)
    ensures IsRegressing(classifiers, reading, samples, STATUS_FIELD) <==>
      RegressionClassifier(0.0, 0.0).IsRegression(CountsOf(reading, samples, STATUS_FIELD), |samples|)
  {
    VerdictByCrossMultiplication(RegressionClassifier(0.0, 0.0), CountsOf(reading, samples, STATUS_FIELD), |samples|);
  }

  // ---------- suppression commutes with counting ----------

  lemma {:induction false} CountsSuppressed(reading: Reading, all: Reading, samples: seq<RawSample>, path: string)
    requires all == reading.(rules := NO_RULES, extra := NO_RULES)
    ensures reading.RawCount(samples, path) == if reading.Keeps(path) then all.RawCount(samples, path) else 0
    ensures reading.NoiseCount(samples, path) == if reading.Keeps(path) then all.NoiseCount(samples, path) else 0
    decreases |samples|
  {
    if samples != [] {
      CountsSuppressed(reading, all, samples[..|samples| - 1], path);
    }
  }

  /** Tallying under rules is tallying without rules and then dropping the suppressed paths. */
  lemma {:induction false} SuppressionCommutes(reading: Reading, samples: seq<RawSample>,
                                               under: map<string, FieldCounts>, without: map<string, FieldCounts>)
    requires Tallies(reading, samples, under)
    requires Tallies(reading.(rules := NO_RULES, extra := NO_RULES), samples, without)
    ensures under == map p | p in without && reading.Keeps(p) :: without[p]
  {
    var all := reading.(rules := NO_RULES, extra := NO_RULES);
    var kept := map p | p in without && reading.Keeps(p) :: without[p];
    forall p ensures (p in under <==> p in kept) && (p in under ==> under[p] == kept[p]) {
      CountsSuppressed(reading, all, samples, p);
      assert TalliesAt(under, p, reading.RawCount(samples, p), reading.NoiseCount(samples, p));
      assert TalliesAt(without, p, all.RawCount(samples, p), all.NoiseCount(samples, p));
    }
  }

  lemma {:induction false} CountsAgree(a: Reading, b: Reading, samples: seq<RawSample>, path: string)
    requires a.codec == b.codec && a.endpoint == b.endpoint && a.Keeps(path) == b.Keeps(path)
    ensures a.RawCount(samples, path) == b.RawCount(samples, path)
    ensures a.NoiseCount(samples, path) == b.NoiseCount(samples, path)
    decreases |samples|
  {
    if samples != [] {
      CountsAgree(a, b, samples[..|samples| - 1], path);
    }
  }

  /** The tallies shown while previewing extra patterns are the tallies after saving them with the stored ones. */
  lemma {:induction false} PreviewEqualsSave(rx: RegexNew, codec: Codec, stored: SuppressRules, endpoint: string,
                                             patterns: seq<string>, samples: seq<RawSample>,
                                             preview: map<string, FieldCounts>, saved: map<string, FieldCounts>)
    requires WellCompiled(rx, stored) && ForEndpoint(rx, endpoint, patterns).Ok?
    requires Tallies(Reading(codec, endpoint, stored, ForEndpoint(rx, endpoint, patterns).value), samples, preview)
    requires var after := WithEndpoint(rx, stored, endpoint, PathsFor(stored, endpoint) + patterns);
      after.Ok? ==> Tallies(Reading(codec, endpoint, after.value, NO_RULES), samples, saved)
    ensures WithEndpoint(rx, stored, endpoint, PathsFor(stored, endpoint) + patterns).Ok?
    ensures preview == saved
  {
    PreviewEqualsSaveRules(rx, stored, endpoint, patterns, "");
    var after := WithEndpoint(rx, stored, endpoint, PathsFor(stored, endpoint) + patterns);
    var a := Reading(codec, endpoint, stored, ForEndpoint(rx, endpoint, patterns).value);
    var b := Reading(codec, endpoint, after.value, NO_RULES);
    forall p ensures (p in preview <==> p in saved) && (p in preview ==> preview[p] == saved[p]) {
      PreviewEqualsSaveRules(rx, stored, endpoint, patterns, p);
      CountsAgree(a, b, samples, p);
      assert TalliesAt(preview, p, a.RawCount(samples, p), a.NoiseCount(samples, p));
      assert TalliesAt(saved, p, b.RawCount(samples, p), b.NoiseCount(samples, p));
    }
  }

  lemma {:induction false} MatchingAgrees(a: Reading, b: Reading, samples: seq<RawSample>, path: string)
    requires a.codec == b.codec && a.endpoint == b.endpoint && a.Keeps(path) == b.Keeps(path)
    ensures a.Matching(samples, path) == b.Matching(samples, path)
    decreases |samples|
  {
    if samples != [] {
      MatchingAgrees(a, b, samples[..|samples| - 1], path);
    }
  }

  /** The items name the same samples and show a difference on the same sides. */
  ghost predicate SameItems(a: seq<DiffItem>, b: seq<DiffItem>) {
    && |a| == |b|
    && forall i | 0 <= i < |a| ::
         && a[i].id == b[i].id && a[i].timestamp == b[i].timestamp && a[i].requestCurl == b[i].requestCurl
         && a[i].raw.Some? == b[i].raw.Some? && a[i].noise.Some? == b[i].noise.Some?
  }

  /** Two details that agree in everything but which of the leaves that share the path is recorded in an item. */
  ghost predicate SameDetail(a: DiffDetail, b: DiffDetail) {
    && a == b.(samples := b.samples.(items := a.samples.items))
    && SameItems(a.samples.items, b.samples.items)
  }

  lemma SameDetailFromReadings(classifiers: EndpointClassifiers, a: Reading, b: Reading, path: string,
                               samples: seq<RawSample>, limit: nat, offset: nat, d: DiffDetail, e: DiffDetail)
    requires a.codec == b.codec && a.endpoint == b.endpoint && a.Keeps(path) == b.Keeps(path)
    requires IsDetail(d, classifiers, a, path, samples, limit, offset)
    requires IsDetail(e, classifiers, b, path, samples, limit, offset)
    ensures SameDetail(d, e)
  {
    CountsAgree(a, b, samples, path);
    MatchingAgrees(a, b, samples, path);
    var page := Page(a.Matching(samples, path), offset, limit);
    forall i | 0 <= i < |page|
      ensures d.samples.items[i].raw.Some? == e.samples.items[i].raw.Some?
      ensures d.samples.items[i].noise.Some? == e.samples.items[i].noise.Some?
    {
      assert Shows(a, d.samples.items[i], page[i], path) && Shows(b, e.samples.items[i], page[i], path);
      assert a.Raw(page[i], path) == b.Raw(page[i], path) && a.Noise(page[i], path) == b.Noise(page[i], path);
    }
  }

  /** The detail shown while previewing extra patterns is the detail after saving them with the stored ones. */
  lemma {:induction false} PreviewEqualsSaveDetail(rx: RegexNew, codec: Codec, stored: SuppressRules, endpoint: string,
                                                   patterns: seq<string>, classifiers: EndpointClassifiers,
                                                   path: string, samples: seq<RawSample>, limit: nat, offset: nat,
                                                   preview: DiffDetail, saved: DiffDetail)
    requires WellCompiled(rx, stored) && ForEndpoint(rx, endpoint, patterns).Ok?
    requires IsDetail(preview, classifiers, Reading(codec, endpoint, stored, ForEndpoint(rx, endpoint, patterns).value),
                      path, samples, limit, offset)
    requires var after := WithEndpoint(rx, stored, endpoint, PathsFor(stored, endpoint) + patterns);
      after.Ok? ==>
        IsDetail(saved, classifiers, Reading(codec, endpoint, after.value, NO_RULES), path, samples, limit, offset)
    ensures WithEndpoint(rx, stored, endpoint, PathsFor(stored, endpoint) + patterns).Ok?
    ensures SameDetail(preview, saved)
  {
    PreviewEqualsSaveRules(rx, stored, endpoint, patterns, path);
    var after := WithEndpoint(rx, stored, endpoint, PathsFor(stored, endpoint) + patterns);
    SameDetailFromReadings(classifiers, Reading(codec, endpoint, stored, ForEndpoint(rx, endpoint, patterns).value),
                           Reading(codec, endpoint, after.value, NO_RULES), path, samples, limit, offset,
                           preview, saved);
  }

  // ---------- the two read paths agree ----------

  lemma {:induction false} MatchingIffCounted(reading: Reading, samples: seq<RawSample>, path: string)
    ensures reading.Matching(samples, path) == [] <==>
      reading.RawCount(samples, path) + reading.NoiseCount(samples, path) == 0
    decreases |samples|
  {
    if samples != [] {
      MatchingIffCounted(reading, samples[..|samples| - 1], path);
    }
  }

  /** `detail` shows the counts and the verdict of `aggregate`, answers 404 on its first page exactly for the
      paths `aggregate` does not list, and calls a path a regression exactly if `regressions` lists it. */
  lemma {:induction false} ReadPathsAgree(classifiers: EndpointClassifiers, reading: Reading, samples: seq<RawSample>,
                                          path: string, r: Option<EndpointCounts>, d: DiffDetail, limit: nat,
                                          offset: nat)
    requires samples != [] && IsAggregate(r, reading, samples)
    requires IsDetail(d, classifiers, reading, path, samples, limit, offset)
    ensures FieldCounts(d.rawCount, d.noiseCount) == CountAt(r.value.fields, path)
    ensures d.total == r.value.total
    ensures d.isRegression <==> path in Regressions(classifiers, r.value)
    ensures d.IsEmptyAtFirstPage() <==> offset == 0 && path !in r.value.fields
  {
    var raw, noise := reading.RawCount(samples, path), reading.NoiseCount(samples, path);
    assert TalliesAt(r.value.fields, path, raw, noise);
    MatchingIffCounted(reading, samples, path);
  }

  ghost predicate NewestFirst(samples: seq<RawSample>) {
    forall i, j | 0 <= i < j < |samples| :: samples[i].timestamp >= samples[j].timestamp
  }

  lemma {:induction false} LatestBounds(samples: seq<RawSample>)
    requires samples != []
    ensures forall s <- samples :: s.timestamp <= Latest(samples)
    ensures exists s <- samples :: s.timestamp == Latest(samples)
  {
    assert samples[0] in samples;
    if |samples| > 1 {
      LatestBounds(samples[1..]);
      assert forall s <- samples[1..] :: s in samples;
      assert forall s <- samples :: s == samples[0] || s in samples[1..];
    }
  }

  /** No sample is later than the one that comes first. */
  ghost predicate FirstIsLatest(samples: seq<RawSample>) {
    samples == [] || forall s <- samples :: s.timestamp <= samples[0].timestamp
  }

  /** `aggregate` takes the latest timestamp, `detail` the one of the sample that comes first. */
  ghost predicate SameLastUpdated(samples: seq<RawSample>) {
    samples != [] ==> Latest(samples) == samples[0].timestamp
  }

  lemma SameLastUpdatedExactly(samples: seq<RawSample>)
    ensures SameLastUpdated(samples) <==> FirstIsLatest(samples)
  {
    if samples != [] { LatestBounds(samples); }
  }

  /** Both read paths give the same time of last update iff no sample is later than the one that comes first. */
  lemma {:induction false} LastUpdatedAgrees(classifiers: EndpointClassifiers, reading: Reading,
                                             samples: seq<RawSample>, path: string, r: Option<EndpointCounts>,
                                             d: DiffDetail, limit: nat, offset: nat)
    requires samples != [] && IsAggregate(r, reading, samples)
    requires IsDetail(d, classifiers, reading, path, samples, limit, offset)
    ensures d.lastUpdated == Some(r.value.lastUpdated) <==> SameLastUpdated(samples)
    ensures d.lastUpdated == Some(r.value.lastUpdated) <==> FirstIsLatest(samples)
  {
    SameLastUpdatedExactly(samples);
  }

  // ---------- paging ----------

  /** A client that asks for the next page as long as `has_more` says so. */
  function ReadPages<T>(all: seq<T>, offset: nat, limit: nat): seq<T>
    requires limit > 0
    decreases |all| - offset
  {
    Page(all, offset, limit) + (if |all| > offset + limit then ReadPages(all, offset + limit, limit) else [])
  }

  /** Consecutive pages tile the matches: nothing is skipped and nothing repeated. */
  lemma {:induction false} PagesTile<T>(all: seq<T>, offset: nat, limit: nat)
    requires limit > 0 && offset <= |all|
    ensures ReadPages(all, offset, limit) == all[offset..]
    decreases |all| - offset
  {
    if |all| > offset + limit {
      PagesTile(all, offset + limit, limit);
    }
  }

  // ---------- no false "no difference" ----------

  /** The assumption on the header parser: it reads back the header objects that the consumer serialised. */
  ghost predicate ReadsBack(codec: Codec) {
    forall h: HeaderMap :: codec.parseText(HeadersText(h)) == Some(HeadersToJson(h))
  }

  /** The assumption on the body parser: it accepts what the write-time check accepted. */
  ghost predicate ChecksAgree(codec: Codec) {
    forall b | codec.isJson(b) :: codec.parse(b).Some?
  }

  /** The parsed body of a response, as far as it can be read. */
  function ParsedBody(codec: Codec, response: Response): Option<Value> {
    var b := codec.decode(response);
    if b.Some? then codec.parse(b.value) else None
  }

  ghost predicate NoDivergence(b: Baseline, o: Other) {
    DivergingPaths(b, o) == {}
  }

  lemma NoDivergenceExact(b: Baseline, o: Other)
    ensures NoDivergence(b, o) <==>
      o.status.None? || (o.status.value == b.status && (o.body.Some? ==> o.body.value == b.body)
                         && (o.headers.Some? ==> o.headers.value == b.headers))
  {
    if o.body.Some? { EmptyIffEqual(b.body, o.body.value); }
    if o.headers.Some? {
      EmptyIffEqual(b.headers, o.headers.value);
      forall p | p in DiffPaths(b.headers, o.headers.value) ensures HeaderPath(p) in HeaderPaths(b, o) {}
    }
    if o.status.Some? && o.status.value == b.status {
      assert DivergingPaths(b, o) == {} <==> BodyPaths(b, o) == {} && HeaderPaths(b, o) == {};
    }
  }

  /** Nothing to report for a side: it did not answer, or it agrees with the baseline in status, compared headers
      and (unless its body cannot be parsed) body. */
  predicate SideAgrees(codec: Codec, baseline: Response, other: Option<Response>) {
    other.None? ||
    (&& other.value.status == baseline.status
     && (ParsedBody(codec, other.value).None? || ParsedBody(codec, other.value) == ParsedBody(codec, baseline))
     && ComparedHeaders(other.value.headers) == ComparedHeaders(baseline.headers))
  }

  /** What is read back of the baseline of an assembled sample. */
  lemma BaselineReadsBack(codec: Codec, endpoint: string, msg: Message, maxBodyBytes: nat, now: int, id: string)
    requires ReadsBack(codec) && Assemble(codec, endpoint, msg, maxBodyBytes, now).Some?
    ensures var s := Assemble(codec, endpoint, msg, maxBodyBytes, now).value.(id := id);
      var body := ParsedBody(codec, msg.baseline);
      Reading(codec, endpoint, NO_RULES, NO_RULES).BaselineOf(s) ==
        if body.None? then None
        else Some(Baseline(body.value, HeadersToJson(msg.baseline.headers), msg.baseline.status))
  {
    assert codec.parseText(HeadersText(msg.baseline.headers)) == Some(HeadersToJson(msg.baseline.headers));
  }

  /** What is read back of another side of an assembled sample: its body and headers only if its status matched. */
  predicate ReadsAs(codec: Codec, baseline: Response, other: Option<Response>, o: Other) {
    match other
    case None => o.status.None?
    case Some(response) =>
      && o.status == Some(response.status)
      && (response.status == baseline.status ==>
            o.body == ParsedBody(codec, response) && o.headers == Some(HeadersToJson(response.headers)))
  }

  lemma SecondaryReadsBack(reading: Reading, baseline: Response, other: Option<Response>, maxBodyBytes: nat)
    requires ReadsBack(reading.codec) && Secondary(reading.codec, other, baseline.status, maxBodyBytes).Some?
    ensures var kept := Secondary(reading.codec, other, baseline.status, maxBodyBytes).value;
      ReadsAs(reading.codec, baseline, other, reading.Side(kept.status, kept.body, kept.headers))
  {
    if other.Some? {
      var h := other.value.headers;
      assert reading.codec.parseText(HeadersText(h)) == Some(HeadersToJson(h));
    }
  }

  lemma SidesReadBack(codec: Codec, endpoint: string, msg: Message, maxBodyBytes: nat, now: int, id: string)
    requires ReadsBack(codec) && Assemble(codec, endpoint, msg, maxBodyBytes, now).Some?
    ensures var s := Assemble(codec, endpoint, msg, maxBodyBytes, now).value.(id := id);
      var reading := Reading(codec, endpoint, NO_RULES, NO_RULES);
      && ReadsAs(codec, msg.baseline, msg.candidate, reading.Candidate(s))
      && ReadsAs(codec, msg.baseline, msg.control, reading.Control(s))
  {
    var reading := Reading(codec, endpoint, NO_RULES, NO_RULES);
    SecondaryReadsBack(reading, msg.baseline, msg.candidate, maxBodyBytes);
    SecondaryReadsBack(reading, msg.baseline, msg.control, maxBodyBytes);
  }

  lemma SideExact(codec: Codec, baseline: Response, other: Option<Response>, o: Other)
    requires ParsedBody(codec, baseline).Some? && ReadsAs(codec, baseline, other, o)
    ensures var b := Baseline(ParsedBody(codec, baseline).value, HeadersToJson(baseline.headers), baseline.status);
      NoDivergence(b, o) <==> SideAgrees(codec, baseline, other)
  {
    NoDivergenceExact(Baseline(ParsedBody(codec, baseline).value, HeadersToJson(baseline.headers), baseline.status), o);
    if other.Some? {
      HeadersToJsonExact(other.value.headers, baseline.headers);
    }
  }

  /** Exactly when an assembled sample shows no raw difference and when it shows no noise, with no assumption on the
      body parser: a body that passed the write-time check but cannot be parsed hides every body difference. */
  lemma EmptyExactly(codec: Codec, endpoint: string, msg: Message, maxBodyBytes: nat, now: int, id: string)
    requires ReadsBack(codec) && Assemble(codec, endpoint, msg, maxBodyBytes, now).Some?
    ensures var s := Assemble(codec, endpoint, msg, maxBodyBytes, now).value.(id := id);
      var reading := Reading(codec, endpoint, NO_RULES, NO_RULES);
      && ((forall p :: !reading.Raw(s, p)) <==>
            ParsedBody(codec, msg.baseline).None? || SideAgrees(codec, msg.baseline, msg.candidate))
      && ((forall p :: !reading.Noise(s, p)) <==>
            ParsedBody(codec, msg.baseline).None? || SideAgrees(codec, msg.baseline, msg.control))
  {
    var s := Assemble(codec, endpoint, msg, maxBodyBytes, now).value.(id := id);
    var reading := Reading(codec, endpoint, NO_RULES, NO_RULES);
    BaselineReadsBack(codec, endpoint, msg, maxBodyBytes, now, id);
    SidesReadBack(codec, endpoint, msg, maxBodyBytes, now, id);
    var b := reading.BaselineOf(s);
    if b.Some? {
      SideExact(codec, msg.baseline, msg.candidate, reading.Candidate(s));
      SideExact(codec, msg.baseline, msg.control, reading.Control(s));
      assert forall p :: reading.Raw(s, p) <==> p in DivergingPaths(b.value, reading.Candidate(s));
      assert forall p :: reading.Noise(s, p) <==> p in DivergingPaths(b.value, reading.Control(s));
    }
  }

  /** The two responses agree in everything that is compared. */
  predicate SameAnswer(codec: Codec, a: Response, b: Response) {
    a.status == b.status && ParsedBody(codec, a) == ParsedBody(codec, b)
      && ComparedHeaders(a.headers) == ComparedHeaders(b.headers)
  }

  /** No false "no difference": a stored sample shows no raw difference iff the candidate did not answer or its
      status, parsed body and compared headers all equal the baseline's; and likewise noise for the control. */
  lemma NoFalseNoDifference(codec: Codec, endpoint: string, msg: Message, maxBodyBytes: nat, now: int, id: string)
    requires ReadsBack(codec) && ChecksAgree(codec)
    requires Assemble(codec, endpoint, msg, maxBodyBytes, now).Some?
    ensures var s := Assemble(codec, endpoint, msg, maxBodyBytes, now).value.(id := id);
      var reading := Reading(codec, endpoint, NO_RULES, NO_RULES);
      && ((forall p :: !reading.Raw(s, p)) <==>
            msg.candidate.None? || SameAnswer(codec, msg.candidate.value, msg.baseline))
      && ((forall p :: !reading.Noise(s, p)) <==>
            msg.control.None? || SameAnswer(codec, msg.control.value, msg.baseline))
  {
    EmptyExactly(codec, endpoint, msg, maxBodyBytes, now, id);
    assert codec.parse(codec.decode(msg.baseline).value).Some?;
  }
}
