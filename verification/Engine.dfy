/** The read-side diff engine (the upper half of src/analysis/engine.rs). */
module Engine {
  import opened Wrappers
  import opened Strings
  import opened Flattening
  import opened Suppression
  import opened Classifying
  import opened Samples
  import opened Readings

  datatype EndpointCounts = EndpointCounts(
    endpoint: string, total: nat, fields: map<string, FieldCounts>, lastUpdated: int)

  datatype DiffItem = DiffItem(
    id: string, timestamp: int, raw: Option<FieldDiff>, noise: Option<FieldDiff>, requestCurl: Option<string>)

  datatype SamplePage = SamplePage(items: seq<DiffItem>, limit: nat, offset: nat, hasMore: bool)

  datatype DiffDetail = DiffDetail(
    endpoint: string, path: string, total: nat, rawCount: nat, noiseCount: nat, isRegression: bool,
    relativeDifference: real, absoluteDifference: real, lastUpdated: Option<int>, samples: SamplePage)
  {
    predicate IsEmptyAtFirstPage() {
      rawCount == 0 && noiseCount == 0 && samples.items == [] && !samples.hasMore && samples.offset == 0
    }
  }

  // ---------- machine integers ----------

  const USIZE_MAX: nat := 0xFFFF_FFFF_FFFF_FFFF

  function SaturatingAdd(a: nat, b: nat): nat {
    if a + b > USIZE_MAX then USIZE_MAX else a + b
  }

  function Skip<T>(s: seq<T>, n: nat): seq<T> {
    if n <= |s| then s[n..] else []
  }

  function Take<T>(s: seq<T>, n: nat): seq<T> {
    if n <= |s| then s[..n] else s
  }

  /** The page of `s` that starts at `offset`. */
  function Page<T>(s: seq<T>, offset: nat, limit: nat): seq<T> {
    if offset >= |s| then [] else if offset + limit <= |s| then s[offset..offset + limit] else s[offset..]
  }

  // ---------- tallies ----------

  function CountAt(fields: map<string, FieldCounts>, path: string): FieldCounts {
    if path in fields then fields[path] else FieldCounts(0, 0)
  }

  /** `fields` holds the counts of every path at which some sample diverges, and no other path. */
  ghost predicate Tallies(reading: Reading, samples: seq<RawSample>, fields: map<string, FieldCounts>) {
    forall p :: TalliesAt(fields, p, reading.RawCount(samples, p), reading.NoiseCount(samples, p))
  }

  ghost predicate TalliesAt(fields: map<string, FieldCounts>, path: string, raw: nat, noise: nat) {
    CountAt(fields, path) == FieldCounts(raw, noise) && (path in fields <==> raw + noise > 0)
  }

  function Latest(samples: seq<RawSample>): int
    requires samples != []
  {
    if |samples| == 1 then samples[0].timestamp
    else
      var rest := Latest(samples[1..]);
      if samples[0].timestamp > rest then samples[0].timestamp else rest
  }

  // ---------- items ----------

  ghost predicate Shows(reading: Reading, item: DiffItem, s: RawSample, path: string) {
    && item.id == s.id && item.timestamp == s.timestamp && item.requestCurl == s.requestCurl
    && (item.raw.Some? <==> reading.Raw(s, path)) && (item.raw.Some? ==> reading.RawRecord(s, path, item.raw.value))
    && (item.noise.Some? <==> reading.Noise(s, path))
    && (item.noise.Some? ==> reading.NoiseRecord(s, path, item.noise.value))
  }

  /** The items show exactly these samples, in this order. */
  ghost predicate ShowsAll(reading: Reading, items: seq<DiffItem>, samples: seq<RawSample>, path: string) {
    |items| == |samples| && forall i | 0 <= i < |items| :: Shows(reading, items[i], samples[i], path)
  }

  // ---------- verdicts ----------

  predicate Regresses(classifiers: EndpointClassifiers, endpoint: string, path: string, counts: FieldCounts, total: nat)
  {
    if path == STATUS_FIELD then counts.rawCount > counts.noiseCount
    else classifiers.ForEndpoint(endpoint).IsRegression(counts, total)
  }

  function Regressions(classifiers: EndpointClassifiers, counts: EndpointCounts): seq<string> {
    Sorted(set p | p in counts.fields && Regresses(classifiers, counts.endpoint, p, counts.fields[p], counts.total))
  }

  /** What `Detail` promises about every field of its result. */
  ghost predicate IsDetail(d: DiffDetail, classifiers: EndpointClassifiers, reading: Reading, path: string,
                           samples: seq<RawSample>, limit: nat, offset: nat)
  {
    var counts := FieldCounts(reading.RawCount(samples, path), reading.NoiseCount(samples, path));
    var all := reading.Matching(samples, path);
    && d.endpoint == reading.endpoint && d.path == path && d.total == |samples|
    && d.rawCount == counts.rawCount && d.noiseCount == counts.noiseCount
    && d.isRegression == Regresses(classifiers, reading.endpoint, path, counts, |samples|)
    && d.relativeDifference == counts.RelativeDifference()
    && d.absoluteDifference == counts.AbsoluteDifference(|samples|)
    && d.lastUpdated == (if samples == [] then None else Some(samples[0].timestamp))
    && ShowsAll(reading, d.samples.items, Page(all, offset, limit), path)
    && d.samples.limit == limit && d.samples.offset == offset
    && d.samples.hasMore == (|all| > offset + limit)
  }

  ghost predicate IsAggregate(r: Option<EndpointCounts>, reading: Reading, samples: seq<RawSample>) {
    && (r.None? <==> samples == [])
    && (r.Some? ==>
         && r.value.endpoint == reading.endpoint && r.value.total == |samples|
         && Tallies(reading, samples, r.value.fields)
         && r.value.lastUpdated == Latest(samples))
  }

  // ---------- steps of the loops ----------

  /** `fields` are the tallies of `samples`, plus one raw for every path in `raw` and one noise for every path in
      `noise`. */
  ghost predicate Counting(reading: Reading, samples: seq<RawSample>, fields: map<string, FieldCounts>,
                           raw: set<string>, noise: set<string>)
  {
    forall p :: TalliesAt(fields, p,
      reading.RawCount(samples, p) + (if p in raw then 1 else 0),
        reading.NoiseCount(samples, p) + (if p in noise then 1 else 0))
  }

  lemma CountingDone(reading: Reading, samples: seq<RawSample>, s: RawSample, fields: map<string, FieldCounts>,
                     raw: set<string>, noise: set<string>)
    requires Counting(reading, samples, fields, raw, noise)
    requires forall p :: (p in raw <==> reading.Raw(s, p)) && (p in noise <==> reading.Noise(s, p))
    ensures Tallies(reading, samples + [s], fields)
  {
    assert (samples + [s])[..|samples|] == samples;
    forall p ensures TalliesAt(fields, p, reading.RawCount(samples + [s], p), reading.NoiseCount(samples + [s], p)) {
      assert p in raw <==> reading.Raw(s, p);
      assert p in noise <==> reading.Noise(s, p);
      assert TalliesAt(fields, p,
        reading.RawCount(samples, p) + (if p in raw then 1 else 0),
          reading.NoiseCount(samples, p) + (if p in noise then 1 else 0));
    }
  }

  lemma CountRaw(reading: Reading, samples: seq<RawSample>, fields: map<string, FieldCounts>, raw: set<string>,
                 p: string)
    requires Counting(reading, samples, fields, raw, {}) && p !in raw
    ensures var c := CountAt(fields, p);
      Counting(reading, samples, fields[p := FieldCounts(c.rawCount + 1, c.noiseCount)], raw + {p}, {})
  {
    var c := CountAt(fields, p);
    var after := fields[p := FieldCounts(c.rawCount + 1, c.noiseCount)];
    forall q ensures TalliesAt(after, q,
      reading.RawCount(samples, q) + (if q in raw + {p} then 1 else 0), reading.NoiseCount(samples, q))
    {
      assert TalliesAt(fields, q, reading.RawCount(samples, q) + (if q in raw then 1 else 0),
        reading.NoiseCount(samples, q));
    }
  }

  lemma CountNoise(reading: Reading, samples: seq<RawSample>, fields: map<string, FieldCounts>, raw: set<string>,
                   noise: set<string>, p: string)
    requires Counting(reading, samples, fields, raw, noise) && p !in noise
    ensures var c := CountAt(fields, p);
      Counting(reading, samples, fields[p := FieldCounts(c.rawCount, c.noiseCount + 1)], raw, noise + {p})
  {
    var c := CountAt(fields, p);
    var after := fields[p := FieldCounts(c.rawCount, c.noiseCount + 1)];
    forall q ensures TalliesAt(after, q,
      reading.RawCount(samples, q) + (if q in raw then 1 else 0),
        reading.NoiseCount(samples, q) + (if q in noise + {p} then 1 else 0))
    {
      assert TalliesAt(fields, q,
        reading.RawCount(samples, q) + (if q in raw then 1 else 0),
          reading.NoiseCount(samples, q) + (if q in noise then 1 else 0));
    }
  }

  method AddRaw(ghost reading: Reading, ghost samples: seq<RawSample>, before: map<string, FieldCounts>,
                paths: set<string>)
      returns (fields: map<string, FieldCounts>)
    requires Counting(reading, samples, before, {}, {})
    ensures Counting(reading, samples, fields, paths, {})
  {
    fields := before;
    var pending := paths;
    ghost var done: set<string> := {};
    while pending != {}
      invariant done !! pending && done + pending == paths
      invariant Counting(reading, samples, fields, done, {})
    {
      var p :| p in pending;
      CountRaw(reading, samples, fields, done, p);
      var c := CountAt(fields, p);
      fields := fields[p := FieldCounts(c.rawCount + 1, c.noiseCount)];
      pending, done := pending - {p}, done + {p};
    }
    assert done == paths;
  }

  method AddNoise(ghost reading: Reading, ghost samples: seq<RawSample>, before: map<string, FieldCounts>,
                  ghost raw: set<string>, paths: set<string>)
      returns (fields: map<string, FieldCounts>)
    requires Counting(reading, samples, before, raw, {})
    ensures Counting(reading, samples, fields, raw, paths)
  {
    fields := before;
    var pending := paths;
    ghost var done: set<string> := {};
    while pending != {}
      invariant done !! pending && done + pending == paths
      invariant Counting(reading, samples, fields, raw, done)
    {
      var p :| p in pending;
      CountNoise(reading, samples, fields, raw, done, p);
      var c := CountAt(fields, p);
      fields := fields[p := FieldCounts(c.rawCount, c.noiseCount + 1)];
      pending, done := pending - {p}, done + {p};
    }
    assert done == paths;
  }

  lemma CountingStarts(reading: Reading, samples: seq<RawSample>, fields: map<string, FieldCounts>)
    requires Tallies(reading, samples, fields)
    ensures Counting(reading, samples, fields, {}, {})
  {
    forall p ensures TalliesAt(fields, p, reading.RawCount(samples, p) + 0, reading.NoiseCount(samples, p) + 0) {}
  }

  /** What one sample adds to the tallies: one to each path it diverges at. */
  function AddSample(reading: Reading, fields: map<string, FieldCounts>, s: RawSample): map<string, FieldCounts> {
    map p | p in fields.Keys + SamplePaths(reading, s) && (p in fields || reading.Raw(s, p) || reading.Noise(s, p)) ::
      Count(CountAt(fields, p), reading.Raw(s, p), reading.Noise(s, p))
  }

  function SamplePaths(reading: Reading, s: RawSample): set<string> {
    var b := reading.BaselineOf(s);
    if b.None? then {}
    else DivergingPaths(b.value, reading.Candidate(s)) + DivergingPaths(b.value, reading.Control(s))
  }

  lemma AddSampleTallies(reading: Reading, samples: seq<RawSample>, fields: map<string, FieldCounts>, s: RawSample)
    requires Tallies(reading, samples, fields)
    ensures Tallies(reading, samples + [s], AddSample(reading, fields, s))
  {
    assert (samples + [s])[..|samples|] == samples;
    forall p ensures TalliesAt(AddSample(reading, fields, s), p,
      reading.RawCount(samples + [s], p), reading.NoiseCount(samples + [s], p))
    {
      assert TalliesAt(fields, p, reading.RawCount(samples, p), reading.NoiseCount(samples, p));
    }
  }

  /** The samples leave no choice of tallies. */
  lemma TalliesUnique(reading: Reading, samples: seq<RawSample>, a: map<string, FieldCounts>,
                      b: map<string, FieldCounts>)
    requires Tallies(reading, samples, a) && Tallies(reading, samples, b)
    ensures a == b
  {
    forall p ensures (p in a <==> p in b) && (p in a ==> a[p] == b[p]) {
      assert TalliesAt(a, p, reading.RawCount(samples, p), reading.NoiseCount(samples, p));
      assert TalliesAt(b, p, reading.RawCount(samples, p), reading.NoiseCount(samples, p));
    }
  }

  /** One turn of the counting loop. */
  method CountSample(reading: Reading, ghost samples: seq<RawSample>, s: RawSample, before: map<string, FieldCounts>)
      returns (fields: map<string, FieldCounts>)
    requires Tallies(reading, samples, before)
    ensures Tallies(reading, samples + [s], fields) && fields == AddSample(reading, before, s)
  {
    CountingStarts(reading, samples, before);
    var raw, noise := DiffSample(reading, s);
    fields := AddRaw(reading, samples, before, raw.Keys);
    fields := AddNoise(reading, samples, fields, raw.Keys, noise.Keys);
    CountingDone(reading, samples, s, fields, raw.Keys, noise.Keys);
    AddSampleTallies(reading, samples, before, s);
    TalliesUnique(reading, samples + [s], fields, AddSample(reading, before, s));
  }

  /** The buffer never grows past `want`, and holds the first matches up to there. */
  ghost predicate Buffered(reading: Reading, matches: seq<DiffItem>, all: seq<RawSample>, path: string, want: nat) {
    ShowsAll(reading, matches, Take(all, want), path)
  }

  lemma BufferedNext(reading: Reading, matches: seq<DiffItem>, all: seq<RawSample>, s: RawSample, item: DiffItem,
                     path: string, want: nat)
    requires Buffered(reading, matches, all, path, want) && Shows(reading, item, s, path)
    ensures Buffered(reading, if |matches| < want then matches + [item] else matches, all + [s], path, want)
  {}

  /** Cutting the page out of the bounded buffer is cutting it out of all matches. */
  lemma {:induction false} PageOfBuffer(reading: Reading, matches: seq<DiffItem>, all: seq<RawSample>, path: string,
                                        limit: nat, offset: nat)
    requires |all| <= USIZE_MAX
    requires Buffered(reading, matches, all, path, SaturatingAdd(SaturatingAdd(offset, limit), 1))
    ensures ShowsAll(reading, Take(Skip(matches, offset), limit), Page(all, offset, limit), path)
    ensures |matches| > SaturatingAdd(offset, limit) <==> |all| > offset + limit
  {
    var items, page := Take(Skip(matches, offset), limit), Page(all, offset, limit);
    assert |items| == |page|;
    forall i | 0 <= i < |items| ensures Shows(reading, items[i], page[i], path) {
      assert items[i] == matches[offset + i] && page[i] == all[offset + i];
    }
  }

  lemma SeenOneMore(reading: Reading, samples: seq<RawSample>, i: nat, path: string)
    requires i < |samples|
    ensures reading.RawCount(samples[..i + 1], path) ==
      reading.RawCount(samples[..i], path) + (if reading.Raw(samples[i], path) then 1 else 0)
    ensures reading.NoiseCount(samples[..i + 1], path) ==
      reading.NoiseCount(samples[..i], path) + (if reading.Noise(samples[i], path) then 1 else 0)
    ensures reading.Matching(samples[..i + 1], path) ==
      reading.Matching(samples[..i], path) +
        (if reading.Raw(samples[i], path) || reading.Noise(samples[i], path) then [samples[i]] else [])
  {
    assert samples[..i + 1][..i] == samples[..i];
  }

  method DiffSampleAt(reading: Reading, s: RawSample, path: string)
      returns (rawAt: Option<FieldDiff>, noiseAt: Option<FieldDiff>)
    ensures (rawAt.Some? <==> reading.Raw(s, path)) && (rawAt.Some? ==> reading.RawRecord(s, path, rawAt.value))
    ensures (noiseAt.Some? <==> reading.Noise(s, path))
      && (noiseAt.Some? ==> reading.NoiseRecord(s, path, noiseAt.value))
  {
    var raw, noise := DiffSample(reading, s);
    rawAt := if path in raw then Some(raw[path]) else None;
    noiseAt := if path in noise then Some(noise[path]) else None;
  }

  // ---------- the engine ----------

  class DiffEngine {
    /** The shared rule set; its concurrent replacement is the subject of module RuleUpdates. */
    var suppress: SuppressRules
    const classifiers: EndpointClassifiers
    const codec: Codec
    const rx: RegexNew

    constructor (suppress: SuppressRules, classifiers: EndpointClassifiers, codec: Codec, rx: RegexNew)
      ensures this.suppress == suppress && this.classifiers == classifiers && this.codec == codec && this.rx == rx
    {
      this.suppress, this.classifiers, this.codec, this.rx := suppress, classifiers, codec, rx;
    }

    function ReadingOf(endpoint: string, extra: SuppressRules): Reading
      reads this
    {
      Reading(codec, endpoint, suppress, extra)
    }

    method SetSuppress(endpoint: string, paths: seq<string>) returns (accepted: bool)
      modifies this`suppress
      ensures accepted <==> CompileRules(rx, paths).Ok?
      ensures accepted ==> WithEndpoint(rx, old(suppress), endpoint, paths) == Ok(suppress)
      ensures !accepted ==> suppress == old(suppress)
    {
      if CompileRules(rx, paths).Err? {
        return false;
      }
      suppress := WithEndpoint(rx, suppress, endpoint, paths).value;
      accepted := true;
    }

    method Aggregate(endpoint: string, samples: seq<RawSample>, extra: SuppressRules)
        returns (r: Option<EndpointCounts>)
      ensures IsAggregate(r, ReadingOf(endpoint, extra), samples)
    {
      if samples == [] {
        return None;
      }
      var reading := Reading(codec, endpoint, suppress, extra);
      var fields: map<string, FieldCounts> := map[];
      for i := 0 to |samples|
        invariant Tallies(reading, samples[..i], fields)
      {
        fields := CountSample(reading, samples[..i], samples[i], fields);
        assert samples[..i + 1] == samples[..i] + [samples[i]];
      }
      assert samples[..|samples|] == samples;
      r := Some(EndpointCounts(endpoint, |samples|, fields, Latest(samples)));
    }

    method Detail(endpoint: string, path: string, samples: seq<RawSample>, extra: SuppressRules, limit: nat,
                  offset: nat)
        returns (d: DiffDetail)
      requires |samples| <= USIZE_MAX
      ensures IsDetail(d, classifiers, ReadingOf(endpoint, extra), path, samples, limit, offset)
    {
      var reading := Reading(codec, endpoint, suppress, extra);
      var counts := FieldCounts(0, 0);
      var want := SaturatingAdd(SaturatingAdd(offset, limit), 1);
      var matches: seq<DiffItem> := [];
      for i := 0 to |samples|
        invariant counts == FieldCounts(reading.RawCount(samples[..i], path), reading.NoiseCount(samples[..i], path))
        invariant Buffered(reading, matches, reading.Matching(samples[..i], path), path, want)
      {
        var s := samples[i];
        SeenOneMore(reading, samples, i, path);
        var rawAt, noiseAt := DiffSampleAt(reading, s, path);
        if rawAt.Some? {
          counts := FieldCounts(counts.rawCount + 1, counts.noiseCount);
        }
        if noiseAt.Some? {
          counts := FieldCounts(counts.rawCount, counts.noiseCount + 1);
        }
        if rawAt.Some? || noiseAt.Some? {
          var item := DiffItem(s.id, s.timestamp, rawAt, noiseAt, s.requestCurl);
          BufferedNext(reading, matches, reading.Matching(samples[..i], path), s, item, path, want);
          if |matches| < want {
            matches := matches + [item];
          }
        }
      }
      assert samples[..|samples|] == samples;
      PageOfBuffer(reading, matches, reading.Matching(samples, path), path, limit, offset);
      var hasMore := |matches| > SaturatingAdd(offset, limit);
      var items := Take(Skip(matches, offset), limit);
      d := DiffDetail(endpoint, path, |samples|, counts.rawCount, counts.noiseCount,
                      Regresses(classifiers, endpoint, path, counts, |samples|),
                      counts.RelativeDifference(), counts.AbsoluteDifference(|samples|),
                      if samples == [] then None else Some(samples[0].timestamp),
                      SamplePage(items, limit, offset, hasMore));
    }
  }
}
