/** Diffing one stored sample (the lower half of src/analysis/engine.rs): which paths a sample diverges at,
    and what may be recorded there. */
module Readings {
  import opened Wrappers
  import opened Json
  import opened Sequences
  import opened Diffing
  import opened Flattening
  import opened Suppression
  import opened Samples

  datatype Baseline = Baseline(body: Value, headers: Value, status: nat)

  datatype Other = Other(status: Option<nat>, body: Option<Value>, headers: Option<Value>)

  function HeaderPath(path: string): string {
    HEADER_FIELD_PREFIX + "." + path
  }

  // ---------- specification ----------

  function BodyPaths(b: Baseline, o: Other): set<string> {
    if o.body.Some? then DiffPaths(b.body, o.body.value) else {}
  }

  function HeaderPaths(b: Baseline, o: Other): set<string> {
    if o.headers.Some? then set p <- DiffPaths(b.headers, o.headers.value) :: HeaderPath(p) else {}
  }

  /** The paths at which `o` diverges from the baseline, before suppression. */
  function DivergingPaths(b: Baseline, o: Other): set<string> {
    match o.status
    case None => {}
    case Some(status) => if status == b.status then BodyPaths(b, o) + HeaderPaths(b, o) else {STATUS_FIELD}
  }

  /** `fd` may be recorded at `p`: the status pair, a header leaf, or else a body leaf. */
  ghost predicate MayRecord(b: Baseline, o: Other, p: string, fd: FieldDiff) {
    o.status.Some? &&
    if o.status.value != b.status then
      fd == FieldDiff(Some(Num(Integer(b.status))), Some(Num(Integer(o.status.value))), StatusMismatch)
    else if p in HeaderPaths(b, o) then
      exists q :: HeaderPath(q) == p && Hits(Leaves(Diff(b.headers, o.headers.value)), "", q, fd)
    else
      o.body.Some? && Hits(Leaves(Diff(b.body, o.body.value)), "", p, fd)
  }

  /** What one read of an endpoint depends on besides the samples. */
  datatype Reading = Reading(codec: Codec, endpoint: string, rules: SuppressRules, extra: SuppressRules) {

    predicate Keeps(path: string) {
      !IsSuppressed(rules, endpoint, path) && !IsSuppressed(extra, endpoint, path)
    }

    function BaselineOf(s: RawSample): Option<Baseline> {
      var body, headers := codec.parse(s.baselineBody), codec.parseText(s.baselineHeaders);
      if body.None? then None
      else Some(Baseline(body.value, if headers.Some? then headers.value else Obj(map[]), s.baselineStatus))
    }

    function Side(status: Option<nat>, body: Option<Bytes>, headers: Option<string>): Other {
      Other(status, if body.Some? then codec.parse(body.value) else None,
            if headers.Some? then codec.parseText(headers.value) else None)
    }

    function Candidate(s: RawSample): Other {
      Side(s.candidateStatus, s.candidateBody, s.candidateHeaders)
    }

    function Control(s: RawSample): Other {
      Side(s.controlStatus, s.controlBody, s.controlHeaders)
    }

    /** The sample diverges at `path` on the candidate, and the path is not suppressed. */
    predicate Raw(s: RawSample, path: string) {
      BaselineOf(s).Some? && path in DivergingPaths(BaselineOf(s).value, Candidate(s)) && Keeps(path)
    }

    /** The sample diverges at `path` on the control, and the path is not suppressed. */
    predicate Noise(s: RawSample, path: string) {
      BaselineOf(s).Some? && path in DivergingPaths(BaselineOf(s).value, Control(s)) && Keeps(path)
    }

    ghost predicate RawRecord(s: RawSample, path: string, fd: FieldDiff) {
      Raw(s, path) && MayRecord(BaselineOf(s).value, Candidate(s), path, fd)
    }

    ghost predicate NoiseRecord(s: RawSample, path: string, fd: FieldDiff) {
      Noise(s, path) && MayRecord(BaselineOf(s).value, Control(s), path, fd)
    }

    function RawCount(samples: seq<RawSample>, path: string): (n: nat)
      ensures n <= |samples|
    {
      if samples == [] then 0
      else RawCount(samples[..|samples| - 1], path) + (if Raw(samples[|samples| - 1], path) then 1 else 0)
    }

    function NoiseCount(samples: seq<RawSample>, path: string): (n: nat)
      ensures n <= |samples|
    {
      if samples == [] then 0
      else NoiseCount(samples[..|samples| - 1], path) + (if Noise(samples[|samples| - 1], path) then 1 else 0)
    }

    /** The samples that diverge at `path` on either side, in the order given. */
    function Matching(samples: seq<RawSample>, path: string): (m: seq<RawSample>)
      ensures |m| <= |samples|
    {
      if samples == [] then []
      else
        var last := samples[|samples| - 1];
        Matching(samples[..|samples| - 1], path) + (if Raw(last, path) || Noise(last, path) then [last] else [])
    }
  }

  // ---------- what is counted and matched ----------

  ghost predicate IsRawAt(reading: Reading, samples: seq<RawSample>, path: string, i: nat) {
    i < |samples| && reading.Raw(samples[i], path)
  }

  ghost predicate IsNoiseAt(reading: Reading, samples: seq<RawSample>, path: string, i: nat) {
    i < |samples| && reading.Noise(samples[i], path)
  }

  ghost function RawPositions(reading: Reading, samples: seq<RawSample>, path: string): set<nat> {
    set i: nat | i < |samples| && IsRawAt(reading, samples, path, i)
  }

  ghost function NoisePositions(reading: Reading, samples: seq<RawSample>, path: string): set<nat> {
    set i: nat | i < |samples| && IsNoiseAt(reading, samples, path, i)
  }

  lemma OneMorePosition(reading: Reading, samples: seq<RawSample>, path: string)
    requires samples != []
    ensures var n := |samples| - 1;
      && RawPositions(reading, samples, path) ==
           RawPositions(reading, samples[..n], path) + (if reading.Raw(samples[n], path) then {n} else {})
      && NoisePositions(reading, samples, path) ==
           NoisePositions(reading, samples[..n], path) + (if reading.Noise(samples[n], path) then {n} else {})
  {
    var n := |samples| - 1;
    forall i: nat | i != n
      ensures IsRawAt(reading, samples, path, i) == IsRawAt(reading, samples[..n], path, i)
      ensures IsNoiseAt(reading, samples, path, i) == IsNoiseAt(reading, samples[..n], path, i)
    {}
  }

  /** The counts are the numbers of samples that diverge. */
  lemma {:induction false} CountsExactly(reading: Reading, samples: seq<RawSample>, path: string)
    ensures reading.RawCount(samples, path) == |RawPositions(reading, samples, path)|
    ensures reading.NoiseCount(samples, path) == |NoisePositions(reading, samples, path)|
  {
    if samples != [] {
      CountsExactly(reading, samples[..|samples| - 1], path);
      OneMorePosition(reading, samples, path);
    }
  }

  /** The matches are the samples that diverge on a side, each once and in the order given. */
  lemma {:induction false} MatchingExactly(reading: Reading, samples: seq<RawSample>, path: string)
      returns (at: seq<nat>)
    ensures Picks(reading.Matching(samples, path), samples, at)
    ensures forall i: nat :: i in at <==>
      IsRawAt(reading, samples, path, i) || IsNoiseAt(reading, samples, path, i)
  {
    at := [];
    if samples != [] {
      var n := |samples| - 1;
      at := MatchingExactly(reading, samples[..n], path);
      var part := reading.Matching(samples[..n], path);
      assert samples == samples[..n] + [samples[n]];
      PickLast(part, samples[..n], at, samples[n]);
      forall i: nat | i != n
        ensures IsRawAt(reading, samples, path, i) == IsRawAt(reading, samples[..n], path, i)
        ensures IsNoiseAt(reading, samples, path, i) == IsNoiseAt(reading, samples[..n], path, i)
      {}
      if IsRawAt(reading, samples, path, n) || IsNoiseAt(reading, samples, path, n) {
        at := at + [n];
      } else {
        assert part + [] == part;
      }
    }
  }

  // ---------- the methods ----------

  method DiffOne(reading: Reading, b: Baseline, o: Other) returns (diffs: map<string, FieldDiff>)
    ensures forall p :: p in diffs <==> p in DivergingPaths(b, o) && reading.Keeps(p)
    ensures forall p <- diffs :: MayRecord(b, o, p, diffs[p])
  {
    diffs := map[];
    match o.status {
      case None =>
      case Some(status) =>
        if status == b.status {
          diffs := DiffMatching(b, o);
        } else {
          diffs := map[STATUS_FIELD :=
            FieldDiff(Some(Num(Integer(b.status))), Some(Num(Integer(status))), StatusMismatch)];
        }
    }
    diffs := map p | p in diffs && reading.Keeps(p) :: diffs[p];
  }

  /** Header diffs are inserted after the body's, so they win where the two share a path. */
  method AddHeaderDiffs(bodyDiffs: map<string, FieldDiff>, headerDiffs: map<string, FieldDiff>)
      returns (diffs: map<string, FieldDiff>)
    ensures diffs.Keys == bodyDiffs.Keys + set q <- headerDiffs :: HeaderPath(q)
    ensures forall p <- diffs :: if exists q <- headerDiffs :: HeaderPath(q) == p
      then exists q <- headerDiffs :: HeaderPath(q) == p && diffs[p] == headerDiffs[q]
      else diffs[p] == bodyDiffs[p]
  {
    diffs := bodyDiffs;
    var pending := headerDiffs.Keys;
    ghost var done: set<string> := {};
    while pending != {}
      invariant done !! pending && done + pending == headerDiffs.Keys
      invariant diffs.Keys == bodyDiffs.Keys + set q <- done :: HeaderPath(q)
      invariant forall p <- diffs :: if exists q <- done :: HeaderPath(q) == p
        then exists q <- done :: HeaderPath(q) == p && diffs[p] == headerDiffs[q]
        else diffs[p] == bodyDiffs[p]
    {
      var q :| q in pending;
      diffs := diffs[HeaderPath(q) := headerDiffs[q]];
      pending, done := pending - {q}, done + {q};
    }
    assert done == headerDiffs.Keys;
  }

  method DiffMatching(b: Baseline, o: Other) returns (diffs: map<string, FieldDiff>)
    requires o.status == Some(b.status)
    ensures diffs.Keys == DivergingPaths(b, o)
    ensures forall p <- diffs :: MayRecord(b, o, p, diffs[p])
  {
    diffs := map[];
    if o.body.Some? {
      diffs := FlattenValue(b.body, o.body.value);
    }
    if o.headers.Some? {
      ghost var bodyDiffs := diffs;
      var headerDiffs := FlattenValue(b.headers, o.headers.value);
      diffs := AddHeaderDiffs(diffs, headerDiffs);
      forall p | p in diffs ensures MayRecord(b, o, p, diffs[p]) {
        if p in HeaderPaths(b, o) {
          var q :| q in headerDiffs && HeaderPath(q) == p && diffs[p] == headerDiffs[q];
          assert Hits(Leaves(Diff(b.headers, o.headers.value)), "", q, headerDiffs[q]);
        } else {
          assert diffs[p] == bodyDiffs[p];
        }
      }
    }
  }

  method DiffSample(reading: Reading, s: RawSample) returns (raw: map<string, FieldDiff>, noise: map<string, FieldDiff>)
    ensures forall p :: p in raw <==> reading.Raw(s, p)
    ensures forall p :: p in noise <==> reading.Noise(s, p)
    ensures forall p <- raw :: reading.RawRecord(s, p, raw[p])
    ensures forall p <- noise :: reading.NoiseRecord(s, p, noise[p])
  {
    var baseline := reading.BaselineOf(s);
    if baseline.None? {
      return map[], map[];
    }
    raw := DiffOne(reading, baseline.value, reading.Candidate(s));
    noise := DiffOne(reading, baseline.value, reading.Control(s));
  }
}
