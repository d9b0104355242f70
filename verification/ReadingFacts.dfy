/** What one stored sample shows, exactly, in terms of the responses it records: where the bodies differ, where the
    headers differ, and nothing else. */
module ReadingFacts {
  import opened Wrappers
  import opened Strings
  import opened Json
  import opened Diffing
  import opened Flattening
  import opened FlatteningFacts
  import opened Suppression
  import opened Samples
  import opened Readings
  import opened EngineFacts

  // ---------- where headers differ ----------

  /** Several values on both sides, in equal number but not the same ones. */
  predicate ValuesComparedInside(a: seq<string>, b: seq<string>) {
    |a| == |b| && |a| >= 2 && multiset(a) != multiset(b)
  }

  /** A header that differs is a difference at its name; or, if its values are compared inside, at the name and the
      number of each value that differs. */
  ghost predicate HeaderPlace(h: HeaderMap, g: HeaderMap, segs: seq<string>) {
    segs != [] &&
    var a, b := RecordedValues(h, segs[0]), RecordedValues(g, segs[0]);
    && a != b
    && if ValuesComparedInside(a, b) then |segs| == 2 && exists i: nat | i < |a| :: a[i] != b[i] && OfNat(i) == segs[1]
       else |segs| == 1
  }

  function Strs(values: seq<string>): seq<Value> {
    seq(|values|, i requires 0 <= i < |values| => Str(values[i]))
  }

  /** The stored form of a header. */
  function ValuesJson(values: seq<string>): Option<Value> {
    if values == [] then None else if |values| == 1 then Some(Str(values[0])) else Some(Arr(Strs(values)))
  }

  lemma {:induction false} StrsCount(values: seq<string>, s: string)
    ensures multiset(Strs(values))[Str(s)] == multiset(values)[s]
  {
    if values != [] {
      var n := |values| - 1;
      StrsCount(values[..n], s);
      assert values == values[..n] + [values[n]];
      assert Strs(values) == Strs(values[..n]) + [Str(values[n])];
    }
  }

  lemma StrsMultiset(a: seq<string>, b: seq<string>)
    ensures multiset(Strs(a)) == multiset(Strs(b)) <==> multiset(a) == multiset(b)
  {
    if multiset(Strs(a)) == multiset(Strs(b)) {
      forall s ensures multiset(a)[s] == multiset(b)[s] {
        StrsCount(a, s);
        StrsCount(b, s);
      }
    }
    if multiset(a) == multiset(b) {
      forall v ensures multiset(Strs(a))[v] == multiset(Strs(b))[v] {
        if v.Str? {
          StrsCount(a, v.s);
          StrsCount(b, v.s);
        } else {
          assert v !in Strs(a) && v !in Strs(b);
        }
      }
    }
  }

  lemma StrsInjective(a: seq<string>, b: seq<string>)
    requires Strs(a) == Strs(b)
    ensures a == b
  {
    forall i | 0 <= i < |a| ensures a[i] == b[i] {
      assert Strs(a)[i] == Str(a[i]) && Strs(b)[i] == Str(b[i]);
    }
  }

  lemma ValuesJsonInjective(a: seq<string>, b: seq<string>)
    ensures ValuesJson(a) == ValuesJson(b) <==> a == b
  {
    if |a| >= 2 && |b| >= 2 && Strs(a) == Strs(b) { StrsInjective(a, b); }
  }

  lemma StepHeader(h: HeaderMap, name: string)
    ensures Step(Some(HeadersToJson(h)), name) == ValuesJson(RecordedValues(h, name))
  {
    HeadersToJsonForm(h, name);
    StepInto(HeadersToJson(h), name);
    var values, json := RecordedValues(h, name), HeadersToJson(h).fields;
    if |values| >= 2 { assert json[name].elems == Strs(values); }
  }

  lemma ValueElement(a: seq<string>, seg: string)
    requires |a| >= 2
    ensures var i := IndexOf(seg, |a|);
      Step(ValuesJson(a), seg) == if i.Some? then Some(Str(a[i.value])) else None
  {
    StepInto(Arr(Strs(a)), seg);
  }

  /** Places inside the values of one header. */
  lemma ValuesPlace(a: seq<string>, b: seq<string>, segs: seq<string>)
    ensures LeafPlace(ValuesJson(a), ValuesJson(b), segs) <==>
      a != b &&
      if ValuesComparedInside(a, b) then |segs| == 1 && exists i: nat | i < |a| :: a[i] != b[i] && OfNat(i) == segs[0]
      else segs == []
  {
    ValuesJsonInjective(a, b);
    StrsMultiset(a, b);
    assert ComparedInside(ValuesJson(a), ValuesJson(b)) <==> ValuesComparedInside(a, b);
    if ValuesComparedInside(a, b) && segs != [] {
      ValueElement(a, segs[0]);
      ValueElement(b, segs[0]);
      var i := IndexOf(segs[0], |a|);
      if i.Some? {
        LeafPlaceOfStrings(a[i.value], b[i.value], segs[1..]);
        forall j: nat | j < |a| && OfNat(j) == segs[0] ensures j == i.value { OfNatInjective(j, i.value); }
      } else {
        NothingToCompare(None, segs[1..]);
      }
    }
  }

  lemma LeafPlaceOfStrings(s: string, t: string, segs: seq<string>)
    ensures LeafPlace(Some(Str(s)), Some(Str(t)), segs) <==> s != t && segs == []
  {}

  /** What the stored header objects differ in is what the recorded values differ in. */
  lemma HeaderPlaceExactly(h: HeaderMap, g: HeaderMap, segs: seq<string>)
    ensures LeafPlace(Some(HeadersToJson(h)), Some(HeadersToJson(g)), segs) <==> HeaderPlace(h, g, segs)
  {
    if segs != [] {
      var a, b := RecordedValues(h, segs[0]), RecordedValues(g, segs[0]);
      StepHeader(h, segs[0]);
      StepHeader(g, segs[0]);
      ValuesPlace(a, b, segs[1..]);
      ValuesJsonInjective(a, b);
      if ValuesComparedInside(a, b) && |segs| == 2 { assert segs[1..][0] == segs[1]; }
    }
  }

  // ---------- what two responses differ in ----------

  /** `p` names a place where the values differ and are compared no further. */
  ghost predicate PlaceAt(l: Value, r: Value, p: string) {
    exists segs :: LeafPlace(Some(l), Some(r), segs) && PathFrom("", segs) == p
  }

  /** `fd` is the full account of what the values hold at such a place. */
  ghost predicate AccountAt(l: Value, r: Value, p: string, fd: FieldDiff) {
    exists segs :: LeafPlace(Some(l), Some(r), segs) && PathFrom("", segs) == p
      && Describes(fd, Walk(l, segs), Walk(r, segs))
  }

  /** Both bodies can be read and differ at `p`. */
  ghost predicate BodyReported(codec: Codec, baseline: Response, other: Response, p: string) {
    var l, r := ParsedBody(codec, baseline), ParsedBody(codec, other);
    l.Some? && r.Some? && PlaceAt(l.value, r.value, p)
  }

  ghost predicate HeaderReported(baseline: Response, other: Response, p: string) {
    exists segs :: HeaderPlace(baseline.headers, other.headers, segs) && ":headers." + PathFrom("", segs) == p
  }

  /** The paths at which a response that was received differs from the baseline. */
  ghost predicate Reported(codec: Codec, baseline: Response, other: Response, p: string) {
    if other.status != baseline.status then p == ":status"
    else BodyReported(codec, baseline, other, p) || HeaderReported(baseline, other, p)
  }

  /** What is recorded there: the two statuses; or what the headers hold; or else what the bodies hold. */
  ghost predicate RecordedAs(codec: Codec, baseline: Response, other: Response, p: string, fd: FieldDiff) {
    if other.status != baseline.status then
      p == ":status"
      && fd == FieldDiff(Some(Num(Integer(baseline.status))), Some(Num(Integer(other.status))), StatusMismatch)
    else if HeaderReported(baseline, other, p) then HeaderRecorded(baseline, other, p, fd)
    else BodyRecorded(codec, baseline, other, p, fd)
  }

  ghost predicate HeaderRecorded(baseline: Response, other: Response, p: string, fd: FieldDiff) {
    exists segs :: HeaderPlace(baseline.headers, other.headers, segs) && ":headers." + PathFrom("", segs) == p
      && Describes(fd, Walk(HeadersToJson(baseline.headers), segs), Walk(HeadersToJson(other.headers), segs))
  }

  ghost predicate BodyRecorded(codec: Codec, baseline: Response, other: Response, p: string, fd: FieldDiff) {
    var l, r := ParsedBody(codec, baseline), ParsedBody(codec, other);
    l.Some? && r.Some? && AccountAt(l.value, r.value, p, fd)
  }

  // ---------- the reported paths are those ----------

  lemma DiffPathsExactly(l: Value, r: Value, p: string)
    ensures p in DiffPaths(l, r) <==> PlaceAt(l, r, p)
  {
    if p in DiffPaths(l, r) {
      var x :| x in Leaves(Diff(l, r)) && PathFrom("", x.segs) == p;
      LeavesExactly(l, r, x.segs);
    }
    if segs :| LeafPlace(Some(l), Some(r), segs) && PathFrom("", segs) == p {
      LeavesExactly(l, r, segs);
      var x :| x in Leaves(Diff(l, r)) && x.segs == segs;
    }
  }

  lemma HitsExactly(l: Value, r: Value, p: string, fd: FieldDiff)
    ensures Hits(Leaves(Diff(l, r)), "", p, fd) <==> AccountAt(l, r, p, fd)
  {
    if x :| x in Leaves(Diff(l, r)) && PathFrom("", x.segs) == p && x.diff == fd { LeafExactly(l, r, x); }
    if segs :| LeafPlace(Some(l), Some(r), segs) && PathFrom("", segs) == p
               && Describes(fd, Walk(l, segs), Walk(r, segs))
    {
      LeafExactly(l, r, Leaf(segs, fd));
      assert Leaf(segs, fd).segs == segs;
    }
  }

  /** The two sides as they are read back. */
  ghost predicate ReadBack(codec: Codec, baseline: Response, other: Option<Response>, b: Baseline, o: Other) {
    && ParsedBody(codec, baseline).Some?
    && b == Baseline(ParsedBody(codec, baseline).value, HeadersToJson(baseline.headers), baseline.status)
    && ReadsAs(codec, baseline, other, o)
  }

  lemma HeaderPathMember(h: HeaderMap, g: HeaderMap, p: string)
    ensures (exists q <- DiffPaths(HeadersToJson(h), HeadersToJson(g)) :: HeaderPath(q) == p) <==>
      exists segs :: HeaderPlace(h, g, segs) && ":headers." + PathFrom("", segs) == p
  {
    var l, r := HeadersToJson(h), HeadersToJson(g);
    if q :| q in DiffPaths(l, r) && HeaderPath(q) == p {
      DiffPathsExactly(l, r, q);
      var segs :| LeafPlace(Some(l), Some(r), segs) && PathFrom("", segs) == q;
      HeaderPlaceExactly(h, g, segs);
      assert ":headers." + PathFrom("", segs) == p;
    }
    if segs :| HeaderPlace(h, g, segs) && ":headers." + PathFrom("", segs) == p {
      HeaderPlaceExactly(h, g, segs);
      DiffPathsExactly(l, r, PathFrom("", segs));
      assert HeaderPath(PathFrom("", segs)) == p;
    }
  }

  lemma HeaderPathsExactly(codec: Codec, baseline: Response, other: Response, b: Baseline, o: Other, p: string)
    requires ReadBack(codec, baseline, Some(other), b, o) && other.status == baseline.status
    ensures p in HeaderPaths(b, o) <==> HeaderReported(baseline, other, p)
  {
    HeaderPathMember(baseline.headers, other.headers, p);
  }

  lemma DivergingExactly(codec: Codec, baseline: Response, other: Option<Response>, b: Baseline, o: Other, p: string)
    requires ReadBack(codec, baseline, other, b, o)
    ensures p in DivergingPaths(b, o) <==> other.Some? && Reported(codec, baseline, other.value, p)
  {
    if other.Some? && other.value.status == baseline.status {
      if o.body.Some? { DiffPathsExactly(b.body, o.body.value, p); }
      HeaderPathsExactly(codec, baseline, other.value, b, o, p);
    }
  }

  lemma HeaderHitRecorded(baseline: Response, other: Response, q: string, fd: FieldDiff)
    requires AccountAt(HeadersToJson(baseline.headers), HeadersToJson(other.headers), q, fd)
    ensures HeaderRecorded(baseline, other, HeaderPath(q), fd)
  {
    var l, r := HeadersToJson(baseline.headers), HeadersToJson(other.headers);
    var segs :| LeafPlace(Some(l), Some(r), segs) && PathFrom("", segs) == q
                && Describes(fd, Walk(l, segs), Walk(r, segs));
    HeaderPlaceExactly(baseline.headers, other.headers, segs);
    assert ":headers." + PathFrom("", segs) == HeaderPath(q);
  }

  lemma HeaderRecordedHit(baseline: Response, other: Response, p: string, fd: FieldDiff) returns (q: string)
    requires HeaderRecorded(baseline, other, p, fd)
    ensures HeaderPath(q) == p
    ensures AccountAt(HeadersToJson(baseline.headers), HeadersToJson(other.headers), q, fd)
  {
    var l, r := HeadersToJson(baseline.headers), HeadersToJson(other.headers);
    var segs :| HeaderPlace(baseline.headers, other.headers, segs) && ":headers." + PathFrom("", segs) == p
                && Describes(fd, Walk(l, segs), Walk(r, segs));
    HeaderPlaceExactly(baseline.headers, other.headers, segs);
    q := PathFrom("", segs);
  }

  lemma HeaderRecordExactly(codec: Codec, baseline: Response, other: Response, b: Baseline, o: Other,
                            p: string, fd: FieldDiff)
    requires ReadBack(codec, baseline, Some(other), b, o) && other.status == baseline.status
    ensures (exists q :: HeaderPath(q) == p && Hits(Leaves(Diff(b.headers, o.headers.value)), "", q, fd)) <==>
      HeaderRecorded(baseline, other, p, fd)
  {
    if q :| HeaderPath(q) == p && Hits(Leaves(Diff(b.headers, o.headers.value)), "", q, fd) {
      HitsExactly(b.headers, o.headers.value, q, fd);
      HeaderHitRecorded(baseline, other, q, fd);
    }
    if HeaderRecorded(baseline, other, p, fd) {
      var q := HeaderRecordedHit(baseline, other, p, fd);
      HitsExactly(b.headers, o.headers.value, q, fd);
    }
  }

  lemma RecordExactly(codec: Codec, baseline: Response, other: Option<Response>, b: Baseline, o: Other,
                      p: string, fd: FieldDiff)
    requires ReadBack(codec, baseline, other, b, o)
    ensures p in DivergingPaths(b, o) && MayRecord(b, o, p, fd) <==>
      other.Some? && RecordedAs(codec, baseline, other.value, p, fd)
  {
    DivergingExactly(codec, baseline, other, b, o, p);
    if other.Some? && other.value.status == baseline.status {
      if o.body.Some? { DiffPathsExactly(b.body, o.body.value, p); }
      HeaderPathsExactly(codec, baseline, other.value, b, o, p);
      HeaderRecordExactly(codec, baseline, other.value, b, o, p, fd);
      if o.body.Some? { HitsExactly(b.body, o.body.value, p, fd); }
    }
  }

  /** Wherever two bodies disagree there is a reported path at, above or below that place, whatever the headers do. */
  lemma {:induction false} DisagreementReported(codec: Codec, baseline: Response, other: Response, segs: seq<string>)
      returns (place: seq<string>)
    requires other.status == baseline.status && ParsedBody(codec, baseline).Some? && ParsedBody(codec, other).Some?
    requires Walk(ParsedBody(codec, baseline).value, segs) != Walk(ParsedBody(codec, other).value, segs)
    ensures Comparable(place, segs) && Reported(codec, baseline, other, PathFrom("", place))
  {
    var l, r := ParsedBody(codec, baseline).value, ParsedBody(codec, other).value;
    var x := LeavesComplete(l, r, segs);
    place := x.segs;
    LeavesExactly(l, r, place);
    assert PlaceAt(l, r, PathFrom("", place));
  }

  /** A compared header that differs is reported at its name or at one of its values, whatever the bodies do. */
  lemma {:induction false} HeaderDifferenceReported(codec: Codec, baseline: Response, other: Response, name: string)
      returns (rest: seq<string>)
    requires other.status == baseline.status
    requires RecordedValues(baseline.headers, name) != RecordedValues(other.headers, name)
    ensures Reported(codec, baseline, other, ":headers." + PathFrom("", [name] + rest)) && |rest| <= 1
  {
    var a, b := RecordedValues(baseline.headers, name), RecordedValues(other.headers, name);
    rest := [];
    if ValuesComparedInside(a, b) {
      var i: nat :| i < |a| && a[i] != b[i];
      rest := [OfNat(i)];
    }
    assert HeaderPlace(baseline.headers, other.headers, [name] + rest);
  }

  // ---------- what an assembled sample shows ----------

  /** The two sides of an assembled sample as a reading reads them. */
  lemma AssembledReadBack(reading: Reading, endpoint: string, msg: Message, maxBodyBytes: nat, now: int, id: string)
    requires ReadsBack(reading.codec) && Assemble(reading.codec, endpoint, msg, maxBodyBytes, now).Some?
    ensures var s := Assemble(reading.codec, endpoint, msg, maxBodyBytes, now).value.(id := id);
      && (reading.BaselineOf(s).Some? <==> ParsedBody(reading.codec, msg.baseline).Some?)
      && (reading.BaselineOf(s).Some? ==>
            && ReadBack(reading.codec, msg.baseline, msg.candidate, reading.BaselineOf(s).value, reading.Candidate(s))
            && ReadBack(reading.codec, msg.baseline, msg.control, reading.BaselineOf(s).value, reading.Control(s)))
  {
    BaselineReadsBack(reading.codec, endpoint, msg, maxBodyBytes, now, id);
    SidesReadBack(reading.codec, endpoint, msg, maxBodyBytes, now, id);
    var s := Assemble(reading.codec, endpoint, msg, maxBodyBytes, now).value.(id := id);
    var plain := Reading(reading.codec, endpoint, NO_RULES, NO_RULES);
    assert reading.BaselineOf(s) == plain.BaselineOf(s);
    assert reading.Candidate(s) == plain.Candidate(s) && reading.Control(s) == plain.Control(s);
  }

  /** An assembled sample shows a raw difference at exactly the paths at which the candidate answered differently and
      that no rule hides, and noise at exactly those at which the control did; a baseline that cannot be read hides
      everything. */
  lemma {:induction false} ShowsExactly(reading: Reading, endpoint: string, msg: Message, maxBodyBytes: nat, now: int,
                                        id: string, p: string)
    requires ReadsBack(reading.codec) && Assemble(reading.codec, endpoint, msg, maxBodyBytes, now).Some?
    ensures var s := Assemble(reading.codec, endpoint, msg, maxBodyBytes, now).value.(id := id);
      var readable := ParsedBody(reading.codec, msg.baseline).Some?;
      && (reading.Raw(s, p) <==>
            readable && msg.candidate.Some? && Reported(reading.codec, msg.baseline, msg.candidate.value, p)
            && reading.Keeps(p))
      && (reading.Noise(s, p) <==>
            readable && msg.control.Some? && Reported(reading.codec, msg.baseline, msg.control.value, p)
            && reading.Keeps(p))
  {
    var s := Assemble(reading.codec, endpoint, msg, maxBodyBytes, now).value.(id := id);
    AssembledReadBack(reading, endpoint, msg, maxBodyBytes, now, id);
    if reading.BaselineOf(s).Some? {
      var b := reading.BaselineOf(s).value;
      DivergingExactly(reading.codec, msg.baseline, msg.candidate, b, reading.Candidate(s), p);
      DivergingExactly(reading.codec, msg.baseline, msg.control, b, reading.Control(s), p);
    }
  }

  /** What an assembled sample may record at a path it shows is what the responses hold there. */
  lemma {:induction false} RecordsExactly(reading: Reading, endpoint: string, msg: Message, maxBodyBytes: nat, now: int,
                                          id: string, p: string, fd: FieldDiff)
    requires ReadsBack(reading.codec) && Assemble(reading.codec, endpoint, msg, maxBodyBytes, now).Some?
    ensures var s := Assemble(reading.codec, endpoint, msg, maxBodyBytes, now).value.(id := id);
      && (reading.RawRecord(s, p, fd) <==>
            reading.Raw(s, p) && RecordedAs(reading.codec, msg.baseline, msg.candidate.value, p, fd))
      && (reading.NoiseRecord(s, p, fd) <==>
            reading.Noise(s, p) && RecordedAs(reading.codec, msg.baseline, msg.control.value, p, fd))
  {
    var s := Assemble(reading.codec, endpoint, msg, maxBodyBytes, now).value.(id := id);
    AssembledReadBack(reading, endpoint, msg, maxBodyBytes, now, id);
    ShowsExactly(reading, endpoint, msg, maxBodyBytes, now, id, p);
    if reading.BaselineOf(s).Some? {
      var b := reading.BaselineOf(s).value;
      RecordExactly(reading.codec, msg.baseline, msg.candidate, b, reading.Candidate(s), p, fd);
      RecordExactly(reading.codec, msg.baseline, msg.control, b, reading.Control(s), p, fd);
    }
  }

  // ---------- stored values that cannot be read ----------

  /** Baseline headers that cannot be read count as none: the body is compared all the same, and no header difference
      is shown iff the other side's headers cannot be read either or are none. */
  lemma {:induction false} UnreadableHeadersExactly(reading: Reading, s: RawSample)
    requires reading.codec.parseText(s.baselineHeaders).None?
    ensures reading.BaselineOf(s).Some? <==> reading.codec.parse(s.baselineBody).Some?
    ensures reading.BaselineOf(s).Some? ==>
      var b, o := reading.BaselineOf(s).value, reading.Candidate(s);
      && b.body == reading.codec.parse(s.baselineBody).value
      && (HeaderPaths(b, o) == {} <==> o.headers.None? || o.headers.value == Obj(map[]))
  {
    if reading.BaselineOf(s).Some? && reading.Candidate(s).headers.Some? {
      var l, r := reading.BaselineOf(s).value.headers, reading.Candidate(s).headers.value;
      EmptyIffEqual(l, r);
      var b, o := reading.BaselineOf(s).value, reading.Candidate(s);
      forall q | q in DiffPaths(l, r) ensures HeaderPath(q) in HeaderPaths(b, o) {}
    }
  }

  // ---------- what the rules hide ----------

  /** A reading keeps exactly the paths that no stored and no ad-hoc pattern of its endpoint covers. */
  lemma KeepsExactly(rx: RegexNew, reading: Reading, p: string)
    requires WellCompiled(rx, reading.rules) && WellCompiled(rx, reading.extra)
    ensures reading.Keeps(p) <==>
      forall pattern <- PathsFor(reading.rules, reading.endpoint) + PathsFor(reading.extra, reading.endpoint) ::
        !Covers(rx, pattern, Split(p, '.'))
  {
    SuppressedIffCovered(rx, reading.rules, reading.endpoint, p);
    SuppressedIffCovered(rx, reading.extra, reading.endpoint, p);
  }
}
