/** Concurrent `set_suppress` (src/analysis/engine.rs:87-98): writers load the shared rules, rebuild them and
    swap them in if nobody else has meanwhile, while readers each work on the snapshot they loaded once.
    Every interleaving of the atomic steps is a list of actions. */
module RuleUpdates {
  import opened Wrappers
  import opened Suppression
  import opened Classifying
  import opened Samples
  import opened Readings
  import opened Engine

  datatype Update = Update(ticket: nat, endpoint: string, paths: seq<string>)

  /** A published rule set. The version is its identity: a swap compares pointers, not contents. */
  datatype Cell = Cell(version: nat, rules: SuppressRules)

  datatype Writer =
    | Idle
    | Validated(update: Update)
    | Loaded(update: Update, seen: Cell)
    | Rebuilt(update: Update, seen: Cell, next: SuppressRules)
    | Panicked

  /** What a read has gathered so far: the tallies of `aggregate`, or the counts of `detail` and the first `want`
      samples that show its path. */
  datatype Progress =
    | Tallying(fields: map<string, FieldCounts>)
    | Showing(path: string, want: nat, counts: FieldCounts, matches: seq<RawSample>)

  /** A read in progress: `asOf` commits had happened when it loaded the rules. */
  datatype Reader = Reader(reading: Reading, asOf: nat, samples: seq<RawSample>, done: nat, progress: Progress)

  datatype State = State(
    shared: Cell, accepted: seq<Update>, committed: seq<Update>, writers: map<nat, Writer>, readers: map<nat, Reader>)

  datatype Action =
    | Submit(thread: nat, endpoint: string, paths: seq<string>)
    | Load(thread: nat)
    | Rebuild(thread: nat)
    | Swap(thread: nat)
    | StartAggregate(thread: nat, codec: Codec, endpoint: string, extra: SuppressRules, samples: seq<RawSample>)
    | StartDetail(thread: nat, codec: Codec, endpoint: string, extra: SuppressRules, samples: seq<RawSample>,
                  path: string, want: nat)
    | CountNext(thread: nat)

  function WriterOf(s: State, t: nat): Writer {
    if t in s.writers then s.writers[t] else Idle
  }

  // ---------- the steps ----------

  function Next(rx: RegexNew, s: State, a: Action): State {
    match a
    case Submit(t, endpoint, paths) =>
      if !WriterOf(s, t).Idle? || CompileRules(rx, paths).Err? then s
      else
        var u := Update(|s.accepted|, endpoint, paths);
        s.(accepted := s.accepted + [u], writers := s.writers[t := Validated(u)])
    case Load(t) =>
      var w := WriterOf(s, t);
      if w.Validated? then s.(writers := s.writers[t := Loaded(w.update, s.shared)]) else s
    case Rebuild(t) =>
      var w := WriterOf(s, t);
      if !w.Loaded? then s
      else
        var next := WithEndpoint(rx, w.seen.rules, w.update.endpoint, w.update.paths);
        s.(writers := s.writers[t := if next.Ok? then Rebuilt(w.update, w.seen, next.value) else Panicked])
    case Swap(t) =>
      var w := WriterOf(s, t);
      if !w.Rebuilt? then s
      else if w.seen.version == s.shared.version then
        s.(shared := Cell(s.shared.version + 1, w.next), committed := s.committed + [w.update],
          writers := s.writers[t := Idle])
      else s.(writers := s.writers[t := Loaded(w.update, s.shared)])
    case _ => s.(readers := NextReaders(s, a))
  }

  function NextReaders(s: State, a: Action): map<nat, Reader> {
    match a
    case StartAggregate(t, codec, endpoint, extra, samples) =>
      s.readers[t := Started(s, codec, endpoint, extra, samples, Tallying(map[]))]
    case StartDetail(t, codec, endpoint, extra, samples, path, want) =>
      s.readers[t := Started(s, codec, endpoint, extra, samples, Showing(path, want, FieldCounts(0, 0), []))]
    case CountNext(t) =>
      if t in s.readers && s.readers[t].done < |s.readers[t].samples| then s.readers[t := CountedNext(s.readers[t])]
      else s.readers
    case _ => s.readers
  }

  /** A read that has just loaded the rules. */
  function Started(s: State, codec: Codec, endpoint: string, extra: SuppressRules, samples: seq<RawSample>,
                   start: Progress): Reader
  {
    Reader(Reading(codec, endpoint, s.shared.rules, extra), |s.committed|, samples, 0, start)
  }

  function CountedNext(r: Reader): Reader
    requires r.done < |r.samples|
  {
    r.(done := r.done + 1, progress := Gather(r.reading, r.progress, r.samples[r.done]))
  }

  /** One turn of the loop over the samples, in `aggregate` and in `detail`. */
  function Gather(reading: Reading, p: Progress, s: RawSample): Progress {
    match p
    case Tallying(fields) => Tallying(AddSample(reading, fields, s))
    case Showing(path, want, counts, matches) =>
      var raw, noise := reading.Raw(s, path), reading.Noise(s, path);
      Showing(path, want, Count(counts, raw, noise),
              if (raw || noise) && |matches| < want then matches + [s] else matches)
  }

  function Run(rx: RegexNew, s: State, actions: seq<Action>): State {
    if actions == [] then s else Next(rx, Run(rx, s, actions[..|actions| - 1]), actions[|actions| - 1])
  }

  function Initial(rules: SuppressRules): State {
    State(Cell(0, rules), [], [], map[], map[])
  }

  // ---------- the specification: updates applied one after the other ----------

  function Replay(rx: RegexNew, rules: SuppressRules, updates: seq<Update>): SuppressRules {
    if updates == [] then rules
    else
      var n := |updates| - 1;
      var before := Replay(rx, rules, updates[..n]);
      var after := WithEndpoint(rx, before, updates[n].endpoint, updates[n].paths);
      if after.Ok? then after.value else before
  }

  /** The patterns of the last update to an endpoint, or the initial ones. */
  function LastPaths(rules: SuppressRules, updates: seq<Update>, endpoint: string): seq<string> {
    if updates == [] then PathsFor(rules, endpoint)
    else
      var n := |updates| - 1;
      if updates[n].endpoint == endpoint then updates[n].paths else LastPaths(rules, updates[..n], endpoint)
  }

  ghost predicate AllCompile(rx: RegexNew, updates: seq<Update>) {
    forall u <- updates :: CompileRules(rx, u.paths).Ok?
  }

  lemma {:induction false} ReplayReadsBack(rx: RegexNew, rules: SuppressRules, updates: seq<Update>)
    requires WellCompiled(rx, rules) && AllCompile(rx, updates)
    ensures WellCompiled(rx, Replay(rx, rules, updates))
    ensures forall e :: PathsFor(Replay(rx, rules, updates), e) == LastPaths(rules, updates, e)
  {
    if updates != [] {
      var n := |updates| - 1;
      assert updates[n] in updates && forall u <- updates[..n] :: u in updates;
      ReplayReadsBack(rx, rules, updates[..n]);
      WithEndpointReadsBack(rx, Replay(rx, rules, updates[..n]), updates[n].endpoint, updates[n].paths);
    }
  }

  // ---------- the invariant ----------

  ghost predicate WriterOk(rx: RegexNew, shared: Cell, accepted: seq<Update>, committed: seq<Update>, w: Writer) {
    match w
    case Idle => true
    case Validated(u) => u in accepted && u !in committed
    case Loaded(u, seen) => u in accepted && u !in committed && SeenOk(shared, seen)
    case Rebuilt(u, seen, next) =>
      u in accepted && u !in committed && SeenOk(shared, seen)
        && WithEndpoint(rx, seen.rules, u.endpoint, u.paths) == Ok(next)
    case Panicked => false
  }

  /** A version identifies the cell that carried it. */
  ghost predicate SeenOk(shared: Cell, seen: Cell) {
    seen.version <= shared.version && (seen.version == shared.version ==> seen == shared)
  }

  ghost predicate ReaderOk(rx: RegexNew, rules: SuppressRules, committed: seq<Update>, r: Reader) {
    && r.asOf <= |committed|
    && r.reading.rules == Replay(rx, rules, committed[..r.asOf])
    && r.done <= |r.samples|
    && Gathered(r.reading, r.samples[..r.done], r.progress)
  }

  /** The progress is what these samples amount to under one reading. */
  ghost predicate Gathered(reading: Reading, samples: seq<RawSample>, p: Progress) {
    match p
    case Tallying(fields) => Tallies(reading, samples, fields)
    case Showing(path, want, counts, matches) =>
      && counts == FieldCounts(reading.RawCount(samples, path), reading.NoiseCount(samples, path))
      && matches == Take(reading.Matching(samples, path), want)
  }

  predicate Carries(w: Writer, u: Update) {
    !w.Idle? && !w.Panicked? && w.update == u
  }

  ghost predicate Distinct(updates: seq<Update>) {
    forall i, j | 0 <= i < j < |updates| :: updates[i] != updates[j]
  }

  ghost predicate UpdatesOk(rx: RegexNew, accepted: seq<Update>, committed: seq<Update>) {
    && AllCompile(rx, accepted)
    && (forall i | 0 <= i < |accepted| :: accepted[i].ticket == i)
    && (forall u <- committed :: u in accepted)
    && Distinct(committed)
  }

  /** Every accepted update is committed or carried, and no two writers carry the same one. */
  ghost predicate Accounted(accepted: seq<Update>, committed: seq<Update>, writers: map<nat, Writer>) {
    && (forall t, t', u | t in writers && t' in writers && Carries(writers[t], u) && Carries(writers[t'], u) :: t == t')
    && (forall u <- accepted :: u in committed || exists t <- writers :: Carries(writers[t], u))
  }

  ghost predicate WritersOk(rx: RegexNew, shared: Cell, accepted: seq<Update>, committed: seq<Update>,
                            writers: map<nat, Writer>)
  {
    forall t <- writers :: WriterOk(rx, shared, accepted, committed, writers[t])
  }

  ghost predicate ReadersOk(rx: RegexNew, rules: SuppressRules, committed: seq<Update>, readers: map<nat, Reader>) {
    forall t <- readers :: ReaderOk(rx, rules, committed, readers[t])
  }

  ghost predicate Inv(rx: RegexNew, rules: SuppressRules, s: State) {
    && s.shared == Cell(|s.committed|, Replay(rx, rules, s.committed))
    && UpdatesOk(rx, s.accepted, s.committed)
    && Accounted(s.accepted, s.committed, s.writers)
    && WritersOk(rx, s.shared, s.accepted, s.committed, s.writers)
    && ReadersOk(rx, rules, s.committed, s.readers)
  }

  // ---------- every step keeps it ----------

  lemma SubmitKeeps(rx: RegexNew, rules: SuppressRules, s: State, t: nat, endpoint: string, paths: seq<string>)
    requires Inv(rx, rules, s) && WriterOf(s, t).Idle? && CompileRules(rx, paths).Ok?
    ensures Inv(rx, rules, Next(rx, s, Submit(t, endpoint, paths)))
  {
    var u := Update(|s.accepted|, endpoint, paths);
    var accepted, writers := s.accepted + [u], s.writers[t := Validated(u)];
    forall v | v in s.accepted ensures v != u {
      var i :| 0 <= i < |s.accepted| && s.accepted[i] == v;
    }
    assert WritersOk(rx, s.shared, accepted, s.committed, writers) by {
      forall t' | t' in writers ensures WriterOk(rx, s.shared, accepted, s.committed, writers[t']) {
        if t' != t { assert WriterOk(rx, s.shared, s.accepted, s.committed, s.writers[t']); }
      }
    }
    AccountedMore(rx, s, t, u);
  }

  lemma AccountedMore(rx: RegexNew, s: State, t: nat, u: Update)
    requires Accounted(s.accepted, s.committed, s.writers) && WriterOf(s, t).Idle? && u !in s.accepted
    requires WritersOk(rx, s.shared, s.accepted, s.committed, s.writers)
    ensures Accounted(s.accepted + [u], s.committed, s.writers[t := Validated(u)])
  {
    var accepted, writers := s.accepted + [u], s.writers[t := Validated(u)];
    forall t' | t' in s.writers ensures !Carries(s.writers[t'], u) {
      assert WriterOk(rx, s.shared, s.accepted, s.committed, s.writers[t']);
    }
    forall v | v in accepted && v !in s.committed ensures exists t' <- writers :: Carries(writers[t'], v) {
      if v == u {
        assert Carries(writers[t], u);
      } else {
        var t' :| t' in s.writers && Carries(s.writers[t'], v);
        assert Carries(writers[t'], v);
      }
    }
  }

  /** Steps of one writer that neither commit nor take a new update. */
  lemma WriterMoveKeeps(rx: RegexNew, rules: SuppressRules, s: State, t: nat, w: Writer)
    requires Inv(rx, rules, s) && t in s.writers && !s.writers[t].Idle?
    requires WriterOk(rx, s.shared, s.accepted, s.committed, w) && !w.Idle? && !w.Panicked? && !s.writers[t].Panicked?
    requires w.update == s.writers[t].update
    ensures Inv(rx, rules, s.(writers := s.writers[t := w]))
  {
    var writers := s.writers[t := w];
    forall t' | t' in writers ensures forall u :: Carries(writers[t'], u) <==> Carries(s.writers[t'], u) {}
    forall u | u in s.accepted && u !in s.committed ensures exists t' <- writers :: Carries(writers[t'], u) {
      var t' :| t' in s.writers && Carries(s.writers[t'], u);
      assert Carries(writers[t'], u);
    }
    assert Accounted(s.accepted, s.committed, writers);
  }

  lemma AccountedCommit(s: State, t: nat, u: Update)
    requires Accounted(s.accepted, s.committed, s.writers) && t in s.writers && Carries(s.writers[t], u)
    ensures Accounted(s.accepted, s.committed + [u], s.writers[t := Idle])
  {
    var committed, writers := s.committed + [u], s.writers[t := Idle];
    forall v | v in s.accepted && v !in committed ensures exists t' <- writers :: Carries(writers[t'], v) {
      assert v !in s.committed && v != u;
      var t' :| t' in s.writers && Carries(s.writers[t'], v);
      assert Carries(writers[t'], v);
    }
  }

  lemma CommitKeeps(rx: RegexNew, rules: SuppressRules, s: State, t: nat)
    requires Inv(rx, rules, s) && WriterOf(s, t).Rebuilt? && WriterOf(s, t).seen.version == s.shared.version
    ensures Inv(rx, rules, Next(rx, s, Swap(t)))
  {
    var s', w := Next(rx, s, Swap(t)), s.writers[t];
    assert WriterOk(rx, s.shared, s.accepted, s.committed, w);
    assert s'.committed[..|s.committed|] == s.committed;
    AccountedCommit(s, t, w.update);
    WritersAfterCommit(rx, s, s', t);
    ReadersAfterCommit(rx, rules, s.committed, w.update, s.readers);
  }

  lemma WritersAfterCommit(rx: RegexNew, s: State, s': State, t: nat)
    requires WriterOf(s, t).Rebuilt? && WriterOf(s, t).seen.version == s.shared.version && s' == Next(rx, s, Swap(t))
    requires WritersOk(rx, s.shared, s.accepted, s.committed, s.writers)
    requires Accounted(s.accepted, s.committed, s.writers)
    ensures WritersOk(rx, s'.shared, s'.accepted, s'.committed, s'.writers)
  {
    var u := s.writers[t].update;
    assert Carries(s.writers[t], u);
    forall t' | t' in s'.writers ensures WriterOk(rx, s'.shared, s'.accepted, s'.committed, s'.writers[t']) {
      if t' != t {
        assert WriterOk(rx, s.shared, s.accepted, s.committed, s.writers[t']);
        assert !Carries(s.writers[t'], u);
      }
    }
  }

  lemma ReadersAfterCommit(rx: RegexNew, rules: SuppressRules, committed: seq<Update>, u: Update,
                           readers: map<nat, Reader>)
    requires ReadersOk(rx, rules, committed, readers)
    ensures ReadersOk(rx, rules, committed + [u], readers)
  {
    forall t | t in readers ensures ReaderOk(rx, rules, committed + [u], readers[t]) {
      assert ReaderOk(rx, rules, committed, readers[t]);
      assert (committed + [u])[..readers[t].asOf] == committed[..readers[t].asOf];
    }
  }

  lemma StartedOk(rx: RegexNew, rules: SuppressRules, s: State, codec: Codec, endpoint: string, extra: SuppressRules,
                  samples: seq<RawSample>, start: Progress)
    requires s.shared.rules == Replay(rx, rules, s.committed)
    requires start == Tallying(map[]) || (start.Showing? && start.counts == FieldCounts(0, 0) && start.matches == [])
    ensures ReaderOk(rx, rules, s.committed, Started(s, codec, endpoint, extra, samples, start))
  {
    assert s.committed[..|s.committed|] == s.committed;
    assert samples[..0] == [];
  }

  lemma GatherOne(reading: Reading, samples: seq<RawSample>, p: Progress, s: RawSample)
    requires Gathered(reading, samples, p)
    ensures Gathered(reading, samples + [s], Gather(reading, p, s))
  {
    assert (samples + [s])[..|samples|] == samples;
    if p.Tallying? { AddSampleTallies(reading, samples, p.fields, s); }
  }

  lemma CountedNextGathers(r: Reader)
    requires r.done < |r.samples| && Gathered(r.reading, r.samples[..r.done], r.progress)
    ensures Gathered(r.reading, r.samples[..r.done + 1], CountedNext(r).progress)
  {
    assert r.samples[..r.done + 1] == r.samples[..r.done] + [r.samples[r.done]];
    GatherOne(r.reading, r.samples[..r.done], r.progress, r.samples[r.done]);
  }

  lemma CountedNextOk(rx: RegexNew, rules: SuppressRules, committed: seq<Update>, r: Reader)
    requires ReaderOk(rx, rules, committed, r) && r.done < |r.samples|
    ensures ReaderOk(rx, rules, committed, CountedNext(r))
  {
    CountedNextGathers(r);
  }

  lemma ReaderAdded(rx: RegexNew, rules: SuppressRules, s: State, t: nat, r: Reader)
    requires ReadersOk(rx, rules, s.committed, s.readers) && ReaderOk(rx, rules, s.committed, r)
    ensures ReadersOk(rx, rules, s.committed, s.readers[t := r])
  {}

  lemma NextReadersOk(rx: RegexNew, rules: SuppressRules, s: State, a: Action)
    requires s.shared.rules == Replay(rx, rules, s.committed) && ReadersOk(rx, rules, s.committed, s.readers)
    ensures ReadersOk(rx, rules, s.committed, NextReaders(s, a))
  {
    match a {
      case StartAggregate(t, codec, endpoint, extra, samples) =>
        var start := Tallying(map[]);
        StartedOk(rx, rules, s, codec, endpoint, extra, samples, start);
        ReaderAdded(rx, rules, s, t, Started(s, codec, endpoint, extra, samples, start));
      case StartDetail(t, codec, endpoint, extra, samples, path, want) =>
        var start := Showing(path, want, FieldCounts(0, 0), []);
        StartedOk(rx, rules, s, codec, endpoint, extra, samples, start);
        ReaderAdded(rx, rules, s, t, Started(s, codec, endpoint, extra, samples, start));
      case CountNext(t) =>
        if t in s.readers && s.readers[t].done < |s.readers[t].samples| {
          CountedNextOk(rx, rules, s.committed, s.readers[t]);
          ReaderAdded(rx, rules, s, t, CountedNext(s.readers[t]));
        }
      case _ =>
    }
  }

  lemma RebuildOk(rx: RegexNew, rules: SuppressRules, s: State, t: nat)
    requires Inv(rx, rules, s) && WriterOf(s, t).Loaded?
    ensures WriterOk(rx, s.shared, s.accepted, s.committed, Next(rx, s, Rebuild(t)).writers[t])
  {
    assert WriterOk(rx, s.shared, s.accepted, s.committed, s.writers[t]);
  }

  lemma SwapKeeps(rx: RegexNew, rules: SuppressRules, s: State, t: nat)
    requires Inv(rx, rules, s) && WriterOf(s, t).Rebuilt?
    ensures Inv(rx, rules, Next(rx, s, Swap(t)))
  {
    var w := s.writers[t];
    assert WriterOk(rx, s.shared, s.accepted, s.committed, w);
    if w.seen.version == s.shared.version { CommitKeeps(rx, rules, s, t); }
    else { WriterMoveKeeps(rx, rules, s, t, Loaded(w.update, s.shared)); }
  }

  lemma LoadKeeps(rx: RegexNew, rules: SuppressRules, s: State, t: nat)
    requires Inv(rx, rules, s) && WriterOf(s, t).Validated?
    ensures Inv(rx, rules, Next(rx, s, Load(t)))
  {
    var w := s.writers[t];
    assert WriterOk(rx, s.shared, s.accepted, s.committed, w);
    WriterMoveKeeps(rx, rules, s, t, Loaded(w.update, s.shared));
  }

  lemma RebuildKeeps(rx: RegexNew, rules: SuppressRules, s: State, t: nat)
    requires Inv(rx, rules, s) && WriterOf(s, t).Loaded?
    ensures Inv(rx, rules, Next(rx, s, Rebuild(t)))
  {
    RebuildOk(rx, rules, s, t);
    WriterMoveKeeps(rx, rules, s, t, Next(rx, s, Rebuild(t)).writers[t]);
  }

  lemma ReadStepKeeps(rx: RegexNew, rules: SuppressRules, s: State, a: Action)
    requires Inv(rx, rules, s)
    ensures Inv(rx, rules, s.(readers := NextReaders(s, a)))
  {
    NextReadersOk(rx, rules, s, a);
  }

  lemma StepKeeps(rx: RegexNew, rules: SuppressRules, s: State, a: Action)
    requires Inv(rx, rules, s)
    ensures Inv(rx, rules, Next(rx, s, a))
  {
    match a {
      case Submit(t, endpoint, paths) =>
        if WriterOf(s, t).Idle? && CompileRules(rx, paths).Ok? { SubmitKeeps(rx, rules, s, t, endpoint, paths); }
      case Load(t) => if WriterOf(s, t).Validated? { LoadKeeps(rx, rules, s, t); }
      case Rebuild(t) => if WriterOf(s, t).Loaded? { RebuildKeeps(rx, rules, s, t); }
      case Swap(t) => if WriterOf(s, t).Rebuilt? { SwapKeeps(rx, rules, s, t); }
      case _ => ReadStepKeeps(rx, rules, s, a);
    }
  }

  lemma {:induction false} RunKeeps(rx: RegexNew, rules: SuppressRules, actions: seq<Action>)
    requires WellCompiled(rx, rules)
    ensures Inv(rx, rules, Run(rx, Initial(rules), actions))
  {
    if actions != [] {
      var n := |actions| - 1;
      RunKeeps(rx, rules, actions[..n]);
      StepKeeps(rx, rules, Run(rx, Initial(rules), actions[..n]), actions[n]);
    }
  }

  // ---------- what every run guarantees ----------

  /** No update is lost: in every run the shared rules are the committed updates applied in commit order, so each
      endpoint has the patterns last committed for it, whatever happened to other endpoints; every accepted update
      is committed once or still carried by one writer; and no writer panics on recompiling. */
  lemma {:induction false} NoUpdateLost(rx: RegexNew, rules: SuppressRules, actions: seq<Action>)
    requires WellCompiled(rx, rules)
    ensures var s := Run(rx, Initial(rules), actions);
      && s.shared.rules == Replay(rx, rules, s.committed)
      && (forall e :: PathsFor(s.shared.rules, e) == LastPaths(rules, s.committed, e))
      && Distinct(s.committed)
      && (forall u <- s.committed :: u in s.accepted)
      && (forall u <- s.accepted :: u in s.committed <==> !exists t <- s.writers :: Carries(s.writers[t], u))
      && (forall t, t', u | t in s.writers && t' in s.writers && Carries(s.writers[t], u)
            && Carries(s.writers[t'], u) :: t == t')
      && (forall t <- s.writers :: !s.writers[t].Panicked?)
    // A rejected pattern changes nothing, at any point of any run.
    ensures forall t, endpoint, paths | CompileRules(rx, paths).Err? ::
      Next(rx, Run(rx, Initial(rules), actions), Submit(t, endpoint, paths)) == Run(rx, Initial(rules), actions)
  {
    RunKeeps(rx, rules, actions);
    var s := Run(rx, Initial(rules), actions);
    ReplayReadsBack(rx, rules, s.committed);
    forall t | t in s.writers
      ensures !s.writers[t].Panicked? && forall u :: Carries(s.writers[t], u) ==> u !in s.committed
    {
      assert WriterOk(rx, s.shared, s.accepted, s.committed, s.writers[t]);
    }
  }

  /** A swap fails only because another update was committed after this writer loaded the rules. */
  lemma {:induction false} FailedSwapMeansProgress(rx: RegexNew, rules: SuppressRules, actions: seq<Action>, t: nat)
    requires WellCompiled(rx, rules)
    ensures var s := Run(rx, Initial(rules), actions);
      var s' := Next(rx, s, Swap(t));
      WriterOf(s, t).Rebuilt? && s'.committed == s.committed ==> WriterOf(s, t).seen.version < |s.committed|
  {
    RunKeeps(rx, rules, actions);
    var s := Run(rx, Initial(rules), actions);
    if WriterOf(s, t).Rebuilt? {
      assert WriterOk(rx, s.shared, s.accepted, s.committed, s.writers[t]);
      assert |s.committed + [s.writers[t].update]| != |s.committed|;
    }
  }

  /** A read that ran interleaved with any number of updates treats all its samples under one rule set, the one the
      updates committed before it started had produced: `aggregate` tallies and `detail` counts and matches as if
      nobody had touched the rules meanwhile. */
  lemma {:induction false} ReadSeesOneSnapshot(rx: RegexNew, rules: SuppressRules, actions: seq<Action>, t: nat)
    requires WellCompiled(rx, rules)
    ensures var s := Run(rx, Initial(rules), actions);
      t in s.readers && s.readers[t].done == |s.readers[t].samples| ==>
        var r := s.readers[t];
        && r.asOf <= |s.committed|
        && r.reading.rules == Replay(rx, rules, s.committed[..r.asOf])
        && Gathered(r.reading, r.samples, r.progress)
  {
    RunKeeps(rx, rules, actions);
    var s := Run(rx, Initial(rules), actions);
    if t in s.readers && s.readers[t].done == |s.readers[t].samples| {
      var r := s.readers[t];
      assert ReaderOk(rx, rules, s.committed, r);
      assert r.samples[..r.done] == r.samples;
    }
  }

  // ---------- no update is stuck ----------

  /** The update of writer `t` has just been committed on top of the rules that `s` shares. */
  ghost predicate CommittedBy(rx: RegexNew, s: State, s': State, t: nat, u: Update) {
    && WriterOf(s', t).Idle? && s'.committed == s.committed + [u]
    && WithEndpoint(rx, s.shared.rules, u.endpoint, u.paths) == Ok(s'.shared.rules)
  }

  lemma RebuildCompiles(rx: RegexNew, rules: SuppressRules, s: State, t: nat)
    requires WellCompiled(rx, rules) && Inv(rx, rules, s) && WriterOf(s, t).Loaded?
    ensures var w := WriterOf(s, t);
      WriterOf(Next(rx, s, Rebuild(t)), t).Rebuilt? && Inv(rx, rules, Next(rx, s, Rebuild(t)))
  {
    RebuildKeeps(rx, rules, s, t);
    RebuildOk(rx, rules, s, t);
  }

  /** A rebuild and a swap that nobody interrupts commit, unless the rules loaded are out of date; then the current ones
      are loaded. */
  lemma RebuildAndSwap(rx: RegexNew, rules: SuppressRules, s: State, t: nat)
    requires WellCompiled(rx, rules) && Inv(rx, rules, s) && WriterOf(s, t).Loaded?
    ensures var w, s' := WriterOf(s, t), Next(rx, Next(rx, s, Rebuild(t)), Swap(t));
      if w.seen.version == s.shared.version then CommittedBy(rx, s, s', t, w.update)
      else WriterOf(s', t) == Loaded(w.update, s.shared) && s'.shared == s.shared && s'.committed == s.committed
           && Inv(rx, rules, s')
  {
    assert WriterOk(rx, s.shared, s.accepted, s.committed, s.writers[t]);
    RebuildCompiles(rx, rules, s, t);
    SwapKeeps(rx, rules, Next(rx, s, Rebuild(t)), t);
  }

  function Steps(rx: RegexNew, s: State, t: nat): State {
    Next(rx, Next(rx, s, Rebuild(t)), Swap(t))
  }

  lemma IdleStays(rx: RegexNew, s: State, t: nat)
    requires WriterOf(s, t).Idle?
    ensures Steps(rx, s, t) == s
  {}

  /** From a writer that has loaded rules, two rounds are enough. */
  lemma LoadedFinishes(rx: RegexNew, rules: SuppressRules, s: State, t: nat)
    requires WellCompiled(rx, rules) && Inv(rx, rules, s) && WriterOf(s, t).Loaded?
    ensures CommittedBy(rx, s, Steps(rx, Steps(rx, s, t), t), t, WriterOf(s, t).update)
  {
    RebuildAndSwap(rx, rules, s, t);
    if WriterOf(s, t).seen.version == s.shared.version {
      IdleStays(rx, Steps(rx, s, t), t);
    } else {
      RebuildAndSwap(rx, rules, Steps(rx, s, t), t);
    }
  }

  lemma RebuiltSwaps(rx: RegexNew, rules: SuppressRules, s: State, t: nat)
    requires Inv(rx, rules, s) && WriterOf(s, t).Rebuilt?
    ensures var w, s' := WriterOf(s, t), Next(rx, s, Swap(t));
      if w.seen.version == s.shared.version then CommittedBy(rx, s, s', t, w.update)
      else WriterOf(s', t) == Loaded(w.update, s.shared) && s'.shared == s.shared && s'.committed == s.committed
           && Inv(rx, rules, s')
  {
    assert WriterOk(rx, s.shared, s.accepted, s.committed, s.writers[t]);
    SwapKeeps(rx, rules, s, t);
  }

  /** A writer at whatever point of its update, however far the rules have moved on since it loaded them, commits it if
      it is let run for a load and two rounds of rebuild and swap. */
  lemma {:induction false} UpdateFinishes(rx: RegexNew, rules: SuppressRules, actions: seq<Action>, t: nat)
    requires WellCompiled(rx, rules) && !WriterOf(Run(rx, Initial(rules), actions), t).Idle?
    ensures var s := Run(rx, Initial(rules), actions);
      !WriterOf(s, t).Panicked? &&
      CommittedBy(rx, s, Steps(rx, Steps(rx, Next(rx, s, Load(t)), t), t), t, WriterOf(s, t).update)
  {
    RunKeeps(rx, rules, actions);
    var s := Run(rx, Initial(rules), actions);
    assert WriterOk(rx, s.shared, s.accepted, s.committed, s.writers[t]);
    if WriterOf(s, t).Validated? {
      LoadKeeps(rx, rules, s, t);
      LoadedFinishes(rx, rules, Next(rx, s, Load(t)), t);
    } else if WriterOf(s, t).Loaded? {
      LoadedFinishes(rx, rules, s, t);
    } else {
      RebuiltSwaps(rx, rules, s, t);
      var s' := Next(rx, s, Swap(t));
      assert Steps(rx, s, t) == s';
      if WriterOf(s', t).Idle? {
        IdleStays(rx, s', t);
      } else {
        RebuildAndSwap(rx, rules, s', t);
      }
    }
  }

  // ---------- a read answers what it was asked ----------

  /** Starts a read in thread `t`. */
  predicate Starts(a: Action, t: nat) {
    (a.StartAggregate? || a.StartDetail?) && a.thread == t
  }

  /** How many samples thread `t` is given the time to count. */
  function Turns(actions: seq<Action>, t: nat): nat {
    if actions == [] then 0
    else
      var n := |actions| - 1;
      Turns(actions[..n], t) + (if actions[n] == CountNext(t) then 1 else 0)
  }

  /** The reader `r` with some more samples counted. */
  ghost predicate GoesOn(r: Reader, r': Reader, turns: nat) {
    && r'.reading == r.reading && r'.samples == r.samples && r'.asOf == r.asOf
    && r'.done == (if r.done + turns <= |r.samples| then r.done + turns else |r.samples|)
    && (r.progress.Tallying? ==> r'.progress.Tallying?)
    && (r.progress.Showing? ==>
          r'.progress.Showing? && r'.progress.path == r.progress.path && r'.progress.want == r.progress.want)
  }

  lemma ReaderGoesOn(rx: RegexNew, s: State, a: Action, t: nat)
    requires t in s.readers && s.readers[t].done <= |s.readers[t].samples| && !Starts(a, t)
    ensures t in Next(rx, s, a).readers
    ensures GoesOn(s.readers[t], Next(rx, s, a).readers[t], if a == CountNext(t) then 1 else 0)
  {}

  lemma GoesOnTwice(r: Reader, mid: Reader, r': Reader, m: nat, n: nat)
    requires GoesOn(r, mid, m) && GoesOn(mid, r', n) && r.done <= |r.samples|
    ensures GoesOn(r, r', m + n)
  {}

  lemma {:induction false} ReaderThroughout(rx: RegexNew, s: State, actions: seq<Action>, t: nat)
    requires t in s.readers && s.readers[t].done <= |s.readers[t].samples|
    requires forall a <- actions :: !Starts(a, t)
    ensures t in Run(rx, s, actions).readers
    ensures GoesOn(s.readers[t], Run(rx, s, actions).readers[t], Turns(actions, t))
  {
    if actions != [] {
      var n := |actions| - 1;
      assert actions[n] in actions && forall a <- actions[..n] :: a in actions;
      ReaderThroughout(rx, s, actions[..n], t);
      var mid := Run(rx, s, actions[..n]);
      ReaderGoesOn(rx, mid, actions[n], t);
      GoesOnTwice(s.readers[t], mid.readers[t], Run(rx, s, actions).readers[t], Turns(actions[..n], t),
                  if actions[n] == CountNext(t) then 1 else 0);
    }
  }

  lemma {:induction false} RunAppend(rx: RegexNew, s: State, a: seq<Action>, b: seq<Action>)
    ensures Run(rx, s, a + b) == Run(rx, Run(rx, s, a), b)
    decreases |b|
  {
    if b == [] {
      assert a + b == a;
    } else {
      var n := |b| - 1;
      RunAppend(rx, s, a, b[..n]);
      assert (a + b)[..|a + b| - 1] == a + b[..n];
    }
  }

  /** A read that is started anywhere in a run, and then gets the time to count its samples, answers for exactly the
      samples, endpoint, extra rules and path it was started with, under the rules shared at that moment, whatever
      updates come before, in between and after. */
  lemma {:induction false} ReadAnswersItsRequest(rx: RegexNew, rules: SuppressRules, before: seq<Action>, start: Action,
                                                 after: seq<Action>, t: nat)
    requires WellCompiled(rx, rules) && Starts(start, t) && (forall a <- after :: !Starts(a, t))
    requires Turns(after, t) >= |start.samples|
    ensures var shared := Run(rx, Initial(rules), before).shared.rules;
      var s := Run(rx, Initial(rules), before + [start] + after);
      && t in s.readers
      && Gathered(Reading(start.codec, start.endpoint, shared, start.extra), start.samples, s.readers[t].progress)
      && (start.StartAggregate? ==> s.readers[t].progress.Tallying?)
      && (start.StartDetail? ==>
            var p := s.readers[t].progress;
            p.Showing? && p.path == start.path && p.want == start.want)
  {
    var s0 := Run(rx, Initial(rules), before);
    var s1 := Run(rx, Initial(rules), before + [start]);
    assert (before + [start])[..|before|] == before;
    RunAppend(rx, Initial(rules), before + [start], after);
    ReaderThroughout(rx, s1, after, t);
    ReadSeesOneSnapshot(rx, rules, before + [start] + after, t);
  }

  /** An update that nobody interrupts replaces exactly the endpoint's patterns in the shared rules. */
  lemma {:induction false} UninterruptedUpdate(rx: RegexNew, rules: SuppressRules, actions: seq<Action>, t: nat,
                                               endpoint: string, paths: seq<string>)
    requires WellCompiled(rx, rules) && WriterOf(Run(rx, Initial(rules), actions), t).Idle?
      && CompileRules(rx, paths).Ok?
    ensures var s := Run(rx, Initial(rules), actions);
      var s' := Next(rx, Next(rx, Next(rx, Next(rx, s, Submit(t, endpoint, paths)), Load(t)), Rebuild(t)), Swap(t));
      && WithEndpoint(rx, s.shared.rules, endpoint, paths) == Ok(s'.shared.rules)
      && PathsFor(s'.shared.rules, endpoint) == paths
      && WriterOf(s', t).Idle?
  {
    RunKeeps(rx, rules, actions);
    var s := Run(rx, Initial(rules), actions);
    ReplayReadsBack(rx, rules, s.committed);
    WithEndpointReadsBack(rx, s.shared.rules, endpoint, paths);
    var s1 := Next(rx, s, Submit(t, endpoint, paths));
    var s2 := Next(rx, s1, Load(t));
    var s3 := Next(rx, s2, Rebuild(t));
    assert WriterOf(s3, t).Rebuilt? && WriterOf(s3, t).seen == s3.shared == s.shared;
  }
}
