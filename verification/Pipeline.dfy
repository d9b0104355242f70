/** From accepted message to shown difference: the consumer, the store and the engine put together. */
module Pipeline {
  import opened Wrappers
  import opened Strings
  import opened Samples
  import opened Suppression
  import opened Readings
  import opened EngineFacts
  import opened ReadingFacts
  import opened Consuming
  import S = Storing

  // ---------- where stored samples come from ----------

  lemma {:induction false} AssembledFrom(cfg: Config, received: seq<Receipt>, x: RawSample) returns (r: Receipt)
    requires x in Assembled(cfg, received)
    ensures r in received && SampleOf(cfg, r) == Some(x)
  {
    var n := |received| - 1;
    if x in Assembled(cfg, received[..n]) {
      r := AssembledFrom(cfg, received[..n], x);
    } else {
      r := received[n];
    }
  }

  lemma {:induction false} SinceIsCommitted(log: seq<S.Event>, endpoint: string, x: RawSample)
    requires x in S.Since(log, endpoint)
    ensures x in Commits(log)
  {
    var n := |log| - 1;
    if x in S.Since(log[..n], endpoint) {
      SinceIsCommitted(log[..n], endpoint, x);
    }
  }

  /** Every sample a fetch returns was assembled, up to its id, from one of the accepted messages. */
  lemma {:induction false} FetchedWasReceived(cfg: Config, actions: seq<Action>, endpoint: string, now: int,
                                              windowSecs: nat, x: RawSample)
      returns (r: Receipt)
    requires cfg.cap > 0 && x in S.Fetch(Run(cfg, INITIAL, actions).store, endpoint, now, windowSecs)
    ensures r in Run(cfg, INITIAL, actions).received && r.msg in Run(cfg, INITIAL, actions).accepted
    ensures SampleOf(cfg, r).Some? && x == SampleOf(cfg, r).value.(id := x.id)
  {
    RunKeeps(cfg, actions);
    var s := Run(cfg, INITIAL, actions);
    var queue := S.QueueOf(s.store, endpoint);
    S.InWindowMember(S.Reverse(queue), now, windowSecs, x);
    assert queue == S.LastN(S.Since(s.store.log, endpoint), cfg.cap);
    assert x in queue && x in S.Since(s.store.log, endpoint);
    SinceIsCommitted(s.store.log, endpoint, x);
    var all := NumberedFrom(0, Assembled(cfg, s.received));
    assert x in all;
    var i :| 0 <= i < |all| && all[i] == x;
    r := AssembledFrom(cfg, s.received, Assembled(cfg, s.received)[i]);
    var k :| 0 <= k < |s.received| && s.received[k] == r;
    assert s.accepted[k] == Messages(s.received)[k];
  }

  lemma UnsuppressedReadings(codec: Codec, e: string, f: string, x: RawSample, path: string)
    ensures Reading(codec, e, NO_RULES, NO_RULES).Raw(x, path) == Reading(codec, f, NO_RULES, NO_RULES).Raw(x, path)
    ensures Reading(codec, e, NO_RULES, NO_RULES).Noise(x, path) == Reading(codec, f, NO_RULES, NO_RULES).Noise(x, path)
  {}

  /** In every run, a fetched sample shows a raw difference iff the accepted message it came from has a candidate
      response that differs from the baseline in status, parsed body or compared headers; noise likewise. */
  lemma {:induction false} ShownIffDifferent(cfg: Config, actions: seq<Action>, endpoint: string, now: int,
                                             windowSecs: nat, x: RawSample)
      returns (r: Receipt)
    requires cfg.cap > 0 && ReadsBack(cfg.codec) && ChecksAgree(cfg.codec)
    requires x in S.Fetch(Run(cfg, INITIAL, actions).store, endpoint, now, windowSecs)
    ensures r.msg in Run(cfg, INITIAL, actions).accepted
    ensures var reading := Reading(cfg.codec, endpoint, NO_RULES, NO_RULES);
      && ((forall p :: !reading.Raw(x, p)) <==>
            r.msg.candidate.None? || SameAnswer(cfg.codec, r.msg.candidate.value, r.msg.baseline))
      && ((forall p :: !reading.Noise(x, p)) <==>
            r.msg.control.None? || SameAnswer(cfg.codec, r.msg.control.value, r.msg.baseline))
  {
    r := FetchedWasReceived(cfg, actions, endpoint, now, windowSecs, x);
    var resolved := cfg.resolve(r.msg.path).value;
    NoFalseNoDifference(cfg.codec, resolved, r.msg, cfg.maxBodyBytes, r.now, x.id);
    forall p { UnsuppressedReadings(cfg.codec, endpoint, resolved, x, p); }
  }

  /** In every run, a fetched sample shows a raw difference at exactly the paths at which the candidate of the accepted
      message it came from answered differently and that no rule hides; noise likewise for the control. */
  lemma {:induction false} ShownExactly(cfg: Config, actions: seq<Action>, reading: Reading, now: int, windowSecs: nat,
                                        x: RawSample)
      returns (r: Receipt)
    requires cfg.cap > 0 && reading.codec == cfg.codec && ReadsBack(cfg.codec) && ChecksAgree(cfg.codec)
    requires x in S.Fetch(Run(cfg, INITIAL, actions).store, reading.endpoint, now, windowSecs)
    ensures r.msg in Run(cfg, INITIAL, actions).accepted && SampleFor(cfg, r.msg, r.now, x)
    ensures forall p :: reading.Raw(x, p) <==>
      r.msg.candidate.Some? && Reported(cfg.codec, r.msg.baseline, r.msg.candidate.value, p) && reading.Keeps(p)
    ensures forall p :: reading.Noise(x, p) <==>
      r.msg.control.Some? && Reported(cfg.codec, r.msg.baseline, r.msg.control.value, p) && reading.Keeps(p)
  {
    r := FetchedWasReceived(cfg, actions, reading.endpoint, now, windowSecs, x);
    var resolved := cfg.resolve(r.msg.path).value;
    assert cfg.codec.parse(cfg.codec.decode(r.msg.baseline).value).Some?;
    forall p { ShowsExactly(reading, resolved, r.msg, cfg.maxBodyBytes, r.now, x.id, p); }
  }

  // ---------- the order of a fetch ----------

  ghost predicate ClockForward(received: seq<Receipt>) {
    forall i, j | 0 <= i < j < |received| :: received[i].now <= received[j].now
  }

  lemma {:induction false} AssembledChronological(cfg: Config, received: seq<Receipt>)
    requires ClockForward(received)
    ensures S.Chronological(Assembled(cfg, received))
  {
    if received != [] {
      var n := |received| - 1;
      AssembledChronological(cfg, received[..n]);
      forall x | x in Assembled(cfg, received[..n]) ensures x.timestamp <= received[n].now {
        var r := AssembledFrom(cfg, received[..n], x);
      }
    }
  }

  lemma {:induction false} SinceChronological(log: seq<S.Event>, endpoint: string)
    requires S.Chronological(Commits(log))
    ensures S.Chronological(S.Since(log, endpoint))
  {
    if log != [] {
      var n := |log| - 1;
      var before, all := Commits(log[..n]), Commits(log);
      assert before == all[..|before|];
      SinceChronological(log[..n], endpoint);
      if log[n].Committed? {
        forall x | x in S.Since(log[..n], endpoint) ensures x.timestamp <= log[n].sample.timestamp {
          SinceIsCommitted(log[..n], endpoint, x);
          var i :| 0 <= i < |before| && before[i] == x;
          assert all[i] == x && all[|all| - 1] == log[n].sample;
        }
      }
    }
  }

  lemma PrefixChronological(cfg: Config, received: seq<Receipt>, n: nat)
    requires ClockForward(received) && n <= |Assembled(cfg, received)|
    ensures S.Chronological(NumberedFrom(0, Assembled(cfg, received))[..n])
  {
    AssembledChronological(cfg, received);
  }

  lemma CommitsChronological(cfg: Config, s: Consuming.State)
    requires Inv(cfg, s) && ClockForward(s.received)
    ensures S.Chronological(Commits(s.store.log))
  {
    var all := NumberedFrom(0, Assembled(cfg, s.received));
    var n := if s.inHand.Some? then s.inHand.value else |all|;
    PrefixChronological(cfg, s.received, n);
    assert all[..|all|] == all;
  }

  lemma ReverseLastN(all: seq<RawSample>, n: nat)
    requires S.Chronological(all)
    ensures NewestFirst(S.Reverse(S.LastN(all, n)))
  {}

  /** As long as the consumer's clock does not step back, fetches come newest first, so both read paths report the
      same time of last update. */
  lemma {:induction false} ClockForwardNewestFirst(cfg: Config, actions: seq<Action>, endpoint: string, now: int,
                                                   windowSecs: nat)
    requires cfg.cap > 0 && ClockForward(Run(cfg, INITIAL, actions).received)
    ensures NewestFirst(S.Fetch(Run(cfg, INITIAL, actions).store, endpoint, now, windowSecs))
  {
    RunKeeps(cfg, actions);
    var s := Run(cfg, INITIAL, actions);
    CommitsChronological(cfg, s);
    SinceChronological(s.store.log, endpoint);
    assert S.QueueOf(s.store, endpoint) == S.LastN(S.Since(s.store.log, endpoint), cfg.cap);
    ReverseLastN(S.Since(s.store.log, endpoint), cfg.cap);
    S.InWindowCut(S.Reverse(S.QueueOf(s.store, endpoint)), now, windowSecs);
  }

  // ---------- the time of last update ----------

  /** No message stored for the endpoint was handled at an earlier time than the one stored before it since the
      endpoint's last delete. */
  ghost predicate HandledInOrder(cfg: Config, actions: seq<Action>, endpoint: string) {
    S.InOrder(Run(cfg, INITIAL, actions).store.log, endpoint)
  }

  /** The store at every moment of a run. */
  ghost function History(cfg: Config, actions: seq<Action>): seq<S.State> {
    (if actions == [] then [] else History(cfg, actions[..|actions| - 1])) + [Run(cfg, INITIAL, actions).store]
  }

  lemma LogGrows(cfg: Config, s: Consuming.State, a: Action)
    ensures S.AtMostOneMore(s.store.log, Next(cfg, s, a).store.log)
  {}

  lemma {:induction false} HistoryEvolves(cfg: Config, actions: seq<Action>, endpoint: string)
    requires cfg.cap > 0
    ensures S.Evolves(cfg.cap, History(cfg, actions), endpoint)
  {
    RunKeeps(cfg, actions);
    if actions != [] {
      var n := |actions| - 1;
      var before := History(cfg, actions[..n]);
      HistoryEvolves(cfg, actions[..n], endpoint);
      LogGrows(cfg, Run(cfg, INITIAL, actions[..n]), actions[n]);
      assert History(cfg, actions)[..|before|] == before;
    }
  }

  /** In every run of the consumer and for every reader, the two read paths always agree on the time of last update
      iff the store keeps one sample only or no stored message was handled at an earlier time than the one before. */
  lemma {:induction false} TimesAgreeExactly(cfg: Config, actions: seq<Action>, endpoint: string, windowSecs: nat)
    requires cfg.cap > 0
    ensures S.AlwaysAgree(History(cfg, actions), endpoint, windowSecs) <==>
      cfg.cap == 1 || HandledInOrder(cfg, actions, endpoint)
  {
    HistoryEvolves(cfg, actions, endpoint);
    S.AgreeThroughout(cfg.cap, History(cfg, actions), endpoint, windowSecs);
  }

  /** A message on its own: sent, received and appended. */
  function Handling(m: Message, t: int): seq<Action> {
    [Send(m), Receive(t), Append]
  }

  predicate Quiet(s: Consuming.State) {
    s.queue == [] && s.inHand.None?
  }

  lemma RunOneMore(cfg: Config, before: seq<Action>, a: Action)
    ensures Run(cfg, INITIAL, before + [a]) == Next(cfg, Run(cfg, INITIAL, before), a)
  {
    assert (before + [a])[..|before|] == before;
  }

  lemma HandleOne(cfg: Config, before: seq<Action>, m: Message, t: int) returns (x: RawSample)
    requires cfg.capacity > 0 && Quiet(Run(cfg, INITIAL, before)) && SampleOf(cfg, Receipt(m, t)).Some?
    ensures var s, s' := Run(cfg, INITIAL, before), Run(cfg, INITIAL, before + Handling(m, t));
      && Quiet(s')
      && x == SampleOf(cfg, Receipt(m, t)).value.(id := OfNat(s.store.nextId))
      && s'.store.log == s.store.log + [S.Committed(s.store.nextId, x)]
  {
    var s := Run(cfg, INITIAL, before);
    RunOneMore(cfg, before, Send(m));
    RunOneMore(cfg, before + [Send(m)], Receive(t));
    RunOneMore(cfg, before + [Send(m)] + [Receive(t)], Append);
    assert before + Handling(m, t) == before + [Send(m)] + [Receive(t)] + [Append];
    var s1 := Next(cfg, s, Send(m));
    assert s1.queue == [m];
    var s2 := Next(cfg, s1, Receive(t));
    assert s2.queue == [] && s2.inHand == Some(s.store.nextId);
    x := SampleOf(cfg, Receipt(m, t)).value.(id := OfNat(s.store.nextId));
  }

  /** The clock steps back between two messages of one endpoint: whatever happened before, the read paths disagree
      as soon as the second is stored. */
  lemma {:induction false} ClockBackDisagrees(cfg: Config, before: seq<Action>, endpoint: string, windowSecs: nat,
                                              m1: Message, t1: int, m2: Message, t2: int)
    requires cfg.cap >= 2 && cfg.capacity > 0 && t2 < t1 && Quiet(Run(cfg, INITIAL, before))
    requires cfg.resolve(m1.path) == cfg.resolve(m2.path) == Some(endpoint)
    requires SampleOf(cfg, Receipt(m1, t1)).Some? && SampleOf(cfg, Receipt(m2, t2)).Some?
    ensures !S.TimesAgree(Run(cfg, INITIAL, before + Handling(m1, t1) + Handling(m2, t2)).store, endpoint, windowSecs)
  {
    var x := HandleOne(cfg, before, m1, t1);
    var first := before + Handling(m1, t1);
    var y := HandleOne(cfg, first, m2, t2);
    var log, e := Run(cfg, INITIAL, first).store.log, S.Committed(Run(cfg, INITIAL, first).store.nextId, y);
    assert !S.NotBefore(S.Since(log, endpoint), e, endpoint) by {
      var n := |log| - 1;
      assert log[n].sample == x && log[..n] == Run(cfg, INITIAL, before).store.log;
      assert S.Since(log, endpoint) == S.Since(log[..n], endpoint) + [x];
    }
    RunKeeps(cfg, first + Handling(m2, t2));
    S.EarlierCommitDisagrees(cfg.cap, Run(cfg, INITIAL, first + Handling(m2, t2)).store, log, e, endpoint, windowSecs);
  }
}
