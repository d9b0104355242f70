/** The in-memory sample store (src/storage/memory.rs) against an append log. An append takes its id before it
    takes the lock, so appends are split into a ticket step and a commit step that may interleave. */
module Storing {
  import opened Wrappers
  import opened Strings
  import opened Sequences
  import opened Classifying
  import opened Samples
  import opened Readings
  import opened EngineFacts

  // ---------- the append log ----------

  datatype Event = Committed(ticket: nat, sample: RawSample) | Deleted(endpoint: string)

  /** The samples committed for an endpoint since it was last deleted, oldest first. */
  function Since(log: seq<Event>, endpoint: string): seq<RawSample> {
    if log == [] then [] else SinceAfter(Since(log[..|log| - 1], endpoint), log[|log| - 1], endpoint)
  }

  function SinceAfter(before: seq<RawSample>, e: Event, endpoint: string): seq<RawSample> {
    match e
    case Committed(_, sample) => if sample.endpoint == endpoint then before + [sample] else before
    case Deleted(name) => if name == endpoint then [] else before
  }

  function LastN<T>(s: seq<T>, n: nat): seq<T> {
    if |s| <= n then s else s[|s| - n..]
  }

  // ---------- the steps ----------

  /** `pending` holds the appends that have an id but not yet the lock. */
  datatype State = State(
    queues: map<string, seq<RawSample>>, nextId: nat, pending: map<nat, RawSample>, log: seq<Event>)

  datatype Action = Ticket(sample: RawSample) | Commit(ticket: nat) | Delete(endpoint: string)

  const INITIAL := State(map[], 0, map[], [])

  function QueueOf(s: State, endpoint: string): seq<RawSample> {
    if endpoint in s.queues then s.queues[endpoint] else []
  }

  function Push(cap: nat, queue: seq<RawSample>, sample: RawSample): seq<RawSample> {
    LastN(queue + [sample], cap)
  }

  function Next(cap: nat, s: State, a: Action): State {
    match a
    case Ticket(sample) =>
      State(s.queues, s.nextId + 1, s.pending[s.nextId := sample.(id := OfNat(s.nextId))], s.log)
    case Commit(t) =>
      if t !in s.pending then s
      else
        var sample := s.pending[t];
        State(s.queues[sample.endpoint := Push(cap, QueueOf(s, sample.endpoint), sample)], s.nextId,
              s.pending - {t}, s.log + [Committed(t, sample)])
    case Delete(e) =>
      State(s.queues - {e}, s.nextId, s.pending, s.log + [Deleted(e)])
  }

  function Run(cap: nat, s: State, actions: seq<Action>): State {
    if actions == [] then s else Next(cap, Run(cap, s, actions[..|actions| - 1]), actions[|actions| - 1])
  }

  // ---------- the reads ----------

  const NANOS := 1_000_000_000

  /** Whole seconds of a duration in nanoseconds, truncated towards zero. */
  function NumSeconds(nanos: int): int {
    if nanos >= 0 then nanos / NANOS else -((-nanos) / NANOS)
  }

  /** A sample is admitted until a full second after the window has passed, and always if it is from the future. */
  predicate WithinWindow(sample: RawSample, now: int, windowSecs: nat): (within: bool)
    ensures within <==> now - sample.timestamp < (windowSecs + 1) * NANOS
  {
    NumSeconds(now - sample.timestamp) <= windowSecs
  }

  function Reverse<T>(s: seq<T>): (r: seq<T>)
    ensures |r| == |s| && forall i | 0 <= i < |s| :: r[i] == s[|s| - 1 - i]
  {
    if s == [] then [] else [s[|s| - 1]] + Reverse(s[..|s| - 1])
  }

  function InWindow(samples: seq<RawSample>, now: int, windowSecs: nat): seq<RawSample> {
    if samples == [] then []
    else
      var rest := InWindow(samples[1..], now, windowSecs);
      if WithinWindow(samples[0], now, windowSecs) then [samples[0]] + rest else rest
  }

  /** Newest first, within the window. */
  function Fetch(s: State, endpoint: string, now: int, windowSecs: nat): seq<RawSample> {
    InWindow(Reverse(QueueOf(s, endpoint)), now, windowSecs)
  }

  function FindId(queue: seq<RawSample>, id: string): (r: Option<RawSample>)
    ensures r.Some? ==> r.value in queue && r.value.id == id
    ensures r.None? ==> forall x <- queue :: x.id != id
  {
    if queue == [] then None else if queue[0].id == id then Some(queue[0]) else FindId(queue[1..], id)
  }

  // ---------- the invariant ----------

  ghost predicate EventOk(s: State, e: Event) {
    e.Committed? ==> e.ticket < s.nextId && e.ticket !in s.pending && e.sample.id == OfNat(e.ticket)
  }

  /** The store is the last `cap` commits of every endpoint since its last delete, and ids are handed out once. */
  ghost predicate Inv(cap: nat, s: State) {
    && (forall e :: QueueOf(s, e) == LastN(Since(s.log, e), cap))
    && (forall e :: e in s.queues <==> Since(s.log, e) != [])
    && (forall t <- s.pending :: t < s.nextId && s.pending[t].id == OfNat(t))
    && (forall i | 0 <= i < |s.log| :: EventOk(s, s.log[i]))
    && (forall i, j | 0 <= i < j < |s.log| && s.log[i].Committed? && s.log[j].Committed? ::
          s.log[i].ticket != s.log[j].ticket)
  }

  lemma PushLastN(cap: nat, all: seq<RawSample>, sample: RawSample)
    requires cap > 0
    ensures Push(cap, LastN(all, cap), sample) == LastN(all + [sample], cap)
  {}

  lemma TicketKeeps(cap: nat, s: State, sample: RawSample)
    requires cap > 0 && Inv(cap, s)
    ensures Inv(cap, Next(cap, s, Ticket(sample)))
  {
    var s' := Next(cap, s, Ticket(sample));
    forall e ensures QueueOf(s', e) == QueueOf(s, e) {}
    forall i | 0 <= i < |s'.log| ensures EventOk(s', s'.log[i]) { assert EventOk(s, s.log[i]); }
  }

  lemma CommitKeeps(cap: nat, s: State, t: nat)
    requires cap > 0 && Inv(cap, s) && t in s.pending
    ensures Inv(cap, Next(cap, s, Commit(t)))
  {
    var s', sample := Next(cap, s, Commit(t)), s.pending[t];
    assert s'.log[..|s.log|] == s.log;
    forall e ensures QueueOf(s', e) == LastN(Since(s'.log, e), cap) && (e in s'.queues <==> Since(s'.log, e) != []) {
      assert QueueOf(s, e) == LastN(Since(s.log, e), cap);
      if e == sample.endpoint { PushLastN(cap, Since(s.log, e), sample); }
    }
    forall i | 0 <= i < |s.log| ensures EventOk(s, s.log[i]) {}
    assert s'.log[|s.log|] == Committed(t, sample);
    forall i | 0 <= i < |s'.log| ensures EventOk(s', s'.log[i]) {
      if i < |s.log| { assert EventOk(s, s.log[i]); }
    }
  }

  lemma DeleteKeeps(cap: nat, s: State, endpoint: string)
    requires cap > 0 && Inv(cap, s)
    ensures Inv(cap, Next(cap, s, Delete(endpoint)))
  {
    var s' := Next(cap, s, Delete(endpoint));
    assert s'.log[..|s.log|] == s.log;
    forall e ensures QueueOf(s', e) == LastN(Since(s'.log, e), cap) && (e in s'.queues <==> Since(s'.log, e) != []) {
      assert QueueOf(s, e) == LastN(Since(s.log, e), cap);
    }
    forall i | 0 <= i < |s'.log| ensures EventOk(s', s'.log[i]) {
      if i < |s.log| { assert EventOk(s, s.log[i]); }
    }
  }

  lemma StepKeeps(cap: nat, s: State, a: Action)
    requires cap > 0 && Inv(cap, s)
    ensures Inv(cap, Next(cap, s, a))
  {
    match a {
      case Ticket(sample) => TicketKeeps(cap, s, sample);
      case Commit(t) => if t in s.pending { CommitKeeps(cap, s, t); }
      case Delete(e) => DeleteKeeps(cap, s, e);
    }
  }

  lemma {:induction false} RunKeeps(cap: nat, actions: seq<Action>)
    requires cap > 0
    ensures Inv(cap, Run(cap, INITIAL, actions))
  {
    if actions != [] {
      RunKeeps(cap, actions[..|actions| - 1]);
      StepKeeps(cap, Run(cap, INITIAL, actions[..|actions| - 1]), actions[|actions| - 1]);
    }
  }

  // ---------- what every run guarantees ----------

  ghost predicate CommittedAt(log: seq<Event>, i: nat, x: RawSample) {
    i < |log| && log[i].Committed? && log[i].sample == x
  }

  lemma {:induction false} SinceAt(log: seq<Event>, endpoint: string, k: nat) returns (i: nat)
    requires k < |Since(log, endpoint)|
    ensures CommittedAt(log, i, Since(log, endpoint)[k])
  {
    var n := |log| - 1;
    if k < |Since(log[..n], endpoint)| {
      i := SinceAt(log[..n], endpoint, k);
    } else {
      i := n;
    }
  }

  lemma {:induction false} SinceInOrder(log: seq<Event>, endpoint: string, k: nat, l: nat) returns (i: nat, m: nat)
    requires k < l < |Since(log, endpoint)|
    ensures i < m && CommittedAt(log, i, Since(log, endpoint)[k]) && CommittedAt(log, m, Since(log, endpoint)[l])
  {
    var n := |log| - 1;
    if l < |Since(log[..n], endpoint)| {
      i, m := SinceInOrder(log[..n], endpoint, k, l);
    } else {
      i := SinceAt(log[..n], endpoint, k);
      m := n;
    }
  }

  /** Within an endpoint no two stored samples share an id. */
  lemma StoredIdsDistinct(cap: nat, s: State, endpoint: string, k: nat, l: nat)
    requires Inv(cap, s) && k < l < |Since(s.log, endpoint)|
    ensures Since(s.log, endpoint)[k].id != Since(s.log, endpoint)[l].id
  {
    var i, m := SinceInOrder(s.log, endpoint, k, l);
    assert EventOk(s, s.log[i]) && EventOk(s, s.log[m]);
    if OfNat(s.log[i].ticket) == OfNat(s.log[m].ticket) { OfNatInjective(s.log[i].ticket, s.log[m].ticket); }
  }

  lemma {:induction false} FindIdDistinct(queue: seq<RawSample>, k: nat)
    requires k < |queue| && forall i, j | 0 <= i < j < |queue| :: queue[i].id != queue[j].id
    ensures FindId(queue, queue[k].id) == Some(queue[k])
  {
    if k > 0 {
      FindIdDistinct(queue[1..], k - 1);
    }
  }

  lemma {:induction false} InWindowMember(samples: seq<RawSample>, now: int, windowSecs: nat, x: RawSample)
    ensures x in InWindow(samples, now, windowSecs) <==> x in samples && WithinWindow(x, now, windowSecs)
  {
    if samples != [] {
      InWindowMember(samples[1..], now, windowSecs, x);
      assert x in samples <==> x == samples[0] || x in samples[1..];
    }
  }

  lemma QueueIdsDistinct(cap: nat, s: State, endpoint: string)
    requires Inv(cap, s)
    ensures forall i, j | 0 <= i < j < |QueueOf(s, endpoint)| ::
      QueueOf(s, endpoint)[i].id != QueueOf(s, endpoint)[j].id
  {
    var queue, all := QueueOf(s, endpoint), Since(s.log, endpoint);
    assert queue == LastN(all, cap);
    var d := |all| - |queue|;
    forall i, j | 0 <= i < j < |queue| ensures queue[i].id != queue[j].id {
      StoredIdsDistinct(cap, s, endpoint, d + i, d + j);
      assert queue[i] == all[d + i] && queue[j] == all[d + j];
    }
  }

  /** Any id that a fetch returned retrieves that very sample. */
  lemma {:induction false} FetchedIsRetrievable(cap: nat, actions: seq<Action>, endpoint: string, now: int,
                                                windowSecs: nat, x: RawSample)
    requires cap > 0
    ensures var s := Run(cap, INITIAL, actions);
      x in Fetch(s, endpoint, now, windowSecs) ==> FindId(QueueOf(s, endpoint), x.id) == Some(x)
  {
    RunKeeps(cap, actions);
    var s := Run(cap, INITIAL, actions);
    if x in Fetch(s, endpoint, now, windowSecs) {
      QueueIdsDistinct(cap, s, endpoint);
      InWindowMember(Reverse(QueueOf(s, endpoint)), now, windowSecs, x);
      MemberRetrievable(QueueOf(s, endpoint), x);
    }
  }

  lemma PlaceInQueue(queue: seq<RawSample>, x: RawSample) returns (k: nat)
    requires x in Reverse(queue)
    ensures k < |queue| && queue[k] == x
  {
    var i :| 0 <= i < |queue| && Reverse(queue)[i] == x;
    k := |queue| - 1 - i;
  }

  lemma MemberRetrievable(queue: seq<RawSample>, x: RawSample)
    requires x in Reverse(queue) && forall i, j | 0 <= i < j < |queue| :: queue[i].id != queue[j].id
    ensures FindId(queue, x.id) == Some(x)
  {
    var k := PlaceInQueue(queue, x);
    FindIdDistinct(queue, k);
  }

  /** A fetch picks, in the order of the reversed queue, exactly the samples that are within the window. */
  lemma {:induction false} InWindowExactly(samples: seq<RawSample>, now: int, windowSecs: nat) returns (at: seq<nat>)
    ensures Picks(InWindow(samples, now, windowSecs), samples, at)
    ensures forall i: nat :: i in at <==> i < |samples| && WithinWindow(samples[i], now, windowSecs)
  {
    at := [];
    if samples != [] {
      var rest := samples[1..];
      var later := InWindowExactly(rest, now, windowSecs);
      assert samples == [samples[0]] + rest;
      PickFirst(InWindow(rest, now, windowSecs), rest, later, samples[0]);
      at := if WithinWindow(samples[0], now, windowSecs) then [0] + Shifted(later) else Shifted(later);
      forall i: nat ensures i in at <==> i < |samples| && WithinWindow(samples[i], now, windowSecs) {
        if i > 0 { assert i - 1 in later <==> i in Shifted(later); }
      }
    }
  }

  /** The store refines the log: over every interleaving of tickets, commits and deletes each queue is the last
      `cap` commits since the endpoint's last delete, an endpoint is listed iff it has any, ids of commits are
      distinct and below the counter, and a fetch is the newest-first window filter of that suffix. */
  lemma {:induction false} StoreRefinesLog(cap: nat, actions: seq<Action>, endpoint: string, now: int, windowSecs: nat)
    requires cap > 0
    ensures var s := Run(cap, INITIAL, actions);
      && QueueOf(s, endpoint) == LastN(Since(s.log, endpoint), cap)
      && (endpoint in s.queues <==> Since(s.log, endpoint) != [])
      && (forall i | 0 <= i < |s.log| && s.log[i].Committed? ::
            s.log[i].ticket < s.nextId && s.log[i].ticket !in s.pending && s.log[i].sample.id == OfNat(s.log[i].ticket))
      && (forall i, j | 0 <= i < j < |s.log| && s.log[i].Committed? && s.log[j].Committed? ::
            s.log[i].sample.id != s.log[j].sample.id)
      && Fetch(s, endpoint, now, windowSecs) == InWindow(Reverse(LastN(Since(s.log, endpoint), cap)), now, windowSecs)
  {
    RunKeeps(cap, actions);
    var s := Run(cap, INITIAL, actions);
    forall i | 0 <= i < |s.log| && s.log[i].Committed?
      ensures s.log[i].ticket < s.nextId && s.log[i].ticket !in s.pending
        && s.log[i].sample.id == OfNat(s.log[i].ticket)
    {
      assert EventOk(s, s.log[i]);
    }
    forall i, j | 0 <= i < j < |s.log| && s.log[i].Committed? && s.log[j].Committed?
      ensures s.log[i].sample.id != s.log[j].sample.id
    {
      if OfNat(s.log[i].ticket) == OfNat(s.log[j].ticket) { OfNatInjective(s.log[i].ticket, s.log[j].ticket); }
    }
  }

  // ---------- the window is a contiguous cut ----------

  ghost predicate Chronological(samples: seq<RawSample>) {
    forall i, j | 0 <= i < j < |samples| :: samples[i].timestamp <= samples[j].timestamp
  }

  lemma WindowMonotone(a: RawSample, b: RawSample, now: int, windowSecs: nat)
    requires a.timestamp <= b.timestamp && WithinWindow(a, now, windowSecs)
    ensures WithinWindow(b, now, windowSecs)
  {}

  lemma {:induction false} NoneInWindow(samples: seq<RawSample>, now: int, windowSecs: nat)
    requires forall x <- samples :: !WithinWindow(x, now, windowSecs)
    ensures InWindow(samples, now, windowSecs) == []
  {
    if samples != [] {
      assert samples[0] in samples && forall x <- samples[1..] :: x in samples;
      NoneInWindow(samples[1..], now, windowSecs);
    }
  }

  lemma {:induction false} InWindowCut(samples: seq<RawSample>, now: int, windowSecs: nat)
    requires NewestFirst(samples)
    ensures InWindow(samples, now, windowSecs) <= samples
  {
    if samples != [] {
      if WithinWindow(samples[0], now, windowSecs) {
        InWindowCut(samples[1..], now, windowSecs);
        assert samples == [samples[0]] + samples[1..];
      } else {
        forall x | x in samples ensures !WithinWindow(x, now, windowSecs) {
          if WithinWindow(x, now, windowSecs) { WindowMonotone(x, samples[0], now, windowSecs); }
        }
        NoneInWindow(samples, now, windowSecs);
      }
    }
  }

  /** When an endpoint's samples were committed in the order of their timestamps, a fetch is a prefix of the
      reversed queue and comes newest first. */
  lemma {:induction false} FetchIsContiguous(cap: nat, actions: seq<Action>, endpoint: string, now: int,
                                             windowSecs: nat)
    requires cap > 0 && Chronological(Since(Run(cap, INITIAL, actions).log, endpoint))
    ensures var s := Run(cap, INITIAL, actions);
      && Fetch(s, endpoint, now, windowSecs) <= Reverse(QueueOf(s, endpoint))
      && NewestFirst(Fetch(s, endpoint, now, windowSecs))
  {
    RunKeeps(cap, actions);
    var s := Run(cap, INITIAL, actions);
    assert QueueOf(s, endpoint) == LastN(Since(s.log, endpoint), cap);
    InWindowCut(Reverse(QueueOf(s, endpoint)), now, windowSecs);
  }

  // ---------- what an append to a full queue does to a verdict ----------

  lemma {:induction false} AllInWindow(samples: seq<RawSample>, now: int, windowSecs: nat)
    requires forall x <- samples :: WithinWindow(x, now, windowSecs)
    ensures InWindow(samples, now, windowSecs) == samples
  {
    if samples != [] {
      assert samples[0] in samples && forall x <- samples[1..] :: x in samples;
      AllInWindow(samples[1..], now, windowSecs);
      assert samples == [samples[0]] + samples[1..];
    }
  }

  lemma {:induction false} ReverseUnique(queue: seq<RawSample>, r: seq<RawSample>)
    requires |r| == |queue| && forall i | 0 <= i < |queue| :: r[i] == queue[|queue| - 1 - i]
    ensures r == Reverse(queue)
  {
    var s := Reverse(queue);
    forall i | 0 <= i < |queue| ensures r[i] == s[i] {}
  }

  lemma OldestLast(queue: seq<RawSample>)
    requires queue != []
    ensures Reverse(queue) == Reverse(queue[1..]) + [queue[0]]
  {
    var rest := queue[1..];
    ReverseUnique(queue, Reverse(rest) + [queue[0]]);
  }

  lemma NewestFirstOf(rest: seq<RawSample>, x: RawSample)
    ensures Reverse(rest + [x]) == [x] + Reverse(rest)
  {
    ReverseUnique(rest + [x], [x] + Reverse(rest));
  }

  lemma PushFull(queue: seq<RawSample>, x: RawSample)
    requires queue != []
    ensures Push(|queue|, queue, x) == queue[1..] + [x]
  {
    assert (queue + [x])[1..] == queue[1..] + [x];
  }

  lemma FetchAll(s: State, endpoint: string, now: int, windowSecs: nat)
    requires forall x <- QueueOf(s, endpoint) :: WithinWindow(x, now, windowSecs)
    ensures Fetch(s, endpoint, now, windowSecs) == Reverse(QueueOf(s, endpoint))
  {
    var queue := QueueOf(s, endpoint);
    forall x | x in Reverse(queue) ensures x in queue { var k := PlaceInQueue(queue, x); }
    AllInWindow(Reverse(queue), now, windowSecs);
  }

  /** A commit to a full queue makes a path a regression only if the new sample ranks above the one it drives out, and
      clears one only if it ranks below, as long as the window holds them all. */
  lemma {:induction false} FullQueueMovesVerdict(cap: nat, s: State, t: nat, now: int, windowSecs: nat,
                                                 classifiers: EndpointClassifiers, reading: Reading, path: string)
    requires cap > 0 && t in s.pending && |QueueOf(s, s.pending[t].endpoint)| == cap
    requires WithinWindow(s.pending[t], now, windowSecs)
    requires forall x <- QueueOf(s, s.pending[t].endpoint) :: WithinWindow(x, now, windowSecs)
    ensures var x, endpoint := s.pending[t], s.pending[t].endpoint;
      var evicted := QueueOf(s, endpoint)[0];
      var before := IsRegressing(classifiers, reading, Fetch(s, endpoint, now, windowSecs), path);
      var after := IsRegressing(classifiers, reading, Fetch(Next(cap, s, Commit(t)), endpoint, now, windowSecs), path);
      && (!before && after ==> SampleRank(reading, x, path) > SampleRank(reading, evicted, path))
      && (before && !after ==> SampleRank(reading, x, path) < SampleRank(reading, evicted, path))
  {
    FetchesAroundCommit(cap, s, t, now, windowSecs);
    var x, queue := s.pending[t], QueueOf(s, s.pending[t].endpoint);
    EvictionMovesVerdict(classifiers, reading, Reverse(queue[1..]), x, queue[0], path);
  }

  lemma FetchesAroundCommit(cap: nat, s: State, t: nat, now: int, windowSecs: nat)
    requires cap > 0 && t in s.pending && |QueueOf(s, s.pending[t].endpoint)| == cap
    requires WithinWindow(s.pending[t], now, windowSecs)
    requires forall x <- QueueOf(s, s.pending[t].endpoint) :: WithinWindow(x, now, windowSecs)
    ensures var x, endpoint := s.pending[t], s.pending[t].endpoint;
      var queue := QueueOf(s, endpoint);
      && Fetch(s, endpoint, now, windowSecs) == Reverse(queue[1..]) + [queue[0]]
      && Fetch(Next(cap, s, Commit(t)), endpoint, now, windowSecs) == [x] + Reverse(queue[1..])
  {
    var x, endpoint, s' := s.pending[t], s.pending[t].endpoint, Next(cap, s, Commit(t));
    var queue := QueueOf(s, endpoint);
    PushFull(queue, x);
    assert QueueOf(s', endpoint) == queue[1..] + [x];
    FetchAll(s, endpoint, now, windowSecs);
    FetchAll(s', endpoint, now, windowSecs);
    OldestLast(queue);
    NewestFirstOf(queue[1..], x);
  }

  // ---------- when the two read paths agree on the time of last update ----------

  /** Whenever the endpoint is read, the two read paths give the same time of last update for what was fetched. */
  ghost predicate TimesAgree(s: State, endpoint: string, windowSecs: nat) {
    forall now :: SameLastUpdated(Fetch(s, endpoint, now, windowSecs))
  }

  lemma WindowKeepsLatest(samples: seq<RawSample>, now: int, windowSecs: nat)
    requires FirstIsLatest(samples)
    ensures FirstIsLatest(InWindow(samples, now, windowSecs))
  {
    if samples != [] {
      forall x | x in InWindow(samples, now, windowSecs) ensures x in samples {
        InWindowMember(samples, now, windowSecs, x);
      }
      if !WithinWindow(samples[0], now, windowSecs) {
        NoneInWindow(samples, now, windowSecs);
      }
    }
  }

  /** The times agree for every reader iff the newest stored sample has the greatest timestamp. */
  lemma {:induction false} TimesAgreeNow(s: State, endpoint: string, windowSecs: nat)
    ensures TimesAgree(s, endpoint, windowSecs) <==> FirstIsLatest(Reverse(QueueOf(s, endpoint)))
  {
    var samples := Reverse(QueueOf(s, endpoint));
    if FirstIsLatest(samples) {
      forall now ensures SameLastUpdated(Fetch(s, endpoint, now, windowSecs)) {
        WindowKeepsLatest(samples, now, windowSecs);
        SameLastUpdatedExactly(Fetch(s, endpoint, now, windowSecs));
      }
    } else {
      var now := samples[0].timestamp;
      var x :| x in samples && x.timestamp > now;
      InWindowMember(samples, now, windowSecs, x);
      SameLastUpdatedExactly(Fetch(s, endpoint, now, windowSecs));
    }
  }

  /** A commit for the endpoint that is stamped no earlier than the one before it. */
  ghost predicate NotBefore(before: seq<RawSample>, e: Event, endpoint: string) {
    e.Committed? && e.sample.endpoint == endpoint && before != [] ==>
      before[|before| - 1].timestamp <= e.sample.timestamp
  }

  /** No commit for the endpoint is stamped earlier than the one before it since the endpoint's last delete. */
  ghost predicate InOrder(log: seq<Event>, endpoint: string) {
    log == [] ||
    var n := |log| - 1;
    InOrder(log[..n], endpoint) && NotBefore(Since(log[..n], endpoint), log[n], endpoint)
  }

  /** `after` has at most one event more than `before`. */
  ghost predicate AtMostOneMore(before: seq<Event>, after: seq<Event>) {
    after == before || (|after| == |before| + 1 && after == before + [after[|before|]])
  }

  lemma InOrderGrows(log: seq<Event>, e: Event, endpoint: string)
    ensures InOrder(log + [e], endpoint) <==> InOrder(log, endpoint) && NotBefore(Since(log, endpoint), e, endpoint)
  {
    assert (log + [e])[..|log|] == log;
  }

  ghost predicate NeverDeleted(log: seq<Event>, endpoint: string) {
    forall i | 0 <= i < |log| :: log[i] != Deleted(endpoint)
  }

  lemma ChronologicalGrows(before: seq<RawSample>, x: RawSample)
    ensures Chronological(before + [x]) <==>
      Chronological(before) && (before != [] ==> before[|before| - 1].timestamp <= x.timestamp)
  {
    var all := before + [x];
    if Chronological(all) {
      forall i, j | 0 <= i < j < |before| ensures before[i].timestamp <= before[j].timestamp {
        assert all[i].timestamp <= all[j].timestamp;
      }
      if before != [] { assert all[|before| - 1].timestamp <= all[|before|].timestamp; }
    }
  }

  lemma ChronologicalAfter(before: seq<RawSample>, e: Event, endpoint: string)
    ensures Chronological(before) && NotBefore(before, e, endpoint) ==> Chronological(SinceAfter(before, e, endpoint))
    ensures e != Deleted(endpoint) && Chronological(SinceAfter(before, e, endpoint)) ==>
      Chronological(before) && NotBefore(before, e, endpoint)
  {
    if e.Committed? { ChronologicalGrows(before, e.sample); }
  }

  /** A log in order leaves a queue in order, and without deletes that is all there is to it. */
  lemma {:induction false} InOrderChronological(log: seq<Event>, endpoint: string)
    ensures InOrder(log, endpoint) ==> Chronological(Since(log, endpoint))
    ensures NeverDeleted(log, endpoint) ==> (InOrder(log, endpoint) <==> Chronological(Since(log, endpoint)))
  {
    if log != [] {
      var n := |log| - 1;
      InOrderChronological(log[..n], endpoint);
      ChronologicalAfter(Since(log[..n], endpoint), log[n], endpoint);
    }
  }

  ghost predicate HoldsLast(cap: nat, s: State, endpoint: string) {
    QueueOf(s, endpoint) == LastN(Since(s.log, endpoint), cap)
  }

  /** A state's times agree if its log is in order, or if the store keeps one sample only. */
  lemma InOrderAgrees(cap: nat, s: State, endpoint: string, windowSecs: nat)
    requires cap > 0 && HoldsLast(cap, s, endpoint) && (cap == 1 || InOrder(s.log, endpoint))
    ensures TimesAgree(s, endpoint, windowSecs)
  {
    TimesAgreeNow(s, endpoint, windowSecs);
    if cap > 1 { InOrderChronological(s.log, endpoint); }
  }

  /** The times disagree as soon as a commit is stamped earlier than the one before it. */
  lemma EarlierCommitDisagrees(cap: nat, s: State, before: seq<Event>, e: Event, endpoint: string, windowSecs: nat)
    requires cap >= 2 && HoldsLast(cap, s, endpoint)
    requires s.log == before + [e] && !NotBefore(Since(before, endpoint), e, endpoint)
    ensures !TimesAgree(s, endpoint, windowSecs)
  {
    assert s.log[..|before|] == before;
    EarlierLastDisagrees(cap, s, Since(before, endpoint), e.sample, endpoint, windowSecs);
  }

  lemma EarlierLastDisagrees(cap: nat, s: State, before: seq<RawSample>, x: RawSample, endpoint: string,
                             windowSecs: nat)
    requires cap >= 2 && before != [] && x.timestamp < before[|before| - 1].timestamp
    requires QueueOf(s, endpoint) == LastN(before + [x], cap)
    ensures !TimesAgree(s, endpoint, windowSecs)
  {
    TimesAgreeNow(s, endpoint, windowSecs);
    EarlierLast(cap, before, x);
  }

  lemma EarlierLast(cap: nat, before: seq<RawSample>, x: RawSample)
    requires cap >= 2 && before != [] && x.timestamp < before[|before| - 1].timestamp
    ensures !FirstIsLatest(Reverse(LastN(before + [x], cap)))
  {
    var samples := Reverse(LastN(before + [x], cap));
    assert samples[0] == x && samples[1] == before[|before| - 1] && samples[1] in samples;
  }

  lemma TimesAgreeStep(cap: nat, s: State, before: seq<Event>, endpoint: string, windowSecs: nat)
    requires cap >= 2 && HoldsLast(cap, s, endpoint) && AtMostOneMore(before, s.log)
    ensures InOrder(s.log, endpoint) <==> InOrder(before, endpoint) && TimesAgree(s, endpoint, windowSecs)
  {
    if s.log != before {
      InOrderGrows(before, s.log[|before|], endpoint);
      if !NotBefore(Since(before, endpoint), s.log[|before|], endpoint) {
        EarlierCommitDisagrees(cap, s, before, s.log[|before|], endpoint, windowSecs);
      }
    }
    if InOrder(s.log, endpoint) { InOrderAgrees(cap, s, endpoint, windowSecs); }
  }

  /** At every moment of a run, and whenever they read, the two read paths give the same time of last update. */
  ghost predicate AlwaysAgree(history: seq<State>, endpoint: string, windowSecs: nat) {
    forall s <- history :: TimesAgree(s, endpoint, windowSecs)
  }

  /** Stores that start empty, hold the last commits for the endpoint and add at most one event at a time. */
  ghost predicate Evolves(cap: nat, history: seq<State>, endpoint: string) {
    var n := |history| - 1;
    && n >= 0 && HoldsLast(cap, history[n], endpoint)
    && if n == 0 then history[0].log == []
       else Evolves(cap, history[..n], endpoint) && AtMostOneMore(history[n - 1].log, history[n].log)
  }

  lemma AlwaysAgreeGrows(history: seq<State>, endpoint: string, windowSecs: nat)
    requires history != []
    ensures AlwaysAgree(history, endpoint, windowSecs) <==>
      AlwaysAgree(history[..|history| - 1], endpoint, windowSecs)
      && TimesAgree(history[|history| - 1], endpoint, windowSecs)
  {
    assert forall x :: x in history <==> x in history[..|history| - 1] || x == history[|history| - 1];
  }

  lemma {:induction false} AgreeThroughout(cap: nat, history: seq<State>, endpoint: string, windowSecs: nat)
    requires cap > 0 && Evolves(cap, history, endpoint)
    ensures AlwaysAgree(history, endpoint, windowSecs) <==> cap == 1 || InOrder(history[|history| - 1].log, endpoint)
  {
    var n := |history| - 1;
    var s := history[n];
    AlwaysAgreeGrows(history, endpoint, windowSecs);
    if n == 0 || cap == 1 { InOrderAgrees(cap, s, endpoint, windowSecs); }
    if n > 0 {
      AgreeThroughout(cap, history[..n], endpoint, windowSecs);
      if cap > 1 { TimesAgreeStep(cap, s, history[n - 1].log, endpoint, windowSecs); }
    }
  }

  /** The states of a run: the first one and the one after every action. */
  ghost function History(cap: nat, actions: seq<Action>): seq<State> {
    (if actions == [] then [] else History(cap, actions[..|actions| - 1])) + [Run(cap, INITIAL, actions)]
  }

  lemma {:induction false} HistoryEvolves(cap: nat, actions: seq<Action>, endpoint: string)
    requires cap > 0
    ensures Evolves(cap, History(cap, actions), endpoint)
  {
    RunKeeps(cap, actions);
    if actions != [] {
      var before := History(cap, actions[..|actions| - 1]);
      HistoryEvolves(cap, actions[..|actions| - 1], endpoint);
      assert History(cap, actions)[..|before|] == before;
    }
  }

  /** Over every interleaving the two read paths always agree on the time of last update iff the store keeps one
      sample only or no commit for the endpoint is stamped earlier than the one before it. */
  lemma {:induction false} TimesAgreeExactly(cap: nat, actions: seq<Action>, endpoint: string, windowSecs: nat)
    requires cap > 0
    ensures AlwaysAgree(History(cap, actions), endpoint, windowSecs) <==>
      cap == 1 || InOrder(Run(cap, INITIAL, actions).log, endpoint)
  {
    HistoryEvolves(cap, actions, endpoint);
    AgreeThroughout(cap, History(cap, actions), endpoint, windowSecs);
  }

  // ---------- the store ----------

  /** Pops from the front until at most `cap` samples are left. */
  method TrimFront(pushed: seq<RawSample>, cap: nat) returns (samples: seq<RawSample>)
    ensures samples == LastN(pushed, cap)
  {
    samples := pushed;
    while |samples| > cap
      invariant |samples| <= |pushed| && samples == pushed[|pushed| - |samples|..]
      invariant |samples| < |pushed| ==> |samples| >= cap
    {
      samples := samples[1..];
    }
  }

  class InMemorySampleStore {
    var endpoints: map<string, seq<RawSample>>
    var nextId: nat
    const cap: nat
    const windowSecs: nat
    ghost var pending: map<nat, RawSample>
    ghost var log: seq<Event>

    ghost function Abstract(): State
      reads this
    {
      State(endpoints, nextId, pending, log)
    }

    ghost predicate Valid()
      reads this
    {
      cap > 0 && Inv(cap, Abstract())
    }

    constructor WithRetention(cap: nat, windowSecs: nat)
      ensures Valid() && Abstract() == INITIAL
      ensures this.cap == (if cap < 1 then 1 else cap) && this.windowSecs == (if windowSecs < 1 then 1 else windowSecs)
    {
      this.cap := if cap < 1 then 1 else cap;
      this.windowSecs := if windowSecs < 1 then 1 else windowSecs;
      endpoints, nextId, pending, log := map[], 0, map[], [];
    }

    /** The first half of `append_sample`: the atomic increment that hands out the id. */
    method TakeTicket(sample: RawSample) returns (ticket: nat, stored: RawSample)
      requires Valid()
      modifies this
      ensures Valid() && Abstract() == Next(cap, old(Abstract()), Ticket(sample))
      ensures ticket == old(nextId) && stored == sample.(id := OfNat(ticket)) && pending[ticket] == stored
    {
      ticket := nextId;
      stored := sample.(id := OfNat(ticket));
      TicketKeeps(cap, Abstract(), sample);
      nextId := nextId + 1;
      pending := pending[ticket := stored];
    }

    /** The second half, under the lock: push, then trim from the front. */
    method CommitTicket(ghost ticket: nat, stored: RawSample)
      requires Valid() && ticket in pending && pending[ticket] == stored
      modifies this
      ensures Valid() && Abstract() == Next(cap, old(Abstract()), Commit(ticket))
    {
      CommitKeeps(cap, Abstract(), ticket);
      var samples := if stored.endpoint in endpoints then endpoints[stored.endpoint] else [];
      samples := TrimFront(samples + [stored], cap);
      endpoints := endpoints[stored.endpoint := samples];
      pending, log := pending - {ticket}, log + [Committed(ticket, stored)];
    }

    method AppendSample(sample: RawSample)
      requires Valid()
      modifies this
      ensures Valid()
      ensures Abstract() == Next(cap, Next(cap, old(Abstract()), Ticket(sample)), Commit(old(nextId)))
      ensures log == old(log) + [Committed(old(nextId), sample.(id := OfNat(old(nextId))))] && nextId == old(nextId) + 1
    {
      var ticket, stored := TakeTicket(sample);
      CommitTicket(ticket, stored);
    }

    method FetchSamples(endpoint: string, now: int) returns (samples: seq<RawSample>)
      requires Valid()
      ensures samples == Fetch(Abstract(), endpoint, now, windowSecs)
      ensures samples == InWindow(Reverse(LastN(Since(log, endpoint), cap)), now, windowSecs)
    {
      assert QueueOf(Abstract(), endpoint) == LastN(Since(log, endpoint), cap);
      if endpoint !in endpoints {
        return [];
      }
      samples := InWindow(Reverse(endpoints[endpoint]), now, windowSecs);
    }

    method GetSample(endpoint: string, id: string) returns (r: Option<RawSample>)
      requires Valid()
      ensures r == FindId(QueueOf(Abstract(), endpoint), id)
      ensures r.Some? ==> r.value in LastN(Since(log, endpoint), cap) && r.value.id == id
      ensures r.None? ==> forall x <- LastN(Since(log, endpoint), cap) :: x.id != id
    {
      assert QueueOf(Abstract(), endpoint) == LastN(Since(log, endpoint), cap);
      r := if endpoint in endpoints then FindId(endpoints[endpoint], id) else None;
    }

    method ListEndpoints() returns (names: set<string>)
      requires Valid()
      ensures forall e :: e in names <==> Since(log, e) != []
    {
      names := endpoints.Keys;
      assert forall e :: e in Abstract().queues <==> Since(log, e) != [];
    }

    method DeleteEndpoint(endpoint: string)
      requires Valid()
      modifies this
      ensures Valid() && Abstract() == Next(cap, old(Abstract()), Delete(endpoint))
      ensures Since(log, endpoint) == []
    {
      DeleteKeeps(cap, Abstract(), endpoint);
      endpoints := endpoints - {endpoint};
      log := log + [Deleted(endpoint)];
    }
  }
}
