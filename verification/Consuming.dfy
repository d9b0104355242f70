/** The sample consumer (src/consumer/mod.rs) fed by a bounded channel that sheds when full
    (src/http/forward.rs:219), composed with the sample store. */
module Consuming {
  import opened Wrappers
  import opened Strings
  import opened Sequences
  import opened Samples
  import S = Storing

  /** `resolve` is endpoint routing, a library outside the model. */
  datatype Config = Config(resolve: string -> Option<string>, codec: Codec, maxBodyBytes: nat, cap: nat, capacity: nat)

  /** A message together with the time at which it was handled. */
  datatype Receipt = Receipt(msg: Message, now: int)

  /** A message leaves a sample iff its path resolves and every body that has to be compared can be stored, whether or
      not the other sides answered. */
  ghost predicate LeavesSample(cfg: Config, msg: Message) {
    cfg.resolve(msg.path).Some? && Storable(cfg.codec, msg, cfg.maxBodyBytes)
  }

  /** `x` is the record of a message handled at `now`, up to its id. */
  ghost predicate SampleFor(cfg: Config, msg: Message, now: int, x: RawSample) {
    cfg.resolve(msg.path) == Some(x.endpoint) && x.timestamp == now && Records(cfg.codec, msg, cfg.maxBodyBytes, x)
  }

  /** What handling a message stores, if anything. */
  function SampleOf(cfg: Config, r: Receipt): (x: Option<RawSample>)
    ensures x.Some? <==> LeavesSample(cfg, r.msg)
    ensures x.Some? ==> SampleFor(cfg, r.msg, r.now, x.value)
  {
    match cfg.resolve(r.msg.path)
    case None => None
    case Some(endpoint) => Assemble(cfg.codec, endpoint, r.msg, cfg.maxBodyBytes, r.now)
  }

  function Assembled(cfg: Config, received: seq<Receipt>): seq<RawSample> {
    if received == [] then []
    else
      var n := |received| - 1;
      var x := SampleOf(cfg, received[n]);
      Assembled(cfg, received[..n]) + (if x.Some? then [x.value] else [])
  }

  function Messages(received: seq<Receipt>): seq<Message> {
    seq(|received|, i requires 0 <= i < |received| => received[i].msg)
  }

  /** Samples with consecutive ids, as one consumer hands them out. */
  function NumberedFrom(first: nat, xs: seq<RawSample>): seq<RawSample> {
    seq(|xs|, i requires 0 <= i < |xs| => xs[i].(id := OfNat(first + i)))
  }

  function OfEndpoint(xs: seq<RawSample>, endpoint: string): seq<RawSample> {
    if xs == [] then []
    else
      var n := |xs| - 1;
      OfEndpoint(xs[..n], endpoint) + (if xs[n].endpoint == endpoint then [xs[n]] else [])
  }

  /** All commits of a store's log, in order. */
  function Commits(log: seq<S.Event>): seq<RawSample> {
    if log == [] then []
    else
      var n := |log| - 1;
      Commits(log[..n]) + (if log[n].Committed? then [log[n].sample] else [])
  }

  // ---------- the steps ----------

  /** `inHand` is the ticket of an append that has not got the lock yet. */
  datatype State = State(
    queue: seq<Message>, accepted: seq<Message>, received: seq<Receipt>, inHand: Option<nat>, store: S.State)

  datatype Action = Send(msg: Message) | Receive(now: int) | Append | Delete(endpoint: string)

  const INITIAL := State([], [], [], None, S.INITIAL)

  function Next(cfg: Config, s: State, a: Action): State {
    match a
    case Send(msg) =>
      if |s.queue| >= cfg.capacity then s else s.(queue := s.queue + [msg], accepted := s.accepted + [msg])
    case Receive(now) =>
      if s.queue == [] || s.inHand.Some? then s
      else
        var r := Receipt(s.queue[0], now);
        var x := SampleOf(cfg, r);
        var s' := s.(queue := s.queue[1..], received := s.received + [r]);
        if x.None? then s'
        else s'.(inHand := Some(s.store.nextId), store := S.Next(cfg.cap, s.store, S.Ticket(x.value)))
    case Append =>
      if s.inHand.None? then s else s.(inHand := None, store := S.Next(cfg.cap, s.store, S.Commit(s.inHand.value)))
    case Delete(e) => s.(store := S.Next(cfg.cap, s.store, S.Delete(e)))
  }

  function Run(cfg: Config, s: State, actions: seq<Action>): State {
    if actions == [] then s else Next(cfg, Run(cfg, s, actions[..|actions| - 1]), actions[|actions| - 1])
  }

  // ---------- the invariant ----------

  ghost predicate StoreFollows(cfg: Config, s: State) {
    var all := NumberedFrom(0, Assembled(cfg, s.received));
    && s.store.nextId == |all|
    && match s.inHand
       case None => Commits(s.store.log) == all && s.store.pending == map[]
       case Some(t) => t + 1 == |all| && s.store.pending == map[t := all[t]] && Commits(s.store.log) == all[..t]
  }

  ghost predicate Inv(cfg: Config, s: State) {
    && |s.queue| <= cfg.capacity
    && Messages(s.received) + s.queue == s.accepted
    && S.Inv(cfg.cap, s.store)
    && StoreFollows(cfg, s)
  }

  lemma ReceiveFollows(cfg: Config, s: State, now: int)
    requires StoreFollows(cfg, s) && s.queue != [] && s.inHand.None?
    ensures StoreFollows(cfg, Next(cfg, s, Receive(now)))
  {
    var r := Receipt(s.queue[0], now);
    var x, s' := SampleOf(cfg, r), Next(cfg, s, Receive(now));
    assert s'.received[..|s.received|] == s.received;
    if x.Some? {
      var old_, all := NumberedFrom(0, Assembled(cfg, s.received)), NumberedFrom(0, Assembled(cfg, s'.received));
      assert all[..|old_|] == old_;
    } else {
      assert Assembled(cfg, s'.received) == Assembled(cfg, s.received);
    }
  }

  lemma {:induction false} ReceiveKeeps(cfg: Config, s: State, now: int)
    requires cfg.cap > 0 && Inv(cfg, s) && s.queue != [] && s.inHand.None?
    ensures Inv(cfg, Next(cfg, s, Receive(now)))
  {
    var r := Receipt(s.queue[0], now);
    var s' := Next(cfg, s, Receive(now));
    assert Messages(s'.received) == Messages(s.received) + [s.queue[0]];
    assert s.queue == [s.queue[0]] + s.queue[1..];
    assert Messages(s'.received) + s'.queue == Messages(s.received) + s.queue;
    if SampleOf(cfg, r).Some? { S.TicketKeeps(cfg.cap, s.store, SampleOf(cfg, r).value); }
    ReceiveFollows(cfg, s, now);
  }

  lemma AppendFollows(cfg: Config, s: State)
    requires StoreFollows(cfg, s) && s.inHand.Some?
    ensures StoreFollows(cfg, Next(cfg, s, Append))
  {
    var t, all := s.inHand.value, NumberedFrom(0, Assembled(cfg, s.received));
    var log := Next(cfg, s, Append).store.log;
    assert log == s.store.log + [S.Committed(t, all[t])] && log[..|s.store.log|] == s.store.log;
    assert all[..t] + [all[t]] == all;
  }

  lemma {:induction false} AppendKeeps(cfg: Config, s: State)
    requires cfg.cap > 0 && Inv(cfg, s) && s.inHand.Some?
    ensures Inv(cfg, Next(cfg, s, Append))
  {
    S.CommitKeeps(cfg.cap, s.store, s.inHand.value);
    AppendFollows(cfg, s);
  }

  lemma DeleteKeeps(cfg: Config, s: State, e: string)
    requires cfg.cap > 0 && Inv(cfg, s)
    ensures Inv(cfg, Next(cfg, s, Delete(e)))
  {
    S.DeleteKeeps(cfg.cap, s.store, e);
    var log := Next(cfg, s, Delete(e)).store.log;
    assert log == s.store.log + [S.Deleted(e)] && log[..|s.store.log|] == s.store.log;
    assert Commits(log) == Commits(s.store.log) + [];
  }

  lemma SendKeeps(cfg: Config, s: State, msg: Message)
    requires Inv(cfg, s)
    ensures Inv(cfg, Next(cfg, s, Send(msg)))
  {
    assert Messages(s.received) + (s.queue + [msg]) == (Messages(s.received) + s.queue) + [msg];
  }

  lemma StepKeeps(cfg: Config, s: State, a: Action)
    requires cfg.cap > 0 && Inv(cfg, s)
    ensures Inv(cfg, Next(cfg, s, a))
  {
    match a {
      case Send(msg) => SendKeeps(cfg, s, msg);
      case Receive(now) => if s.queue != [] && s.inHand.None? { ReceiveKeeps(cfg, s, now); }
      case Append => if s.inHand.Some? { AppendKeeps(cfg, s); }
      case Delete(e) => DeleteKeeps(cfg, s, e);
    }
  }

  lemma {:induction false} RunKeeps(cfg: Config, actions: seq<Action>)
    requires cfg.cap > 0
    ensures Inv(cfg, Run(cfg, INITIAL, actions))
  {
    if actions == [] {
    } else {
      RunKeeps(cfg, actions[..|actions| - 1]);
      StepKeeps(cfg, Run(cfg, INITIAL, actions[..|actions| - 1]), actions[|actions| - 1]);
    }
  }

  // ---------- what every run guarantees ----------

  /** Messages leave the channel once each and in the order they were accepted, at every moment of every run. */
  lemma {:induction false} AcceptedHandledOnceInOrder(cfg: Config, actions: seq<Action>)
    requires cfg.cap > 0
    ensures var s := Run(cfg, INITIAL, actions);
      Messages(s.received) + s.queue == s.accepted && |s.queue| <= cfg.capacity
  {
    RunKeeps(cfg, actions);
  }

  lemma {:induction false} SinceWithoutDelete(log: seq<S.Event>, endpoint: string)
    requires S.NeverDeleted(log, endpoint)
    ensures S.Since(log, endpoint) == OfEndpoint(Commits(log), endpoint)
  {
    if log != [] {
      var n := |log| - 1;
      SinceWithoutDelete(log[..n], endpoint);
      var before, all := Commits(log[..n]), Commits(log);
      if log[n].Committed? {
        assert all[..|all| - 1] == before && all[|all| - 1] == log[n].sample;
      } else {
        assert all == before;
      }
    }
  }

  /** Once the channel is drained, what was committed is exactly what the accepted messages assemble to, in order
      and with consecutive ids, whatever deletes happened; and the queue of an endpoint that was never deleted is
      the last `cap` of those that resolve to it. */
  lemma {:induction false} DrainedStoreHoldsLast(cfg: Config, actions: seq<Action>, endpoint: string)
    requires cfg.cap > 0
    ensures var s := Run(cfg, INITIAL, actions);
      s.queue == [] && s.inHand.None? ==>
        var all := NumberedFrom(0, Assembled(cfg, s.received));
        && Messages(s.received) == s.accepted
        && Commits(s.store.log) == all
        && S.QueueOf(s.store, endpoint) == S.LastN(S.Since(s.store.log, endpoint), cfg.cap)
        && (S.NeverDeleted(s.store.log, endpoint) ==>
              S.QueueOf(s.store, endpoint) == S.LastN(OfEndpoint(all, endpoint), cfg.cap))
  {
    RunKeeps(cfg, actions);
    var s := Run(cfg, INITIAL, actions);
    if S.NeverDeleted(s.store.log, endpoint) {
      SinceWithoutDelete(s.store.log, endpoint);
    }
    assert Messages(s.received) + [] == Messages(s.received);
  }

  /** `x` is the record of the `k`-th message received. */
  ghost predicate RecordOf(cfg: Config, received: seq<Receipt>, k: nat, x: RawSample) {
    k < |received| && SampleFor(cfg, received[k].msg, received[k].now, x)
  }

  ghost predicate LeavesAt(cfg: Config, received: seq<Receipt>, k: nat) {
    k < |received| && LeavesSample(cfg, received[k].msg)
  }

  /** `xs` are the records of the messages at the positions `at`, which are those that leave a sample. */
  ghost predicate RecordsAt(cfg: Config, received: seq<Receipt>, at: seq<nat>, xs: seq<RawSample>) {
    && Increasing(at) && |xs| == |at|
    && (forall k: nat :: k in at <==> LeavesAt(cfg, received, k))
    && forall j | 0 <= j < |at| :: RecordOf(cfg, received, at[j], xs[j])
  }

  lemma OneReceiptMore(cfg: Config, received: seq<Receipt>, r: Receipt, k: nat)
    requires k < |received|
    ensures forall x :: RecordOf(cfg, received + [r], k, x) <==> RecordOf(cfg, received, k, x)
    ensures LeavesAt(cfg, received + [r], k) <==> LeavesAt(cfg, received, k)
  {}

  lemma RecordsLeft(cfg: Config, received: seq<Receipt>, r: Receipt, at: seq<nat>, xs: seq<RawSample>)
    requires RecordsAt(cfg, received, at, xs) && !LeavesSample(cfg, r.msg)
    ensures RecordsAt(cfg, received + [r], at, xs)
  {
    forall k: nat | k < |received| { OneReceiptMore(cfg, received, r, k); }
    forall j | 0 <= j < |at| ensures RecordOf(cfg, received + [r], at[j], xs[j]) {
      assert RecordOf(cfg, received, at[j], xs[j]);
    }
  }

  lemma RecordsTaken(cfg: Config, received: seq<Receipt>, r: Receipt, at: seq<nat>, xs: seq<RawSample>, x: RawSample)
    requires RecordsAt(cfg, received, at, xs) && LeavesSample(cfg, r.msg) && SampleFor(cfg, r.msg, r.now, x)
    ensures RecordsAt(cfg, received + [r], at + [|received|], xs + [x])
  {
    var n, all := |received|, received + [r];
    forall k: nat | k < n { OneReceiptMore(cfg, received, r, k); }
    forall j | 0 <= j < |at| ensures at[j] < n && RecordOf(cfg, all, at[j], xs[j]) {
      assert RecordOf(cfg, received, at[j], xs[j]);
    }
    forall k: nat ensures k in at + [n] <==> LeavesAt(cfg, all, k) {
      if k < n { assert k in at <==> LeavesAt(cfg, received, k); }
    }
  }

  /** The samples assembled are those of the messages that leave one, in order. */
  lemma {:induction false} AssembledExactly(cfg: Config, received: seq<Receipt>) returns (at: seq<nat>)
    ensures RecordsAt(cfg, received, at, Assembled(cfg, received))
  {
    at := [];
    if received != [] {
      var n := |received| - 1;
      at := AssembledExactly(cfg, received[..n]);
      var r, xs := received[n], Assembled(cfg, received[..n]);
      assert received == received[..n] + [r];
      if LeavesSample(cfg, r.msg) {
        RecordsTaken(cfg, received[..n], r, at, xs, SampleOf(cfg, r).value);
        at := at + [n];
      } else {
        RecordsLeft(cfg, received[..n], r, at, xs);
        assert xs + [] == xs;
      }
    }
  }

  /** Nothing accepted is lost, and nothing else is stored: once the channel is drained, the commits are, one each and
      in order, the records of the accepted messages that leave a sample, with their endpoint and handling time. */
  lemma {:induction false} CommittedExactly(cfg: Config, actions: seq<Action>) returns (at: seq<nat>)
    requires cfg.cap > 0
    ensures var s := Run(cfg, INITIAL, actions);
      s.queue == [] && s.inHand.None? ==>
        && |s.received| == |s.accepted| && (forall k | 0 <= k < |s.received| :: s.received[k].msg == s.accepted[k])
        && Increasing(at) && |Commits(s.store.log)| == |at|
        && (forall k: nat :: k in at <==> k < |s.accepted| && LeavesSample(cfg, s.accepted[k]))
        && forall j | 0 <= j < |at| ::
             && at[j] < |s.received|
             && SampleFor(cfg, s.received[at[j]].msg, s.received[at[j]].now, Commits(s.store.log)[j])
             && Commits(s.store.log)[j].id == OfNat(j)
  {
    RunKeeps(cfg, actions);
    var s := Run(cfg, INITIAL, actions);
    at := AssembledExactly(cfg, s.received);
    if s.queue == [] && s.inHand.None? {
      assert Messages(s.received) == s.accepted;
      forall j | 0 <= j < |at| ensures RecordOf(cfg, s.received, at[j], Commits(s.store.log)[j]) {
        assert RecordOf(cfg, s.received, at[j], Assembled(cfg, s.received)[j]);
      }
      forall k | 0 <= k < |s.received| ensures s.received[k].msg == s.accepted[k] {
        assert s.accepted[k] == Messages(s.received)[k];
      }
    }
  }

  /** The channel sheds exactly when `capacity` accepted messages wait to be handled. */
  lemma {:induction false} ShedsExactly(cfg: Config, actions: seq<Action>, msg: Message)
    requires cfg.cap > 0
    ensures var s := Run(cfg, INITIAL, actions);
      var s' := Run(cfg, INITIAL, actions + [Send(msg)]);
      && s'.received == s.received
      && s'.accepted == if |s.accepted| - |s.received| < cfg.capacity then s.accepted + [msg] else s.accepted
  {
    RunKeeps(cfg, actions);
    assert (actions + [Send(msg)])[..|actions|] == actions;
  }

  /** What is left to do until the channel is drained. */
  function Left(s: State): nat {
    2 * |s.queue| + (if s.inHand.Some? then 1 else 0)
  }

  lemma DrainOne(cfg: Config, s: State, now: int)
    requires Left(s) > 0
    ensures var s' := Next(cfg, s, if s.inHand.Some? then Append else Receive(now));
      Left(s') < Left(s) && s'.accepted == s.accepted
  {}

  /** From any point of any run the consumer can drain the channel. */
  lemma {:induction false} AlwaysDrainable(cfg: Config, actions: seq<Action>, now: int) returns (more: seq<Action>)
    ensures var s, s' := Run(cfg, INITIAL, actions), Run(cfg, INITIAL, actions + more);
      s'.queue == [] && s'.inHand.None? && s'.accepted == s.accepted
    decreases Left(Run(cfg, INITIAL, actions))
  {
    var s := Run(cfg, INITIAL, actions);
    more := [];
    assert actions + [] == actions;
    if Left(s) > 0 {
      var a := if s.inHand.Some? then Append else Receive(now);
      DrainOne(cfg, s, now);
      assert Run(cfg, INITIAL, actions + [a]) == Next(cfg, s, a) by { assert (actions + [a])[..|actions|] == actions; }
      var rest := AlwaysDrainable(cfg, actions + [a], now);
      more := [a] + rest;
      assert actions + more == actions + [a] + rest;
    }
  }

  // ---------- the consumer ----------

  class Consumer {
    var rx: seq<Message>
    const cfg: Config
    const store: S.InMemorySampleStore

    constructor (cfg: Config, store: S.InMemorySampleStore, rx: seq<Message>)
      ensures this.cfg == cfg && this.store == store && this.rx == rx
    {
      this.cfg, this.store, this.rx := cfg, store, rx;
    }

    method Handle(msg: Message, now: int)
      requires store.Valid()
      modifies store
      ensures store.Valid()
      ensures !LeavesSample(cfg, msg) ==> store.Abstract() == old(store.Abstract())
      ensures LeavesSample(cfg, msg) ==>
        var stored := SampleOf(cfg, Receipt(msg, now)).value.(id := OfNat(old(store.nextId)));
        && store.nextId == old(store.nextId) + 1 && SampleFor(cfg, msg, now, stored)
        && store.log == old(store.log) + [S.Committed(old(store.nextId), stored)]
    {
      var endpoint := cfg.resolve(msg.path);
      if endpoint.None? {
        return;
      }
      var sample := Assemble(cfg.codec, endpoint.value, msg, cfg.maxBodyBytes, now);
      if sample.None? {
        return;
      }
      store.AppendSample(sample.value);
    }

    /** Drains the channel; `clock(i)` is the time at which the i-th message is handled. */
    method Drain(clock: nat -> int)
      requires store.Valid()
      modifies this`rx, store
      ensures rx == [] && store.Valid()
      ensures Ingested(cfg, old(rx), clock, Commits(old(store.log)), old(store.nextId), store.log, store.nextId)
    {
      ghost var input, first, before := rx, store.nextId, Commits(store.log);
      var n := 0;
      while rx != []
        invariant n <= |input| && rx == input[n..]
        invariant store.Valid()
        invariant Ingested(cfg, input[..n], clock, before, first, store.log, store.nextId)
        decreases |rx|
      {
        var msg := rx[0];
        rx := rx[1..];
        ghost var log, next := store.log, store.nextId;
        Handle(msg, clock(n));
        assert !LeavesSample(cfg, msg) ==>
          store.Abstract().log == log && store.Abstract().nextId == next;
        DrainStep(cfg, input, n, clock, before, first, log, next, store.log, store.nextId);
        n := n + 1;
      }
      assert input[..n] == input;
    }
  }

  function Receipts(msgs: seq<Message>, clock: nat -> int): seq<Receipt> {
    seq(|msgs|, i requires 0 <= i < |msgs| => Receipt(msgs[i], clock(i)))
  }

  /** The log holds the commits `before` and then, numbered from `first`, what the messages assemble to. */
  ghost predicate Ingested(cfg: Config, msgs: seq<Message>, clock: nat -> int, before: seq<RawSample>, first: nat,
                           log: seq<S.Event>, next: nat)
  {
    var all := Assembled(cfg, Receipts(msgs, clock));
    Commits(log) == before + NumberedFrom(first, all) && next == first + |all|
  }

  lemma NumberOneMore(before: seq<RawSample>, first: nat, xs: seq<RawSample>, x: RawSample)
    ensures before + NumberedFrom(first, xs + [x]) == before + NumberedFrom(first, xs) + [x.(id := OfNat(first + |xs|))]
  {
    assert NumberedFrom(first, xs + [x]) == NumberedFrom(first, xs) + [x.(id := OfNat(first + |xs|))];
  }

  /** One turn of the drain loop. */
  lemma DrainStep(cfg: Config, input: seq<Message>, n: nat, clock: nat -> int, before: seq<RawSample>, first: nat,
                  log: seq<S.Event>, next: nat, log': seq<S.Event>, next': nat)
    requires n < |input| && Ingested(cfg, input[..n], clock, before, first, log, next)
    requires var x := SampleOf(cfg, Receipt(input[n], clock(n)));
      if x.None? then log' == log && next' == next
      else log' == log + [S.Committed(next, x.value.(id := OfNat(next)))] && next' == next + 1
    ensures Ingested(cfg, input[..n + 1], clock, before, first, log', next')
  {
    var old_, new_ := Receipts(input[..n], clock), Receipts(input[..n + 1], clock);
    assert new_ == old_ + [Receipt(input[n], clock(n))] && new_[..n] == old_;
    var x, xs := SampleOf(cfg, Receipt(input[n], clock(n))), Assembled(cfg, old_);
    if x.Some? {
      assert log'[..|log|] == log;
      NumberOneMore(before, first, xs, x.value);
    } else {
      assert xs + [] == xs;
    }
  }
}
