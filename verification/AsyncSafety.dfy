/**
 What every run of the callback protocol keeps: first-in first-out matching of replies and
 callbacks, each callback run once, the counts of the subscription tables, the bytes on the wire,
 and the order of teardown.
 */
module AsyncSafety {
  import opened ByteStrings
  import opened RespGrammar
  import opened PubSub
  import opened AsyncProtocol
  import Commands

  // ----- What the log is compared with -----

  function Targets(ds: seq<Delivery>): seq<Callback> {
    if ds == [] then [] else Targets(ds[..|ds| - 1]) + [ds[|ds| - 1].cb]
  }

  /** The runs that deliveries stand for: a NULL callback makes none. */
  function CallsOf(ds: seq<Delivery>): seq<Call> {
    if ds == [] then []
    else CallsOf(ds[..|ds| - 1]) + CallFor(ds[|ds| - 1].cb, ds[|ds| - 1].reply)
  }

  function CallFor(cb: Callback, reply: Option<Reply>): seq<Call> {
    if cb.fn == None then [] else [Call(cb.fn.value, cb.data, reply)]
  }

  function IssuedCallbacks(xs: seq<Issued>): seq<Callback> {
    if xs == [] then [] else IssuedCallbacks(xs[..|xs| - 1]) + [xs[|xs| - 1].cb]
  }

  function IssuedBytes(xs: seq<Issued>): Bytes {
    if xs == [] then [] else IssuedBytes(xs[..|xs| - 1]) + Commands.Command(xs[|xs| - 1].argv)
  }

  /** No SUBSCRIBE and no MONITOR among the commands accepted. */
  ghost predicate Plain(s: State) {
    forall i :: 0 <= i < |s.log.issued| ==>
      !Classify(s.log.issued[i].argv).Subscribe? && !Classify(s.log.issued[i].argv).Monitor?
  }

  /** The k-th delivery carries the k-th reply received, or NULL if there is no k-th reply. */
  ghost predicate Paired(delivered: seq<Delivery>, received: seq<Reply>) {
    forall k :: 0 <= k < |delivered| ==>
      delivered[k].reply == if k < |received| then Some(received[k]) else None
  }

  // ----- The invariant -----

  /** Callbacks leave the queue in the order in which their commands were accepted. */
  ghost predicate Queue(s: State) {
    && (!s.monitoring ==> s.log.accepted == Targets(s.log.delivered) + s.replies)
    && (Plain(s) ==>
      && s.log.accepted == IssuedCallbacks(s.log.issued)
      && s.log.calls == CallsOf(s.log.delivered)
      && Paired(s.log.delivered, s.log.received)
      && !s.subscribed && !s.monitoring && s.invalid == [] && s.channels == map[] && s.patterns == map[])
  }

  /** How a table and the subscribe replies its names wait for belong together. */
  ghost predicate TableCounts(table: Table, awaited: multiset<Bytes>, inOrder: bool, clean: bool) {
    inOrder ==> Covers(table, awaited) && (clean ==> Exact(table, awaited))
  }

  ghost predicate Counts(s: State) {
    && (s.channels != map[] || s.patterns != map[] ==> s.subscribed)
    && (!s.freed ==>
      && TableCounts(s.channels, s.log.channelsAwaited, s.log.inOrder, s.log.clean)
      && TableCounts(s.patterns, s.log.patternsAwaited, s.log.inOrder, s.log.clean))
  }

  /** Accepted commands are sent whole and in order. */
  ghost predicate OnWire(s: State) {
    s.log.wire + s.obuf == IssuedBytes(s.log.issued)
  }

  /** Every SUBSCRIBE accepted named one channel or pattern. */
  ghost predicate SingleNames(issued: seq<Issued>) {
    forall i :: 0 <= i < |issued| && Classify(issued[i].argv).Subscribe? ==> |issued[i].argv| == 2
  }

  ghost predicate Inv(s: State) {
    Queue(s) && Counts(s) && OnWire(s) && (SingleNames(s.log.issued) ==> s.log.clean)
  }

  // ----- Commands keep it -----

  /** A change of everything but what the invariant is about. */
  ghost predicate SameView(s: State, r: State) {
    && r.log == s.log && r.replies == s.replies && r.invalid == s.invalid && r.channels == s.channels
    && r.patterns == s.patterns && r.subscribed == s.subscribed && r.monitoring == s.monitoring
    && r.obuf == s.obuf && (r.freed == s.freed || r.freed)
  }

  lemma {:induction false} SameViewKeeps(s: State, r: State)
    requires Inv(s) && SameView(s, r)
    ensures Inv(r)
  {
    hide TableCounts, Targets, CallsOf, IssuedCallbacks, IssuedBytes, Paired, SingleNames;
    assert Plain(r) == Plain(s);
  }

  lemma {:induction false} SamePlain(s: State, r: State)
    requires r.log.issued == s.log.issued
    ensures Plain(r) == Plain(s)
  {
    hide Classify;
  }

  lemma {:induction false} PlainBefore(s: State, x: Issued, r: State)
    requires r.log.issued == s.log.issued + [x] && Plain(r)
    ensures Plain(s) && !Classify(x.argv).Subscribe? && !Classify(x.argv).Monitor?
  {
    forall i | 0 <= i < |s.log.issued|
      ensures !Classify(s.log.issued[i].argv).Subscribe? && !Classify(s.log.issued[i].argv).Monitor?
    {
      assert r.log.issued[i] == s.log.issued[i];
    }
    assert r.log.issued[|s.log.issued|] == x;
  }

  lemma {:induction false} WireGrows(s: State, cb: Callback, argv: Argv)
    requires OnWire(s)
    ensures OnWire(Registered(s, cb, argv))
  {
    hide Commands.Command, SubscribeAll, Clean, Classify, Joining, Doubtful, NamesFor;
    var r := Registered(s, cb, argv);
    var xs := r.log.issued;
    assert xs[..|xs| - 1] == s.log.issued && xs[|xs| - 1] == Issued(cb, argv);
    assert r.log.wire + r.obuf == (s.log.wire + s.obuf) + Commands.Command(argv);
  }

  /** In a plain run every command joins the queue. */
  lemma {:induction false} PlainQueue(s: State, cb: Callback, argv: Argv)
    requires Queue(s) && Accepts(s, argv) && Plain(Registered(s, cb, argv))
    ensures Plain(s) && Classify(argv).Regular? && Joining(s, cb, argv) == [cb]
  {
    hide SubscribeAll, Clean, Classify, Commands.Command, Paired, Targets, CallsOf, IssuedCallbacks;
    PlainBefore(s, Issued(cb, argv), Registered(s, cb, argv));
  }

  lemma {:induction false} QueueKeeps(s: State, cb: Callback, argv: Argv)
    requires Queue(s) && Accepts(s, argv)
    ensures Queue(Registered(s, cb, argv))
  {
    hide SubscribeAll, Clean, Classify, Commands.Command, Paired, Targets, CallsOf, Plain, Joining, Accepts;
    var r, more := Registered(s, cb, argv), Joining(s, cb, argv);
    assert Targets(s.log.delivered) + s.replies + more == Targets(s.log.delivered) + (s.replies + more);
    if Plain(r) {
      PlainQueue(s, cb, argv);
      assert r.log.issued[..|r.log.issued| - 1] == s.log.issued;
      TablesUnlessSubscribing(s, cb, argv);
    }
  }

  lemma {:induction false} TableKeeps(table: Table, cb: Callback, names: seq<Bytes>, awaited: multiset<Bytes>, inOrder: bool,
      clean: bool, clean': bool)
    requires cb.pending == 1 && TableCounts(table, awaited, inOrder, clean)
    requires clean' ==> clean && Clean(table, cb, names)
    ensures TableCounts(SubscribeAll(table, cb, names), awaited + multiset(names), inOrder, clean')
  {
    hide Clean, SubscribeAll, Covers, Exact;
    if inOrder {
      SubscribeCovers(table, cb, names, awaited);
      if clean' {
        SubscribeExactIff(table, cb, names, awaited);
      }
    }
  }

  lemma {:induction false} CountsKeep(s: State, cb: Callback, argv: Argv)
    requires Counts(s) && cb.pending == 1 && !s.freed
    ensures Counts(Registered(s, cb, argv))
  {
    hide SubscribeAll, Clean, TableCounts, Classify, NamesFor, Commands.Command, Joining, Doubtful;
    var clean' := Registered(s, cb, argv).log.clean;
    TableKeeps(s.channels, cb, NamesFor(false, argv), s.log.channelsAwaited, s.log.inOrder, s.log.clean, clean');
    TableKeeps(s.patterns, cb, NamesFor(true, argv), s.log.patternsAwaited, s.log.inOrder, s.log.clean, clean');
    if !Classify(argv).Subscribe? {
      TablesUnlessSubscribing(s, cb, argv);
    }
  }

  lemma {:induction false} TablesUnlessSubscribing(s: State, cb: Callback, argv: Argv)
    requires !Classify(argv).Subscribe?
    ensures SubscribeAll(s.channels, cb, NamesFor(false, argv)) == s.channels
    ensures SubscribeAll(s.patterns, cb, NamesFor(true, argv)) == s.patterns
  {
    hide Classify;
  }

  lemma {:induction false} SubmitKeeps(s: State, fn: Option<int>, data: int, argv: Argv)
    requires Inv(s) && !s.freed
    ensures Inv(Submit(s, fn, data, argv))
  {
    hide Registered, Queue, Counts, OnWire, Accepts, SingleNames;
    if Accepts(s, argv) {
      QueueKeeps(s, Callback(fn, data, 1), argv);
      CountsKeep(s, Callback(fn, data, 1), argv);
      WireGrows(s, Callback(fn, data, 1), argv);
      SingleNameClean(s, Callback(fn, data, 1), argv);
    }
  }

  lemma {:induction false} SingleNameClean(s: State, cb: Callback, argv: Argv)
    requires (SingleNames(s.log.issued) ==> s.log.clean) && cb.pending == 1
    ensures var r := Registered(s, cb, argv); SingleNames(r.log.issued) ==> r.log.clean
  {
    hide SubscribeAll, Classify, Commands.Command, Joining, Doubtful;
    var r := Registered(s, cb, argv);
    if SingleNames(r.log.issued) {
      assert SingleNames(s.log.issued) by {
        assert forall i :: 0 <= i < |s.log.issued| ==> r.log.issued[i] == s.log.issued[i];
      }
      assert r.log.issued[|s.log.issued|] == Issued(cb, argv);
      OneNameClean(s.channels, cb, NamesFor(false, argv));
      OneNameClean(s.patterns, cb, NamesFor(true, argv));
    }
  }

  lemma {:induction false} OneNameClean(table: Table, cb: Callback, names: seq<Bytes>)
    requires |names| <= 1 && cb.pending == 1
    ensures Clean(table, cb, names)
  {
    if names != [] {
      assert names[1..] == [];
    }
  }

  // ----- Callbacks keep it -----

  lemma {:induction false} ActKeeps(s: State, a: Action)
    requires Inv(s) && !s.freed
    ensures Inv(Act(s, a))
  {
    hide Submit, Inv;
    match a
    case Issue(fn, data, argv) => SubmitKeeps(s, fn, data, argv);
    case CallFree => SameViewKeeps(s, Act(s, a));
    case CallDisconnect => SameViewKeeps(s, Act(s, a));
  }

  lemma {:induction false} ActsKeep(s: State, actions: seq<Action>)
    requires Inv(s) && !s.freed
    ensures Inv(Acts(s, actions))
    decreases |actions|
  {
    hide Act, Inv;
    if actions != [] {
      ActQueue(s, actions[0]);
      ActKeeps(s, actions[0]);
      ActsKeep(Act(s, actions[0]), actions[1..]);
    }
  }

  ghost function Entered(s: State, cb: Callback, reply: Option<Reply>): State {
    if cb.fn == None then s
    else
      s.(inCallback := true, runs := s.runs + 1, log := s.log.(calls := s.log.calls + CallFor(cb, reply)))
  }

  /** If the invariant holds as the callback is entered, it holds when it returns. */
  lemma {:induction false} RunKeeps(s: State, cb: Callback, reply: Option<Reply>)
    requires !s.inCallback && !s.freed && Inv(Entered(s, cb, reply))
    ensures Inv(RunCallback(s, cb, reply))
  {
    hide Inv, Acts;
    if cb.fn != None {
      var e := Entered(s, cb, reply);
      ActsKeep(e, s.plan(s.runs));
      SameViewKeeps(Acts(e, s.plan(s.runs)), RunCallback(s, cb, reply));
    }
  }

  lemma {:induction false} DeliveredOne(ds: seq<Delivery>, d: Delivery)
    ensures Targets(ds + [d]) == Targets(ds) + [d.cb]
    ensures CallsOf(ds + [d]) == CallsOf(ds) + CallFor(d.cb, d.reply)
  {
    hide CallFor;
    var ds' := ds + [d];
    assert ds'[..|ds'| - 1] == ds && ds'[|ds'| - 1] == d;
  }

  /** The reply that the next callback of the queue is due. */
  function Due(s: State): Option<Reply> {
    if |s.log.delivered| < |s.log.received| then Some(s.log.received[|s.log.delivered|]) else None
  }

  lemma {:induction false} ShiftedQueue(s: State, reply: Option<Reply>)
    requires Queue(s) && s.replies != [] && (Plain(s) ==> reply == Due(s))
    ensures Queue(Entered(Shifted(s, reply), s.replies[0], reply))
  {
    hide IssuedCallbacks, CallFor, Plain, Targets, CallsOf;
    var r, ds, d := Entered(Shifted(s, reply), s.replies[0], reply), s.log.delivered, Delivery(s.replies[0], reply);
    DeliveredOne(ds, d);
    EnteredLeaves(Shifted(s, reply), s.replies[0], reply);
    assert Targets(ds) + s.replies == Targets(ds) + [s.replies[0]] + s.replies[1..];
    SamePlain(s, r);
  }

  lemma {:induction false} EnteredLeaves(s: State, cb: Callback, reply: Option<Reply>)
    ensures var r := Entered(s, cb, reply);
      && r.log.calls == s.log.calls + CallFor(cb, reply) && r.log == s.log.(calls := r.log.calls)
      && r.replies == s.replies && r.invalid == s.invalid && r.monitoring == s.monitoring
      && r.subscribed == s.subscribed && r.channels == s.channels && r.patterns == s.patterns
      && r.obuf == s.obuf && r.freed == s.freed
  {
    hide Entered;
    EnteredLog(s, cb, reply);
    EnteredFields(s, cb, reply);
  }

  lemma {:induction false} EnteredLog(s: State, cb: Callback, reply: Option<Reply>)
    ensures var r := Entered(s, cb, reply);
      r.log.calls == s.log.calls + CallFor(cb, reply) && r.log == s.log.(calls := r.log.calls)
  {
    var log, more := s.log, CallFor(cb, reply);
    SameLog(log, log.(calls := log.calls + more), more);
    if cb.fn == None {
      assert log.calls + [] == log.calls;
      SameLog(log, log, []);
    }
  }

  lemma {:induction false} SameLog(a: Log, b: Log, more: seq<Call>)
    requires b == a || b == a.(calls := a.calls + more)
    ensures b == a.(calls := b.calls)
  {
  }

  lemma {:induction false} EnteredFields(s: State, cb: Callback, reply: Option<Reply>)
    ensures var r := Entered(s, cb, reply);
      && r.replies == s.replies && r.invalid == s.invalid && r.monitoring == s.monitoring
      && r.subscribed == s.subscribed && r.channels == s.channels && r.patterns == s.patterns
      && r.obuf == s.obuf && r.freed == s.freed
  {
    hide CallFor;
  }

  /** The oldest callback of the queue, taken off and run. */
  lemma {:induction false} RunQueued(s: State, reply: Option<Reply>)
    requires Inv(s) && s.replies != [] && !s.inCallback && !s.freed && (Plain(s) ==> reply == Due(s))
    ensures Inv(RunCallback(Shifted(s, reply), s.replies[0], reply))
  {
    hide RunCallback, Queue, TableCounts, IssuedBytes, Entered, CallFor, SingleNames;
    ShiftedQueue(s, reply);
    EnteredLeaves(Shifted(s, reply), s.replies[0], reply);
    RunKeeps(Shifted(s, reply), s.replies[0], reply);
  }

  /** Any other callback, in a run that is not plain. */
  lemma {:induction false} RunOther(s: State, cb: Callback, reply: Option<Reply>)
    requires Inv(s) && !Plain(s) && !s.inCallback && !s.freed
    ensures Inv(RunCallback(s, cb, reply))
  {
    hide RunCallback, TableCounts, IssuedBytes, Targets, IssuedCallbacks, CallsOf, Paired, SingleNames;
    assert !Plain(Entered(s, cb, reply));
    RunKeeps(s, cb, reply);
  }

  /** Commands are only added. */
  ghost predicate More(s: State, r: State) {
    s.log.issued <= r.log.issued
  }

  lemma {:induction false} MoreNotPlain(s: State, r: State)
    requires More(s, r) && !Plain(s)
    ensures !Plain(r)
  {
    var i :| 0 <= i < |s.log.issued| &&
      (Classify(s.log.issued[i].argv).Subscribe? || Classify(s.log.issued[i].argv).Monitor?);
    assert r.log.issued[i] == s.log.issued[i];
  }

  /** What the calls made in a callback add to the log, and what they leave alone. */
  ghost predicate LogGrows(s: State, r: State) {
    && More(s, r) && s.log.accepted <= r.log.accepted && r.log.calls == s.log.calls
    && (Closing(s) ==> r.log == s.log && r.channels == s.channels && r.patterns == s.patterns)
  }

  lemma {:induction false} SubmitGrows(s: State, fn: Option<int>, data: int, argv: Argv)
    ensures LogGrows(s, Submit(s, fn, data, argv))
  {
    hide SubscribeAll, Clean, Classify, Commands.Command, Joining, Doubtful, NamesFor;
  }

  lemma {:induction false} ActGrows(s: State, a: Action)
    ensures LogGrows(s, Act(s, a)) && (Closing(s) ==> Closing(Act(s, a)))
  {
    hide Submit;
    match a
    case Issue(fn, data, argv) =>
      SubmitGrows(s, fn, data, argv);
      SubmitQueue(s, fn, data, argv);
    case CallFree =>
    case CallDisconnect =>
  }

  lemma {:induction false} ActsGrow(s: State, actions: seq<Action>)
    ensures LogGrows(s, Acts(s, actions))
    decreases |actions|
  {
    hide Act;
    if actions != [] {
      ActGrows(s, actions[0]);
      ActsGrow(Act(s, actions[0]), actions[1..]);
    }
  }

  /** One callback run is logged, and when commands are refused nothing else is. */
  lemma {:induction false} RunGrows(s: State, cb: Callback, reply: Option<Reply>)
    requires !s.inCallback
    ensures var r := RunCallback(s, cb, reply);
      && More(s, r) && r.log.calls == s.log.calls + CallFor(cb, reply)
      && (Closing(s) ==> r.log == s.log.(calls := r.log.calls) && r.channels == s.channels && r.patterns == s.patterns)
  {
    hide Acts;
    if cb.fn != None {
      ActsGrow(Entered(s, cb, reply), s.plan(s.runs));
    }
  }

  // ----- Teardown keeps it, and runs everything that is left -----

  /** Every reply received so far has been delivered. */
  predicate CaughtUp(s: State) {
    |s.log.received| <= |s.log.delivered| || s.replies == []
  }

  lemma {:induction false} TurnKeeps(s: State)
    requires Inv(s) && s.replies != [] && !s.inCallback && !s.freed && (Plain(s) ==> CaughtUp(s))
    ensures var r := DrainTurn(s);
      && Inv(r) && More(s, r) && (Plain(r) ==> Plain(s)) && (Closing(s) ==> r.log.issued == s.log.issued)
      && r.log.received == s.log.received && |r.log.delivered| == |s.log.delivered| + 1
  {
    hide Inv, Plain, RunCallback;
    RunQueued(s, None);
    RunQueue(Shifted(s, None), s.replies[0], None);
    RunGrows(Shifted(s, None), s.replies[0], None);
    if Plain(DrainTurn(s)) && !Plain(s) {
      MoreNotPlain(s, DrainTurn(s));
    }
  }

  lemma {:induction false} DrainKeeps(s: State, turns: nat)
    requires Inv(s) && !s.inCallback && !s.freed && (Plain(s) ==> CaughtUp(s))
    ensures var r := Drained(s, turns).state;
      && Inv(r) && More(s, r) && (Plain(r) ==> Plain(s) && CaughtUp(r))
      && (Closing(s) ==> r.log.issued == s.log.issued)
    decreases turns
  {
    hide Inv, Plain, DrainTurn;
    if s.replies != [] && turns > 0 {
      TurnKeeps(s);
      DrainKeeps(DrainTurn(s), turns - 1);
    }
  }

  /** The runs with a NULL reply that these callbacks stand for. */
  function NullCalls(cbs: seq<Callback>): seq<Call> {
    if cbs == [] then [] else CallFor(cbs[0], None) + NullCalls(cbs[1..])
  }

  function Entries(table: Table, names: seq<Bytes>): seq<Callback>
    requires forall n :: n in names ==> n in table
  {
    if names == [] then [] else [table[names[0]]] + Entries(table, names[1..])
  }

  lemma {:induction false} PopInvalidKeeps(s: State)
    requires Inv(s) && s.invalid != []
    ensures Inv(s.(invalid := s.invalid[1..])) && !Plain(s) && !Plain(s.(invalid := s.invalid[1..]))
  {
    hide TableCounts, IssuedBytes, Targets, IssuedCallbacks, CallsOf, Paired, SingleNames;
    SamePlain(s, s.(invalid := s.invalid[1..]));
  }

  lemma {:induction false} DrainInvalidKeeps(s: State)
    requires Inv(s) && Closing(s) && !s.inCallback && !s.freed
    ensures var r := DrainInvalid(s);
      && Inv(r) && r.channels == s.channels && r.patterns == s.patterns
      && r.log == s.log.(calls := s.log.calls + NullCalls(s.invalid))
    decreases |s.invalid|
  {
    hide Inv, Plain, RunCallback, CallFor;
    if s.invalid == [] {
      assert s.log.calls + NullCalls(s.invalid) == s.log.calls;
    } else {
      var cb, rest := s.invalid[0], s.(invalid := s.invalid[1..]);
      PopInvalidKeeps(s);
      RunOther(rest, cb, None);
      RunGrows(rest, cb, None);
      RunQueue(rest, cb, None);
      DrainInvalidKeeps(RunCallback(rest, cb, None));
      assert s.log.calls + CallFor(cb, None) + NullCalls(rest.invalid) == s.log.calls + NullCalls(s.invalid);
    }
  }

  lemma {:induction false} FarewellKeeps(s: State, table: Table, names: seq<Bytes>)
    requires Inv(s) && Closing(s) && !s.inCallback && !s.freed
    requires (forall n :: n in names ==> n in table) && (Plain(s) ==> names == [])
    ensures var r := Farewell(s, table, names);
      && Inv(r) && r.channels == s.channels && r.patterns == s.patterns
      && r.log == s.log.(calls := s.log.calls + NullCalls(Entries(table, names)))
    decreases |names|
  {
    hide Inv, Plain, RunCallback, CallFor;
    if names == [] {
      assert s.log.calls + NullCalls(Entries(table, names)) == s.log.calls;
    } else {
      var cb := table[names[0]];
      RunOther(s, cb, None);
      RunGrows(s, cb, None);
      RunQueue(s, cb, None);
      var r := RunCallback(s, cb, None);
      MoreNotPlain(s, r);
      FarewellKeeps(r, table, names[1..]);
      assert Entries(table, names)[1..] == Entries(table, names[1..]);
      assert s.log.calls + CallFor(cb, None) + NullCalls(Entries(table, names[1..])) ==
        s.log.calls + NullCalls(Entries(table, names));
    }
  }

  /** Draining the queue when commands are refused runs exactly what was queued, each with NULL. */
  lemma {:induction false} DrainCalls(s: State, turns: nat)
    requires Closing(s) && !s.inCallback && turns >= |s.replies|
    ensures var r := Drained(s, turns).state;
      && r.log.calls == s.log.calls + NullCalls(s.replies) && r.channels == s.channels && r.patterns == s.patterns
      && r.log.issued == s.log.issued && r.log.accepted == s.log.accepted
    decreases turns
  {
    hide RunCallback, CallFor;
    if s.replies == [] {
      assert s.log.calls + NullCalls(s.replies) == s.log.calls;
    } else {
      var m := Shifted(s, None);
      var cb := s.replies[0];
      RunGrows(m, cb, None);
      RunQueue(m, cb, None);
      DrainCalls(DrainTurn(s), turns - 1);
      assert s.log.calls + CallFor(cb, None) + NullCalls(m.replies) == s.log.calls + NullCalls(s.replies);
    }
  }

  /** The callbacks a teardown owes a call: the queued, the doubtful, and those of both tables. */
  ghost function Owed(s: State, walk: Walk): seq<Callback>
    requires Walks(walk)
  {
    assert Lists(walk(s.channels.Keys), s.channels.Keys) && Lists(walk(s.patterns.Keys), s.patterns.Keys);
    s.replies + s.invalid + Entries(s.channels, walk(s.channels.Keys)) + Entries(s.patterns, walk(s.patterns.Keys))
  }

  lemma {:induction false} NullCallsAppend(a: seq<Callback>, b: seq<Callback>)
    ensures NullCalls(a + b) == NullCalls(a) + NullCalls(b)
  {
    hide CallFor;
    if a == [] {
      assert a + b == b;
    } else {
      assert (a + b)[1..] == a[1..] + b;
      NullCallsAppend(a[1..], b);
    }
  }
}
