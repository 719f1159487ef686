/**
 Whole runs of the callback protocol: the invariant between events, and what it says about every
 run of every set of callbacks.
 */
module AsyncRuns {
  import opened ByteStrings
  import opened RespGrammar
  import opened PubSub
  import opened AsyncProtocol
  import opened AsyncSafety
  import Commands

  // ----- Teardown -----

  /**
   Teardown keeps the invariant and runs exactly the callbacks that are owed a call: each one
   queued, each doubtful one and each one of either table, once, in this order, with NULL.
   */
  lemma {:induction false} Teardown(s: State, walk: Walk)
    requires Walks(walk) && Inv(s) && Closing(s) && !s.inCallback && !s.freed && (Plain(s) ==> CaughtUp(s))
    ensures var r := FreeContext(s, walk);
      && Inv(r) && r.freed && r.replies == [] && r.invalid == [] && Closing(r) && !r.inCallback
      && r.log.issued == s.log.issued && r.log.accepted == s.log.accepted && r.log.received == s.log.received
      && r.log.calls == s.log.calls + NullCalls(Owed(s, walk))
  {
    hide Inv, Plain, RunCallback, CallFor, NullCalls, Entries;
    assert Lists(walk(s.channels.Keys), s.channels.Keys) && Lists(walk(s.patterns.Keys), s.patterns.Keys);
    DrainKeeps(s, |s.replies|);
    DrainCalls(s, |s.replies|);
    var s1 := DrainReplies(s);
    DrainInvalidKeeps(s1);
    var s2 := DrainInvalid(s1);
    NoEntriesIfPlain(s2, walk);
    FarewellKeeps(s2, s.channels, walk(s.channels.Keys));
    var s3 := Farewell(s2, s.channels, walk(s.channels.Keys));
    NoEntriesIfPlain(s3, walk);
    FarewellKeeps(s3, s.patterns, walk(s.patterns.Keys));
    var s4 := Farewell(s3, s.patterns, walk(s.patterns.Keys));
    ReleasedKeeps(s4);
    OwedCalls(s, walk);
  }

  lemma {:induction false} NoEntriesIfPlain(s: State, walk: Walk)
    requires Walks(walk) && Inv(s)
    ensures Plain(s) ==> walk(s.channels.Keys) == [] && walk(s.patterns.Keys) == []
  {
    hide TableCounts, IssuedBytes, Targets, IssuedCallbacks, CallsOf, Paired, SingleNames;
    NothingToList(walk(s.channels.Keys), s.channels.Keys);
    NothingToList(walk(s.patterns.Keys), s.patterns.Keys);
  }

  lemma {:induction false} NothingToList(order: seq<Bytes>, keys: set<Bytes>)
    requires Lists(order, keys)
    ensures keys == {} ==> order == []
  {
    if order != [] {
      assert order[0] in keys;
    }
  }

  lemma {:induction false} ReleasedKeeps(s: State)
    requires Inv(s)
    ensures Inv(s.(channels := map[], patterns := map[], freed := true))
  {
    hide TableCounts, IssuedBytes, Targets, IssuedCallbacks, CallsOf, Paired, SingleNames;
    SamePlain(s, s.(channels := map[], patterns := map[], freed := true));
  }

  lemma {:induction false} OwedCalls(s: State, walk: Walk)
    requires Walks(walk)
    ensures forall n :: n in walk(s.channels.Keys) ==> n in s.channels
    ensures forall n :: n in walk(s.patterns.Keys) ==> n in s.patterns
    ensures s.log.calls + NullCalls(Owed(s, walk)) ==
      s.log.calls + NullCalls(s.replies) + NullCalls(s.invalid) +
      NullCalls(Entries(s.channels, walk(s.channels.Keys))) + NullCalls(Entries(s.patterns, walk(s.patterns.Keys)))
  {
    hide NullCalls, Entries;
    assert Lists(walk(s.channels.Keys), s.channels.Keys) && Lists(walk(s.patterns.Keys), s.patterns.Keys);
    var c, p := Entries(s.channels, walk(s.channels.Keys)), Entries(s.patterns, walk(s.patterns.Keys));
    NullCallsAppend(s.replies, s.invalid);
    NullCallsAppend(s.replies + s.invalid, c);
    NullCallsAppend(s.replies + s.invalid + c, p);
  }

  // ----- Push messages -----

  /** While the server answers in order, a name that is waited for has an entry. */
  lemma {:induction false} AwaitedHasEntry(table: Table, awaited: multiset<Bytes>, clean: bool, name: Bytes)
    requires TableCounts(table, awaited, true, clean) && name in awaited
    ensures name in table && table[name].pending >= 1
  {
    assert Pending(table, name) >= awaited[name];
  }

  /** A message changes an entry's count and the replies its name waits for alike. */
  lemma {:induction false} PendingAfter(table: Table, awaited: multiset<Bytes>, m: Message, pattern: bool, n: Bytes)
    requires Pending(table, n) >= awaited[n] && Expected(awaited, m, pattern)
    requires m.pattern == pattern && m.kind.Confirms? ==> m.name in table
    ensures Pending(TableAfter(table, m, pattern), n) - AwaitedAfter(awaited, m, pattern)[n] == Pending(table, n) - awaited[n]
  {
  }

  lemma {:induction false} MessageCounts(table: Table, awaited: multiset<Bytes>, inOrder: bool, inOrder': bool, clean: bool,
      m: Message, pattern: bool)
    requires TableCounts(table, awaited, inOrder, clean) && (inOrder' ==> inOrder && Expected(awaited, m, pattern))
    ensures TableCounts(TableAfter(table, m, pattern), AwaitedAfter(awaited, m, pattern), inOrder', clean)
  {
    hide TableAfter, AwaitedAfter;
    if inOrder' {
      if m.pattern == pattern && m.kind.Confirms? {
        AwaitedHasEntry(table, awaited, clean, m.name);
      }
      forall n: Bytes
        ensures Pending(table, n) - awaited[n] ==
          Pending(TableAfter(table, m, pattern), n) - AwaitedAfter(awaited, m, pattern)[n]
      {
        assert Pending(table, n) >= awaited[n];
        PendingAfter(table, awaited, m, pattern, n);
      }
      assert Covers(TableAfter(table, m, pattern), AwaitedAfter(awaited, m, pattern));
    }
  }

  /** What a push message can change. */
  ghost predicate PushView(s: State, r: State) {
    && r.log.issued == s.log.issued && r.log.accepted == s.log.accepted && r.log.delivered == s.log.delivered
    && r.log.received == s.log.received && r.log.calls == s.log.calls && r.log.wire == s.log.wire
    && r.log.clean == s.log.clean && r.replies == s.replies && r.monitoring == s.monitoring && r.obuf == s.obuf
    && r.freed == s.freed && r.freeing == s.freeing && r.disconnecting == s.disconnecting
    && r.inCallback == s.inCallback && r.err == s.err && r.aborted == s.aborted && r.noAutoFree == s.noAutoFree
  }

  lemma {:induction false} PushViewKeeps(s: State, r: State)
    requires Inv(s) && !Plain(s) && PushView(s, r) && Counts(r)
    ensures Inv(r) && !Plain(r)
  {
    hide Counts, IssuedBytes, Targets, IssuedCallbacks, CallsOf, Paired, SingleNames;
    SamePlain(s, r);
  }

  lemma {:induction false} PushedCounts(s: State, m: Message)
    requires Counts(s) && s.subscribed
    ensures Counts(Pushed(s, m))
  {
    hide TableCounts, TableAfter, AwaitedAfter, Expected, EndsSubscription;
    PushedSubscribed(s, m);
    var inOrder' := Pushed(s, m).log.inOrder;
    if !s.freed {
      MessageCounts(s.channels, s.log.channelsAwaited, s.log.inOrder, inOrder', s.log.clean, m, false);
      MessageCounts(s.patterns, s.log.patternsAwaited, s.log.inOrder, inOrder', s.log.clean, m, true);
    }
  }

  lemma {:induction false} PushedSubscribed(s: State, m: Message)
    requires s.subscribed
    ensures var r := Pushed(s, m); r.channels != map[] || r.patterns != map[] ==> r.subscribed
  {
    hide TableAfter, AwaitedAfter, Expected, HasEntry;
  }

  lemma {:induction false} PushedView(s: State, m: Message)
    ensures PushView(s, Pushed(s, m))
  {
    hide TableAfter, AwaitedAfter, Expected, EndsSubscription;
  }

  lemma {:induction false} PushKeeps(s: State, reply: Reply, stale: Callback)
    requires Inv(s) && s.subscribed && !s.freed && GetSubscribeCallback(s, reply, stale).Chosen?
    ensures var r := GetSubscribeCallback(s, reply, stale).state;
      Inv(r) && !Plain(r) && PushView(s, r)
  {
    hide Inv, Plain, Counts, Pushed, MessageOf, HasEntry, WellFormed;
    SubscribedNotPlain(s);
    if !reply.Array? {
      if s.invalid != [] {
        PopInvalidKeeps(s);
      }
    } else {
      var m := MessageOf(reply);
      PushedCounts(s, m);
      PushedView(s, m);
      PushViewKeeps(s, Pushed(s, m));
    }
  }

  lemma {:induction false} SubscribedNotPlain(s: State)
    requires Inv(s) && (s.subscribed || s.monitoring)
    ensures !Plain(s) && Counts(s)
  {
    hide Counts, IssuedBytes, Targets, IssuedCallbacks, CallsOf, Paired, SingleNames;
  }

  // ----- Between events -----

  /** Every reply has gone to a callback. */
  predicate InStep(s: State) {
    |s.log.received| == |s.log.delivered|
  }

  /** What holds between two events. */
  ghost predicate Settled(s: State) {
    && Inv(s) && !s.inCallback
    && (Plain(s) ==> CaughtUp(s) && (s.err || s.freed || s.aborted || InStep(s)))
    && (s.err && !s.freed && !s.looping ==> s.disconnecting)
    && (s.freeing && !s.freed && !s.looping ==> s.err && s.noAutoFree && s.replies == [])
    && (s.looping ==> s.err && !s.freed && !s.aborted && s.replies != [])
    && (s.freed ==> s.replies == [] && s.invalid == [])
  }

  /** What holds in the loop over the replies. */
  ghost predicate Reading(s: State) {
    Inv(s) && !s.inCallback && !Ended(s) && !s.freeing && !s.err && (Plain(s) ==> InStep(s))
  }

  /** Once commands are refused they stay refused, and no further one is accepted. */
  ghost predicate Final(s: State, r: State) {
    Closing(s) ==> Closing(r) && r.log.issued == s.log.issued
  }

  lemma {:induction false} DisconnectNowSettles(s: State, walk: Walk)
    requires Walks(walk) && Inv(s) && !s.inCallback && !s.freed && !s.looping && (Plain(s) ==> CaughtUp(s))
    requires !s.err ==> s.replies == [] && s.disconnecting && (Plain(s) ==> InStep(s))
    requires s.freeing ==> s.err && s.replies == []
    ensures Final(s, DisconnectNow(s, walk))
    ensures Settled(DisconnectNow(s, walk))
  {
    hide Inv, Plain, Owed, FreeContext;
    var s1 := if s.err then s.(disconnecting := true) else s;
    SameViewKeeps(s, s1);
    SamePlain(s, s1);
    if !s1.noAutoFree {
      TeardownSettles(s1, walk);
    }
  }

  lemma {:induction false} TeardownSettles(s: State, walk: Walk)
    requires Walks(walk) && Inv(s) && Closing(s) && !s.inCallback && !s.freed && !s.looping && (Plain(s) ==> CaughtUp(s))
    ensures Final(s, FreeContext(s, walk))
    ensures Settled(FreeContext(s, walk))
  {
    hide Inv, Plain, Owed, FreeContext;
    Teardown(s, walk);
    SamePlain(s, FreeContext(s, walk));
  }

  lemma {:induction false} ReceivedKeeps(s: State, reply: Reply)
    requires Reading(s)
    ensures Inv(Received(s, reply)) && (Plain(Received(s, reply)) ==> Due(Received(s, reply)) == Some(reply))
  {
    hide TableCounts, IssuedBytes, Targets, IssuedCallbacks, CallsOf, SingleNames;
    SamePlain(s, Received(s, reply));
  }

  /** What the run of a callback leaves alone, seen from the loop over the replies. */
  lemma {:induction false} RunLeaves(s: State, cb: Callback, reply: Option<Reply>)
    requires !s.inCallback
    ensures var r := RunCallback(s, cb, reply);
      && Untouched(s, r) && Final(s, r) && r.log.delivered == s.log.delivered
      && (cb.fn == None ==> r.freeing == s.freeing)
      && (Plain(r) ==> Plain(s))
  {
    hide Plain, Acts;
    RunQueue(s, cb, reply);
    RunGrows(s, cb, reply);
    if Plain(RunCallback(s, cb, reply)) && !Plain(s) {
      MoreNotPlain(s, RunCallback(s, cb, reply));
    }
  }

  /** A callback has been picked for a reply; after its run the invariant holds and the replies are in step. */
  lemma {:induction false} RoutedRuns(s: State, reply: Reply, stale: Callback)
    requires Inv(s) && !s.inCallback && !s.freed && (s.replies != [] || s.subscribed || s.monitoring)
    requires Plain(s) ==> Due(s) == Some(reply) && |s.log.received| == |s.log.delivered| + 1
    requires Route(s, reply, stale).Chosen?
    ensures var found := Route(s, reply, stale);
      var r := RunCallback(found.state, found.cb, Some(reply));
      && Inv(r) && Untouched(s, r) && Final(s, r) && (Plain(r) ==> InStep(r))
      && (found.cb.fn == None ==> r.freeing == s.freeing)
  {
    hide Inv, Plain, RunCallback, GetSubscribeCallback, Due;
    if s.replies != [] {
      QueuedRuns(s, reply);
    } else {
      var found := Route(s, reply, stale);
      OtherRuns(s, reply, stale);
      RunLeaves(found.state, found.cb, Some(reply));
    }
  }

  lemma {:induction false} QueuedRuns(s: State, reply: Reply)
    requires Inv(s) && !s.inCallback && !s.freed && s.replies != []
    requires Plain(s) ==> Due(s) == Some(reply) && |s.log.received| == |s.log.delivered| + 1
    ensures var m := Shifted(s, Some(reply));
      var r := RunCallback(m, s.replies[0], Some(reply));
      && Inv(r) && Untouched(s, r) && Final(s, r) && (Plain(r) ==> InStep(r)) && (s.replies[0].fn == None ==> r.freeing == s.freeing)
  {
    hide Inv, Plain, RunCallback, Due;
    var m := Shifted(s, Some(reply));
    RunLeaves(m, s.replies[0], Some(reply));
    RunQueued(s, Some(reply));
    SamePlain(s, m);
  }

  lemma {:induction false} OtherRuns(s: State, reply: Reply, stale: Callback)
    requires Inv(s) && !s.inCallback && !s.freed && s.replies == [] && (s.subscribed || s.monitoring)
    requires Route(s, reply, stale).Chosen?
    ensures var found := Route(s, reply, stale);
      && Inv(RunCallback(found.state, found.cb, Some(reply))) && !Plain(found.state)
      && PushView(s, found.state)
  {
    hide Inv, Plain, RunCallback, GetSubscribeCallback;
    var found := Route(s, reply, stale);
    SubscribedNotPlain(s);
    if s.subscribed {
      PushKeeps(s, reply, stale);
    }
    RunOther(found.state, found.cb, Some(reply));
  }

  lemma {:induction false} OneReplyKeeps(s: State, reply: Reply, cb: Callback, walk: Walk)
    requires Walks(walk) && Reading(s)
    ensures Final(s, OneReply(Received(s, reply), reply, cb, walk).state)
    ensures var t := OneReply(Received(s, reply), reply, cb, walk);
      if t.Over? then Settled(t.state) else Reading(t.state)
  {
    hide Inv, Plain, DisconnectNow, FreeContext, RunCallback, Route;
    ReceivedKeeps(s, reply);
    var s0 := Received(s, reply);
    SamePlain(s, s0);
    if s0.replies == [] && reply.Error? {
      var e := s0.(err := true);
      SameViewKeeps(s0, e);
      DisconnectNowSettles(e, walk);
    } else if s0.replies == [] && !s0.subscribed && !s0.monitoring {
      SameViewKeeps(s0, s0.(aborted := true));
    } else {
      var found := Route(s0, reply, cb);
      if found.AssertionFails? {
        SubscribedNotPlain(s0) by { RouteFails(s0, reply, cb); }
        SameViewKeeps(s0, s0.(aborted := true));
        SamePlain(s0, s0.(aborted := true));
      } else {
        RoutedRuns(s0, reply, cb);
        var r := RunCallback(found.state, found.cb, Some(reply));
        RunQueue(found.state, found.cb, Some(reply));
        if found.cb.fn != None && r.freeing {
          TeardownSettles(r, walk);
        }
      }
    }
  }

  /** Only a push message can fail an assertion. */
  lemma {:induction false} RouteFails(s: State, reply: Reply, cb: Callback)
    requires (s.replies != [] || s.subscribed || s.monitoring) && Route(s, reply, cb).AssertionFails?
    ensures s.subscribed && s.replies == []
  {
  }

  lemma {:induction false} IdleSettles(s: State, bad: bool, cb: Callback, walk: Walk)
    requires Walks(walk) && Reading(s)
    ensures Final(s, Idle(s, bad, cb, walk))
    ensures Settled(Idle(s, bad, cb, walk))
  {
    hide Inv, Plain, DisconnectNow;
    if bad {
      SameViewKeeps(s, s.(err := true));
      SamePlain(s, s.(err := true));
      DisconnectNowSettles(s.(err := true), walk);
    } else if s.disconnecting && s.obuf == [] && s.replies == [] {
      DisconnectNowSettles(s, walk);
    } else if s.monitoring {
      RepushKeeps(s, cb);
    }
  }

  lemma {:induction false} RepushKeeps(s: State, cb: Callback)
    requires Inv(s) && s.monitoring
    ensures Inv(s.(replies := s.replies + [cb])) && !Plain(s.(replies := s.replies + [cb]))
  {
    hide TableCounts, IssuedBytes, Targets, IssuedCallbacks, CallsOf, Paired, SingleNames;
    SamePlain(s, s.(replies := s.replies + [cb]));
  }

  lemma {:induction false} ProcessSettles(s: State, incoming: seq<Reply>, bad: bool, cb: Callback, walk: Walk)
    requires Walks(walk) && Reading(s)
    ensures Final(s, ProcessCallbacks(s, incoming, bad, cb, walk))
    ensures Settled(ProcessCallbacks(s, incoming, bad, cb, walk))
    decreases |incoming|
  {
    hide Inv, Plain, OneReply, Idle, Settled;
    if incoming == [] {
      IdleSettles(s, bad, cb, walk);
    } else {
      OneReplyKeeps(s, incoming[0], cb, walk);
      var t := OneReply(Received(s, incoming[0]), incoming[0], cb, walk);
      if t.Next? {
        ProcessSettles(t.state, incoming[1..], bad, t.cb, walk);
      }
    }
  }

  /** A failure of the socket, at any moment between events. */
  lemma {:induction false} FailureSettles(s: State, walk: Walk)
    requires Walks(walk) && Settled(s) && !Ended(s)
    ensures Final(s, DisconnectNow(s.(err := true), walk))
    ensures Settled(DisconnectNow(s.(err := true), walk))
  {
    hide Inv, Plain, DisconnectNow;
    SameViewKeeps(s, s.(err := true));
    SamePlain(s, s.(err := true));
    DisconnectNowSettles(s.(err := true), walk);
  }

  lemma {:induction false} ConnectSettles(s: State, connecting: Connecting, walk: Walk)
    requires Walks(walk) && Settled(s) && !Ended(s)
    ensures Final(s, HandleConnect(s, connecting, walk))
    ensures var r := HandleConnect(s, connecting, walk);
      Settled(r) && (r.connected ==> !Ended(r))
  {
    hide Inv, Plain, DisconnectNow;
    FailureSettles(s, walk);
    SameViewKeeps(s, s.(connected := true));
    SamePlain(s, s.(connected := true));
  }

  lemma {:induction false} TimeoutSettles(s: State, turns: nat, walk: Walk)
    requires Walks(walk) && Settled(s) && !Ended(s)
    ensures Final(s, HandleTimeout(s, turns, walk))
    ensures Settled(HandleTimeout(s, turns, walk))
  {
    hide Inv, Plain, DisconnectNow, Drained;
    var e := s.(err := true);
    SameViewKeeps(s, e);
    SamePlain(s, e);
    DrainKeeps(e, turns);
    var d := Drained(e, turns);
    if !IdleTimeout(s) && d.Emptied? {
      DisconnectNowSettles(d.state, walk);
    } else if !IdleTimeout(s) {
      var l := d.state.(looping := true);
      SameViewKeeps(d.state, l);
      SamePlain(d.state, l);
    }
  }

  lemma {:induction false} SentSettles(s: State, count: nat)
    requires Settled(s)
    ensures Settled(Sent(s, count)) && Final(s, Sent(s, count))
  {
    hide TableCounts, IssuedBytes, Targets, IssuedCallbacks, CallsOf, Paired, SingleNames;
    var n := if count <= |s.obuf| then count else |s.obuf|;
    SamePlain(s, Sent(s, count));
    assert s.log.wire + s.obuf[..n] + s.obuf[n..] == s.log.wire + s.obuf;
  }

  lemma {:induction false} SubmitSettles(s: State, fn: Option<int>, data: int, argv: Argv)
    requires Settled(s) && !Ended(s)
    ensures Final(s, Submit(s, fn, data, argv))
    ensures Settled(Submit(s, fn, data, argv))
  {
    hide Inv, Plain, LogOf, SubscribeAll, Classify, Joining, Doubtful, NamesFor;
    SubmitKeeps(s, fn, data, argv);
    SubmitQueue(s, fn, data, argv);
    SubmitGrows(s, fn, data, argv);
    var r := Submit(s, fn, data, argv);
    if Plain(r) && !Plain(s) {
      MoreNotPlain(s, r);
    }
  }

  lemma {:induction false} UserSettles(s: State, walk: Walk)
    requires Walks(walk) && Settled(s) && !Ended(s)
    ensures Final(s, Free(s, walk)) && Final(s, Disconnect(s, walk))
    ensures Settled(Free(s, walk)) && Settled(Disconnect(s, walk))
  {
    hide Inv, Plain, DisconnectNow, FreeContext;
    var f, d := s.(freeing := true), s.(disconnecting := true, noAutoFree := false);
    SameViewKeeps(s, f);
    SamePlain(s, f);
    TeardownSettles(f, walk);
    SameViewKeeps(s, d);
    SamePlain(s, d);
    if d.replies == [] {
      DisconnectNowSettles(d, walk);
    }
  }

  /** Every event leads from a settled context to a settled one. */
  lemma {:induction false} HandleSettles(s: State, e: Event, walk: Walk)
    requires Walks(walk) && Settled(s) && !s.inCallback && !Ended(s)
    ensures Final(s, Handle(s, e, walk))
    ensures Settled(Handle(s, e, walk))
  {
    hide Inv, Plain, Settled, DisconnectNow, ProcessCallbacks, Sent, Submit, HandleTimeout, Free, Disconnect, HandleConnect;
    match e
    case ReadReady(connecting, input) =>
      ConnectSettles(s, connecting, walk);
      var s1 := HandleConnect(s, connecting, walk);
      if s1.connected {
        if s1.err || input.ReadFails? {
          FailureSettles(s1, walk);
        } else {
          SettledReads(s1);
          ProcessSettles(s1, input.replies, input.bad, NULL_CALLBACK, walk);
        }
      }
    case WriteReady(connecting, output) =>
      ConnectSettles(s, connecting, walk);
      var s1 := HandleConnect(s, connecting, walk);
      if s1.connected {
        if s1.err || output.WriteFails? {
          FailureSettles(s1, walk);
        } else {
          SentSettles(s1, output.count);
        }
      }
    case Timeout(turns) => TimeoutSettles(s, turns, walk);
    case UserCommand(fn, data, argv) => SubmitSettles(s, fn, data, argv);
    case UserFree => UserSettles(s, walk);
    case UserDisconnect => UserSettles(s, walk);
  }

  lemma {:induction false} SettledReads(s: State)
    requires Settled(s) && !Ended(s) && !s.err
    ensures Reading(s)
  {
    hide Inv, Plain;
  }

  lemma {:induction false} StartSettled(noAutoFree: bool, plan: Plan)
    ensures Settled(Start(noAutoFree, plan)) && Plain(Start(noAutoFree, plan))
  {
    var s := Start(noAutoFree, plan);
    assert Targets([]) == [] && CallsOf([]) == [] && IssuedCallbacks([]) == [] && IssuedBytes([]) == [];
  }

  lemma {:induction false} RunSettles(s: State, events: seq<Event>, walk: Walk)
    requires Walks(walk) && Settled(s)
    ensures Final(s, Run(s, events, walk))
    ensures Settled(Run(s, events, walk))
    decreases |events|
  {
    hide Inv, Plain, Handle;
    if events != [] && !Ended(s) {
      HandleSettles(s, events[0], walk);
      RunSettles(Handle(s, events[0], walk), events[1..], walk);
    }
  }

  // ----- The theorems -----

  /**
   Exactly once and in order. In every run without SUBSCRIBE and MONITOR the accepted commands are
   the issued ones; their callbacks were delivered, in order, up to those still queued; the k-th one
   got the k-th reply received, or NULL where no reply came, which happens only once the connection
   failed or the context is freed; the functions that ran are exactly the functions of the delivered
   callbacks; and when the context is freed, nothing is left queued.
   */
  lemma {:induction false} ExactlyOnceInOrder(noAutoFree: bool, plan: Plan, events: seq<Event>, walk: Walk)
    requires Walks(walk)
    ensures var s := Run(Start(noAutoFree, plan), events, walk);
      Plain(s) ==>
        && IssuedCallbacks(s.log.issued) == Targets(s.log.delivered) + s.replies
        && Paired(s.log.delivered, s.log.received)
        && s.log.calls == CallsOf(s.log.delivered)
        && (s.freed ==> s.replies == [])
        && (|s.log.received| < |s.log.delivered| ==> s.freed || s.err || s.aborted)
        && (|s.log.received| > |s.log.delivered| ==> s.replies == [] && (s.freed || s.err || s.aborted))
  {
    hide Run, TableCounts, IssuedBytes, Targets, CallsOf, Paired, IssuedCallbacks, SingleNames;
    StartSettled(noAutoFree, plan);
    RunSettles(Start(noAutoFree, plan), events, walk);
  }

  /** What is sent and what waits to be sent are together the accepted commands, whole and in order. */
  lemma {:induction false} WireIsCommands(noAutoFree: bool, plan: Plan, events: seq<Event>, walk: Walk)
    requires Walks(walk)
    ensures var s := Run(Start(noAutoFree, plan), events, walk); s.log.wire + s.obuf == IssuedBytes(s.log.issued)
  {
    hide Run, TableCounts, IssuedBytes, Targets, CallsOf, Paired, IssuedCallbacks, SingleNames;
    StartSettled(noAutoFree, plan);
    RunSettles(Start(noAutoFree, plan), events, walk);
  }

  /**
   Subscription counting, in every run: a table with entries means subscribed mode; while the server
   sends no subscribe reply that was not asked for, each entry counts at least the replies its name
   still waits for, so a name that is waited for keeps its entry; and exactly these, if every
   SUBSCRIBE was clean, in particular if each named one channel or pattern only.
   */
  lemma {:induction false} SubscriptionCounts(noAutoFree: bool, plan: Plan, events: seq<Event>, walk: Walk)
    requires Walks(walk)
    ensures var s := Run(Start(noAutoFree, plan), events, walk);
      && (s.channels != map[] || s.patterns != map[] ==> s.subscribed)
      && (s.log.inOrder && !s.freed ==>
        && (forall n :: n in s.log.channelsAwaited ==> n in s.channels)
        && (forall n :: n in s.log.patternsAwaited ==> n in s.patterns))
      && (SingleNames(s.log.issued) ==> s.log.clean)
      && (s.log.inOrder && s.log.clean && !s.freed ==>
        Exact(s.channels, s.log.channelsAwaited) && Exact(s.patterns, s.log.patternsAwaited))
  {
    hide Run, IssuedBytes, Targets, CallsOf, Paired, IssuedCallbacks, Exact, Covers, SingleNames;
    StartSettled(noAutoFree, plan);
    RunSettles(Start(noAutoFree, plan), events, walk);
    var s := Run(Start(noAutoFree, plan), events, walk);
    if s.log.inOrder && !s.freed {
      forall n | n in s.log.channelsAwaited
        ensures n in s.channels
      {
        AwaitedHasEntry(s.channels, s.log.channelsAwaited, s.log.clean, n);
      }
      forall n | n in s.log.patternsAwaited
        ensures n in s.patterns
      {
        AwaitedHasEntry(s.patterns, s.log.patternsAwaited, s.log.clean, n);
      }
    }
  }

  /** After disconnect, free or a failure of the connection no run accepts another command. */
  lemma {:induction false} ClosingIsFinal(noAutoFree: bool, plan: Plan, before: seq<Event>, after: seq<Event>, walk: Walk)
    requires Walks(walk) && Closing(Run(Start(noAutoFree, plan), before, walk))
    ensures var s, r := Run(Start(noAutoFree, plan), before, walk), Run(Start(noAutoFree, plan), before + after, walk);
      Closing(r) && r.log.issued == s.log.issued
  {
    hide Settled, Run;
    StartSettled(noAutoFree, plan);
    RunSettles(Start(noAutoFree, plan), before, walk);
    RunAppend(Start(noAutoFree, plan), before, after, walk);
    RunSettles(Run(Start(noAutoFree, plan), before, walk), after, walk);
  }

  lemma {:induction false} RunAppend(s: State, a: seq<Event>, b: seq<Event>, walk: Walk)
    requires Walks(walk) && !s.inCallback
    ensures !Run(s, a, walk).inCallback && Run(s, a + b, walk) == Run(Run(s, a, walk), b, walk)
    decreases |a|
  {
    hide Handle;
    if a == [] {
      assert a + b == b;
    } else if !Ended(s) {
      assert (a + b)[0] == a[0] && (a + b)[1..] == a[1..] + b;
      RunAppend(Handle(s, a[0], walk), a[1..], b, walk);
    }
  }

  /**
   A clean disconnect completes: when the replies at hand have been processed on a connection that
   is closing, either something is still to be sent or answered, or the context is freed (unless
   automatic freeing is off).
   */
  lemma {:induction false} CleanDisconnectCompletes(s: State, incoming: seq<Reply>, bad: bool, cb: Callback, walk: Walk)
    requires Walks(walk) && Reading(s)
    ensures var r := ProcessCallbacks(s, incoming, bad, cb, walk);
      r.freed || r.aborted || r.noAutoFree || (r.disconnecting ==> r.obuf != [] || r.replies != [])
    decreases |incoming|
  {
    hide Inv, Plain, OneReply;
    if incoming == [] {
      IdleCompletes(s, bad, cb, walk);
    } else {
      OneReplyKeeps(s, incoming[0], cb, walk);
      var t := OneReply(Received(s, incoming[0]), incoming[0], cb, walk);
      if t.Over? {
        OverMeansOver(Received(s, incoming[0]), incoming[0], cb, walk);
      } else {
        CleanDisconnectCompletes(t.state, incoming[1..], bad, t.cb, walk);
      }
    }
  }

  lemma {:induction false} IdleCompletes(s: State, bad: bool, cb: Callback, walk: Walk)
    requires Walks(walk) && Reading(s)
    ensures var r := Idle(s, bad, cb, walk);
      r.freed || r.noAutoFree || (r.disconnecting ==> r.obuf != [] || r.replies != [])
  {
    hide Inv, Plain, FreeContext;
  }

  lemma {:induction false} OverMeansOver(s: State, reply: Reply, cb: Callback, walk: Walk)
    requires Walks(walk) && !s.freed && !s.inCallback && OneReply(s, reply, cb, walk).Over?
    ensures var r := OneReply(s, reply, cb, walk).state; r.freed || r.aborted || r.noAutoFree
  {
    hide Deliver, DisconnectNow, Route;
    if s.replies == [] && reply.Error? {
      DisconnectFrees(s.(err := true), walk);
    } else if s.replies != [] || s.subscribed || s.monitoring {
      var found := Route(s, reply, cb);
      if found.Chosen? {
        DeliverOver(found.state, found.cb, reply, walk);
      }
    }
  }

  lemma {:induction false} DisconnectFrees(s: State, walk: Walk)
    requires Walks(walk) && !s.freed && !s.inCallback && s.err
    ensures var r := DisconnectNow(s, walk); r.freed || r.noAutoFree
  {
    hide FreeContext;
  }

  lemma {:induction false} DeliverOver(s: State, cb: Callback, reply: Reply, walk: Walk)
    requires Walks(walk) && !s.freed && !s.inCallback
    ensures var t := Deliver(s, cb, reply, walk); t.Over? ==> t.state.freed
  {
    hide FreeContext, RunCallback;
    RunQueue(s, cb, Some(reply));
  }
}
