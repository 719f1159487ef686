/**
 Which callback a reply runs. The callback variable of the reply loop outlives a turn, and in monitor
 mode the loop puts it back into the queue; so a reply can run the callback of an earlier one.
 */
module AsyncRouting {
  import opened ByteStrings
  import opened RespGrammar
  import opened PubSub
  import opened AsyncProtocol
  import opened AsyncSafety
  import opened AsyncRuns

  // ----- One reply -----

  /** The callback of the first MONITOR, the only one that the server answers. */
  function MonitorOf(issued: seq<Issued>): Callback {
    if issued == [] then NULL_CALLBACK
    else if Classify(issued[0].argv).Monitor? then issued[0].cb
    else MonitorOf(issued[1..])
  }

  /**
   The callback a reply is meant for. The oldest command in the queue comes first; `again` holds the
   places of entries that the loop itself has put there, which stand for no command. Then a push message
   is meant for its entry, any other reply in subscribed mode for the oldest doubtful command, and what
   is left over in monitor mode is a line for MONITOR.
   */
  function Owner(s: State, reply: Reply, again: set<int>): Option<Callback> {
    if s.replies != [] && |s.log.delivered| !in again then Some(s.replies[0])
    else if s.subscribed && reply.Array? then
      if WellFormed(reply) && HasEntry(s, MessageOf(reply)) then Some(EntryOf(s, MessageOf(reply))) else None
    else if s.subscribed && s.invalid != [] then Some(s.invalid[0])
    else if s.monitoring then Some(MonitorOf(s.log.issued))
    else None
  }

  /** The run that the reply's own callback is due; none without one, or for NULL. */
  function OwnCall(s: State, reply: Reply, again: set<int>): seq<Call> {
    match Owner(s, reply, again)
    case None => []
    case Some(cb) => CallFor(cb, Some(reply))
  }

  /** The callback that the loop takes without looking it up: one put back into the queue, or what the variable holds. */
  function Leftover(s: State, reply: Reply, cb: Callback, again: set<int>): Option<Callback> {
    if s.replies != [] then (if |s.log.delivered| in again then Some(s.replies[0]) else None)
    else if !s.subscribed then Some(cb)
    else if reply.Array? then (if WellFormed(reply) && HasEntry(s, MessageOf(reply)) then None else Some(cb))
    else if s.invalid == [] then Some(cb)
    else None
  }

  /** The guard: a callback that was not looked up is the function the reply is meant for, or NULL if there is none. */
  predicate Guard(s: State, reply: Reply, cb: Callback, again: set<int>) {
    match Leftover(s, reply, cb, again)
    case None => true
    case Some(left) =>
      match Owner(s, reply, again)
      case None => left.fn == None
      case Some(own) => left.fn == own.fn && (own.fn.Some? ==> left.data == own.data)
  }

  /** The reply leads to a callback: it neither ends the connection nor fails an assertion. */
  predicate Routes(s: State, reply: Reply, cb: Callback) {
    && (s.replies != [] || ((s.subscribed || s.monitoring) && !reply.Error?))
    && Route(s, reply, cb).Chosen?
  }

  /** Routing changes no log of calls, and takes what was left over, or else the owner's callback. */
  lemma {:induction false} PicksOwner(s: State, reply: Reply, cb: Callback, again: set<int>)
    requires Routes(s, reply, cb) && !s.inCallback
    ensures var found, left := Route(s, reply, cb), Leftover(s, reply, cb, again);
      && found.state.log.calls == s.log.calls && !found.state.inCallback
      && CallFor(found.cb, Some(reply)) == if left.Some? then CallFor(left.value, Some(reply)) else OwnCall(s, reply, again)
  {
    hide GetSubscribeCallback, HasEntry, WellFormed, MessageOf, MonitorOf;
    if s.replies == [] && s.subscribed {
      PushPicksOwner(s, reply, cb, again);
    }
  }

  lemma {:induction false} PushPicksOwner(s: State, reply: Reply, cb: Callback, again: set<int>)
    requires s.subscribed && s.replies == [] && GetSubscribeCallback(s, reply, cb).Chosen?
    ensures var found, left := GetSubscribeCallback(s, reply, cb), Leftover(s, reply, cb, again);
      && found.state.log.calls == s.log.calls && found.state.inCallback == s.inCallback
      && CallFor(found.cb, Some(reply)) == if left.Some? then CallFor(left.value, Some(reply)) else OwnCall(s, reply, again)
  {
    hide Pushed, HasEntry, WellFormed, MessageOf, MonitorOf;
    if reply.Array? {
      PushedView(s, MessageOf(reply));
    }
  }

  /**
   The exact condition for one reply: the run that is logged is that of the callback it is meant for, or
   none, if and only if the guard holds.
   */
  lemma {:induction false} RoutedToOwnIff(s: State, reply: Reply, cb: Callback, again: set<int>)
    requires Routes(s, reply, cb) && !s.inCallback
    ensures var found := Route(s, reply, cb);
      var r := RunCallback(found.state, found.cb, Some(reply));
      r.log.calls == s.log.calls + OwnCall(s, reply, again) <==> Guard(s, reply, cb, again)
  {
    hide RunCallback, Owner, Leftover;
    var found := Route(s, reply, cb);
    PicksOwner(s, reply, cb, again);
    RunGrows(found.state, found.cb, Some(reply));
    PartsEqual(s.log.calls, s.log.calls, CallFor(found.cb, Some(reply)), OwnCall(s, reply, again));
  }

  /** What the guard is without MONITOR: the reply has an owner, or the variable still holds NULL. */
  lemma {:induction false} GuardInSubscribedMode(s: State, reply: Reply, cb: Callback)
    requires s.subscribed && s.replies == [] && !s.monitoring && (reply.Array? ==> WellFormed(reply))
    ensures Guard(s, reply, cb, {}) <==>
      (if reply.Array? then HasEntry(s, MessageOf(reply)) else s.invalid != []) || cb.fn == None
  {
    hide WellFormed, MessageOf, HasEntry;
  }

  /** What it is for the lines of MONITOR: the variable holds MONITOR's callback. */
  lemma {:induction false} GuardInMonitorMode(s: State, reply: Reply, cb: Callback)
    requires s.monitoring && !s.subscribed && s.replies == []
    ensures var own := MonitorOf(s.log.issued);
      Guard(s, reply, cb, {}) <==> cb.fn == own.fn && (own.fn.Some? ==> cb.data == own.data)
  {
    hide MonitorOf;
  }

  // ----- Runs that carry a reply -----

  /** The runs that carry a reply, teardown's NULL replies left out. */
  function Answers(calls: seq<Call>): seq<Call> {
    if calls == [] then [] else (if calls[0].reply.Some? then [calls[0]] else []) + Answers(calls[1..])
  }

  lemma {:induction false} AnswersAppend(a: seq<Call>, b: seq<Call>)
    ensures Answers(a + b) == Answers(a) + Answers(b)
  {
    if a == [] {
      assert a + b == b;
    } else {
      assert (a + b)[1..] == a[1..] + b;
      AnswersAppend(a[1..], b);
    }
  }

  /** What has been added to a log of calls. */
  function Since(before: seq<Call>, after: seq<Call>): seq<Call> {
    if before <= after then after[|before|..] else after
  }

  /** A log of calls has grown, and these runs with a reply are new. */
  predicate Adding(before: seq<Call>, after: seq<Call>, answers: seq<Call>) {
    before <= after && Answers(Since(before, after)) == answers
  }

  lemma {:induction false} AddingNone(calls: seq<Call>)
    ensures Adding(calls, calls, [])
  {
    assert calls[|calls|..] == [];
  }

  lemma {:induction false} AddingThen(a: seq<Call>, b: seq<Call>, c: seq<Call>, x: seq<Call>, y: seq<Call>)
    requires Adding(a, b, x) && Adding(b, c, y)
    ensures Adding(a, c, x + y) && (x == [] ==> Adding(a, c, y)) && (y == [] ==> Adding(a, c, x))
  {
    hide Answers;
    assert x + [] == x && [] + y == y;
    assert c[|a|..] == b[|a|..] + c[|b|..];
    AnswersAppend(b[|a|..], c[|b|..]);
  }

  /** One run. */
  lemma {:induction false} AddingRun(calls: seq<Call>, cb: Callback, reply: Option<Reply>)
    ensures Adding(calls, calls + CallFor(cb, reply), if reply.Some? then CallFor(cb, reply) else [])
  {
    var more := CallFor(cb, reply);
    assert (calls + more)[|calls|..] == more;
    if more != [] {
      assert more[1..] == [];
    }
  }

  /** The runs of a teardown. */
  lemma {:induction false} AddingNulls(calls: seq<Call>, cbs: seq<Callback>)
    ensures Adding(calls, calls + NullCalls(cbs), [])
    decreases |cbs|
  {
    hide Adding, CallFor;
    if cbs == [] {
      AddingNone(calls);
      assert calls + NullCalls(cbs) == calls;
    } else {
      var first := CallFor(cbs[0], None);
      AddingRun(calls, cbs[0], None);
      AddingNulls(calls + first, cbs[1..]);
      AddingThen(calls, calls + first, calls + first + NullCalls(cbs[1..]), [], []);
      assert calls + first + NullCalls(cbs[1..]) == calls + NullCalls(cbs);
    }
  }

  lemma {:induction false} TeardownAdds(s: State, walk: Walk)
    requires Walks(walk) && Inv(s) && Closing(s) && !s.inCallback && !s.freed && (Plain(s) ==> CaughtUp(s))
    ensures Adding(s.log.calls, FreeContext(s, walk).log.calls, [])
  {
    hide Inv, Plain, FreeContext, NullCalls, Owed, Adding;
    Teardown(s, walk);
    AddingNulls(s.log.calls, Owed(s, walk));
  }

  lemma {:induction false} DisconnectNowAdds(s: State, walk: Walk)
    requires Walks(walk) && Inv(s) && !s.inCallback && !s.freed && (Plain(s) ==> CaughtUp(s))
    requires !s.err ==> s.replies == [] && Closing(s)
    ensures Adding(s.log.calls, DisconnectNow(s, walk).log.calls, [])
  {
    hide Inv, Plain, FreeContext, Adding;
    var s1 := if s.err then s.(disconnecting := true) else s;
    SameViewKeeps(s, s1);
    SamePlain(s, s1);
    AddingNone(s.log.calls);
    if !s1.noAutoFree {
      TeardownAdds(s1, walk);
    }
  }

  // ----- Whole reads -----

  /** For each reply of a read, the run that its own callback is due. */
  function OwnCalls(s: State, incoming: seq<Reply>, cb: Callback, again: set<int>, walk: Walk): seq<seq<Call>>
    requires Walks(walk) && !s.freed && !s.inCallback
    decreases |incoming|
  {
    if incoming == [] then []
    else
      var s0 := Received(s, incoming[0]);
      var own := if Routes(s0, incoming[0], cb) then OwnCall(s0, incoming[0], again) else [];
      var t := OneReply(s0, incoming[0], cb, walk);
      [own] + if t.Over? then [] else OwnCalls(t.state, incoming[1..], t.cb, again, walk)
  }

  /** For each reply of a read, the runs with a reply that were logged for it. */
  function RanCalls(s: State, incoming: seq<Reply>, cb: Callback, walk: Walk): seq<seq<Call>>
    requires Walks(walk) && !s.freed && !s.inCallback
    decreases |incoming|
  {
    if incoming == [] then []
    else
      var t := OneReply(Received(s, incoming[0]), incoming[0], cb, walk);
      [Answers(Since(s.log.calls, t.state.log.calls))] +
      if t.Over? then [] else RanCalls(t.state, incoming[1..], t.cb, walk)
  }

  /** Every reply that is routed meets the guard. */
  predicate Guarded(s: State, incoming: seq<Reply>, cb: Callback, again: set<int>, walk: Walk)
    requires Walks(walk) && !s.freed && !s.inCallback
    decreases |incoming|
  {
    incoming == [] ||
    (var s0 := Received(s, incoming[0]);
     (Routes(s0, incoming[0], cb) ==> Guard(s0, incoming[0], cb, again)) &&
     (var t := OneReply(s0, incoming[0], cb, walk); t.Next? ==> Guarded(t.state, incoming[1..], t.cb, again, walk)))
  }

  function Flat(calls: seq<seq<Call>>): seq<Call> {
    if calls == [] then [] else calls[0] + Flat(calls[1..])
  }

  lemma {:induction false} FlatAppend(a: seq<seq<Call>>, b: seq<seq<Call>>)
    ensures Flat(a + b) == Flat(a) + Flat(b)
  {
    if a == [] {
      assert a + b == b;
    } else {
      assert (a + b)[1..] == a[1..] + b;
      FlatAppend(a[1..], b);
    }
  }

  /** The answer one reply adds: the run of the callback it was routed to. */
  function Added(s: State, reply: Reply, cb: Callback): seq<Call> {
    if Routes(s, reply, cb) then CallFor(Route(s, reply, cb).cb, Some(reply)) else []
  }

  lemma {:induction false} RoutedAdds(s: State, reply: Reply, cb: Callback)
    requires Routes(s, reply, cb) && !s.inCallback
    ensures var found := Route(s, reply, cb);
      Adding(s.log.calls, RunCallback(found.state, found.cb, Some(reply)).log.calls, Added(s, reply, cb))
  {
    hide RunCallback, Route, Adding, CallFor;
    var found := Route(s, reply, cb);
    PicksOwner(s, reply, cb, {});
    RunGrows(found.state, found.cb, Some(reply));
    AddingRun(s.log.calls, found.cb, Some(reply));
  }

  /** A reply that is routed. */
  lemma {:induction false} DeliveredAdds(s: State, reply: Reply, cb: Callback, walk: Walk)
    requires Walks(walk) && Inv(s) && !s.inCallback && !s.freed && Routes(s, reply, cb)
    requires Plain(s) ==> Due(s) == Some(reply) && |s.log.received| == |s.log.delivered| + 1
    ensures var found := Route(s, reply, cb);
      && !found.state.freed && !found.state.inCallback
      && Adding(s.log.calls, Deliver(found.state, found.cb, reply, walk).state.log.calls, Added(s, reply, cb))
  {
    hide Inv, Plain, FreeContext, RunCallback, Route, Added, Due, Adding;
    var found := Route(s, reply, cb);
    RoutedRuns(s, reply, cb);
    RoutedAdds(s, reply, cb);
    RunQueue(found.state, found.cb, Some(reply));
    var r := RunCallback(found.state, found.cb, Some(reply));
    if found.cb.fn != None && r.freeing {
      TeardownAdds(r, walk);
      AddingThen(s.log.calls, r.log.calls, FreeContext(r, walk).log.calls, Added(s, reply, cb), []);
    }
  }

  lemma {:induction false} OneReplyAdds(s: State, reply: Reply, cb: Callback, walk: Walk)
    requires Walks(walk) && Reading(s)
    ensures var s0 := Received(s, reply);
      Adding(s.log.calls, OneReply(s0, reply, cb, walk).state.log.calls, Added(s0, reply, cb))
  {
    hide Inv, Plain, DisconnectNow, Deliver, Route, Adding, Due, CallFor;
    ReceivedKeeps(s, reply);
    var s0 := Received(s, reply);
    SamePlain(s, s0);
    AddingNone(s.log.calls);
    if s0.replies == [] && reply.Error? {
      FailedAdds(s0, walk);
    } else if Routes(s0, reply, cb) {
      DeliveredAdds(s0, reply, cb, walk);
    }
  }

  /** Giving up a connection. */
  lemma {:induction false} FailedAdds(s: State, walk: Walk)
    requires Walks(walk) && Inv(s) && !s.inCallback && !s.freed && (Plain(s) ==> CaughtUp(s))
    ensures Adding(s.log.calls, DisconnectNow(s.(err := true), walk).log.calls, [])
  {
    hide Inv, Plain, DisconnectNow, Adding;
    SameViewKeeps(s, s.(err := true));
    SamePlain(s, s.(err := true));
    DisconnectNowAdds(s.(err := true), walk);
  }

  lemma {:induction false} IdleAdds(s: State, bad: bool, cb: Callback, walk: Walk)
    requires Walks(walk) && Reading(s)
    ensures Adding(s.log.calls, Idle(s, bad, cb, walk).log.calls, [])
  {
    hide Inv, Plain, DisconnectNow, Adding;
    AddingNone(s.log.calls);
    if bad {
      FailedAdds(s, walk);
    } else if s.disconnecting && s.obuf == [] && s.replies == [] {
      DisconnectNowAdds(s, walk);
    }
  }

  /** The answer of one turn against what the reply's own callback is due. */
  lemma {:induction false} TurnCompared(s: State, reply: Reply, cb: Callback, again: set<int>)
    requires !s.inCallback
    ensures var own := if Routes(s, reply, cb) then OwnCall(s, reply, again) else [];
      Added(s, reply, cb) == own <==> (Routes(s, reply, cb) ==> Guard(s, reply, cb, again))
  {
    hide Owner, Route, Leftover;
    if Routes(s, reply, cb) {
      PicksOwner(s, reply, cb, again);
    }
  }

  /** Lists that begin alike in length are equal if and only if both parts are. */
  lemma {:induction false} PartsEqual<T>(a: seq<T>, b: seq<T>, x: seq<T>, y: seq<T>)
    requires |a| == |b|
    ensures a + x == b + y <==> a == b && x == y
  {
    if a + x == b + y {
      assert a == (a + x)[..|a|] && b == (b + y)[..|b|];
      assert x == (a + x)[|a|..] && y == (b + y)[|b|..];
    }
  }

  /** What was logged for the replies of a read is all that a read adds, and is theirs exactly when guarded. */
  lemma {:induction false} ReadCompared(s: State, incoming: seq<Reply>, bad: bool, cb: Callback, again: set<int>, walk: Walk)
    requires Walks(walk) && Reading(s)
    ensures var ran, own := RanCalls(s, incoming, cb, walk), OwnCalls(s, incoming, cb, again, walk);
      && Adding(s.log.calls, ProcessCallbacks(s, incoming, bad, cb, walk).log.calls, Flat(ran))
      && |ran| == |own| && (ran == own <==> Guarded(s, incoming, cb, again, walk))
    decreases |incoming|
  {
    hide Inv, Plain, OneReply, Idle, Answers, Added, Routes, OwnCall, Guard;
    if incoming == [] {
      IdleAdds(s, bad, cb, walk);
    } else {
      var reply, s0 := incoming[0], Received(s, incoming[0]);
      OneReplyKeeps(s, reply, cb, walk);
      OneReplyAdds(s, reply, cb, walk);
      TurnCompared(s0, reply, cb, again);
      var t := OneReply(s0, reply, cb, walk);
      var first := Answers(Since(s.log.calls, t.state.log.calls));
      var own := if Routes(s0, reply, cb) then OwnCall(s0, reply, again) else [];
      FlatOne(first);
      if t.Next? {
        ReadCompared(t.state, incoming[1..], bad, t.cb, again, walk);
        ReadJoined(s, t, first, own, incoming[1..], bad, again, walk);
      } else {
        assert [first] + [] == [first] && [own] + [] == [own];
      }
    }
  }

  lemma {:induction false} FlatOne(calls: seq<Call>)
    ensures Flat([calls]) == calls && forall rest :: Flat([calls] + rest) == calls + Flat(rest)
  {
    assert [calls][1..] == [] && calls + [] == calls;
    forall rest: seq<seq<Call>>
      ensures Flat([calls] + rest) == calls + Flat(rest)
    {
      assert ([calls] + rest)[1..] == rest;
    }
  }

  /** One turn, and the rest of the read. */
  lemma {:induction false} ReadJoined(s: State, t: Turn, first: seq<Call>, own: seq<Call>, later: seq<Reply>, bad: bool,
                                      again: set<int>, walk: Walk)
    requires Walks(walk) && t.Next? && !t.state.freed && !t.state.inCallback
    requires Adding(s.log.calls, t.state.log.calls, first)
    requires Adding(t.state.log.calls, ProcessCallbacks(t.state, later, bad, t.cb, walk).log.calls,
                    Flat(RanCalls(t.state, later, t.cb, walk)))
    ensures var ran, owed := RanCalls(t.state, later, t.cb, walk), OwnCalls(t.state, later, t.cb, again, walk);
      && Adding(s.log.calls, ProcessCallbacks(t.state, later, bad, t.cb, walk).log.calls, Flat([first] + ran))
      && ([first] + ran == [own] + owed <==> first == own && ran == owed)
  {
    hide Adding, ProcessCallbacks, RanCalls, OwnCalls;
    var ran, owed := RanCalls(t.state, later, t.cb, walk), OwnCalls(t.state, later, t.cb, again, walk);
    FlatOne(first);
    AddingThen(s.log.calls, t.state.log.calls, ProcessCallbacks(t.state, later, bad, t.cb, walk).log.calls, first, Flat(ran));
    PartsEqual([first], [own], ran, owed);
  }

  /** The exact condition for a read: every reply ran the callback it was meant for and no other if and only if every guard held. */
  lemma {:induction false} ReadRoutedIff(s: State, incoming: seq<Reply>, bad: bool, cb: Callback, again: set<int>, walk: Walk)
    requires Walks(walk) && Reading(s)
    ensures RanCalls(s, incoming, cb, walk) == OwnCalls(s, incoming, cb, again, walk) <==> Guarded(s, incoming, cb, again, walk)
    ensures Adding(s.log.calls, ProcessCallbacks(s, incoming, bad, cb, walk).log.calls, Flat(RanCalls(s, incoming, cb, walk)))
  {
    hide Inv, Plain, ProcessCallbacks, RanCalls, OwnCalls, Guarded, Adding;
    ReadCompared(s, incoming, bad, cb, again, walk);
  }

  // ----- Whole runs -----

  /** The replies an event has processed, if any, start out with this state. */
  predicate Reads(s: State, e: Event, walk: Walk)
    requires Walks(walk) && !s.freed && !s.inCallback
  {
    && e.ReadReady? && e.input.Replies?
    && var s1 := HandleConnect(s, e.connecting, walk); s1.connected && !s1.err
  }

  /** The read ends in monitor mode: the callback variable is put back into the queue. */
  predicate PutsBack(s: State, incoming: seq<Reply>, bad: bool, cb: Callback, walk: Walk)
    requires Walks(walk) && !s.freed && !s.inCallback
    decreases |incoming|
  {
    if incoming == [] then !bad && !(s.disconnecting && s.obuf == [] && s.replies == []) && s.monitoring
    else
      var t := OneReply(Received(s, incoming[0]), incoming[0], cb, walk);
      t.Next? && PutsBack(t.state, incoming[1..], bad, t.cb, walk)
  }

  /** The places in the queue, counted from the first entry ever, of what the loop has put back. */
  function AgainAfter(s: State, e: Event, again: set<int>, walk: Walk): set<int>
    requires Walks(walk) && !s.freed && !s.inCallback
  {
    if Reads(s, e, walk) && PutsBack(HandleConnect(s, e.connecting, walk), e.input.replies, e.input.bad, NULL_CALLBACK, walk) then
      var r := Handle(s, e, walk); again + {|r.log.delivered| + |r.replies| - 1}
    else again
  }

  function OwnEvent(s: State, e: Event, again: set<int>, walk: Walk): seq<seq<Call>>
    requires Walks(walk) && !s.freed && !s.inCallback
  {
    if Reads(s, e, walk) then OwnCalls(HandleConnect(s, e.connecting, walk), e.input.replies, NULL_CALLBACK, again, walk)
    else []
  }

  function RanEvent(s: State, e: Event, walk: Walk): seq<seq<Call>>
    requires Walks(walk) && !s.freed && !s.inCallback
  {
    if Reads(s, e, walk) then RanCalls(HandleConnect(s, e.connecting, walk), e.input.replies, NULL_CALLBACK, walk) else []
  }

  predicate GuardedEvent(s: State, e: Event, again: set<int>, walk: Walk)
    requires Walks(walk) && !s.freed && !s.inCallback
  {
    Reads(s, e, walk) ==> Guarded(HandleConnect(s, e.connecting, walk), e.input.replies, NULL_CALLBACK, again, walk)
  }

  /** For each reply of a run, the run that its own callback is due. */
  function OwnRun(s: State, events: seq<Event>, again: set<int>, walk: Walk): seq<seq<Call>>
    requires Walks(walk) && !s.inCallback
    decreases |events|
  {
    if events == [] || Ended(s) then []
    else
      OwnEvent(s, events[0], again, walk) +
      OwnRun(Handle(s, events[0], walk), events[1..], AgainAfter(s, events[0], again, walk), walk)
  }

  /** For each reply of a run, the runs with a reply that were logged for it. */
  function RanRun(s: State, events: seq<Event>, walk: Walk): seq<seq<Call>>
    requires Walks(walk) && !s.inCallback
    decreases |events|
  {
    if events == [] || Ended(s) then []
    else RanEvent(s, events[0], walk) + RanRun(Handle(s, events[0], walk), events[1..], walk)
  }

  predicate GuardedRun(s: State, events: seq<Event>, again: set<int>, walk: Walk)
    requires Walks(walk) && !s.inCallback
    decreases |events|
  {
    events == [] || Ended(s) ||
    (GuardedEvent(s, events[0], again, walk) &&
     GuardedRun(Handle(s, events[0], walk), events[1..], AgainAfter(s, events[0], again, walk), walk))
  }

  lemma {:induction false} DrainedAdds(s: State, turns: nat)
    requires !s.inCallback
    ensures Adding(s.log.calls, Drained(s, turns).state.log.calls, [])
    decreases turns
  {
    hide Adding, RunCallback;
    AddingNone(s.log.calls);
    if s.replies != [] && turns > 0 {
      var r := DrainTurn(s);
      RunGrows(Shifted(s, None), s.replies[0], None);
      AddingRun(s.log.calls, s.replies[0], None);
      DrainedAdds(r, turns - 1);
      AddingThen(s.log.calls, r.log.calls, Drained(r, turns - 1).state.log.calls, [], []);
    }
  }

  lemma {:induction false} FailureAdds(s: State, walk: Walk)
    requires Walks(walk) && Settled(s) && !Ended(s)
    ensures Adding(s.log.calls, DisconnectNow(s.(err := true), walk).log.calls, [])
  {
    hide Inv, Plain, DisconnectNow, Adding;
    FailedAdds(s, walk);
  }

  lemma {:induction false} ConnectAdds(s: State, connecting: Connecting, walk: Walk)
    requires Walks(walk) && Settled(s) && !Ended(s)
    ensures Adding(s.log.calls, HandleConnect(s, connecting, walk).log.calls, [])
  {
    hide Settled, DisconnectNow, Adding;
    AddingNone(s.log.calls);
    FailureAdds(s, walk);
  }

  lemma {:induction false} ReadEventCompared(s: State, connecting: Connecting, input: Input, again: set<int>, walk: Walk)
    requires Walks(walk) && Settled(s) && !s.inCallback && !Ended(s)
    ensures var e := ReadReady(connecting, input);
      && |RanEvent(s, e, walk)| == |OwnEvent(s, e, again, walk)|
      && (RanEvent(s, e, walk) == OwnEvent(s, e, again, walk) <==> GuardedEvent(s, e, again, walk))
      && Adding(s.log.calls, HandleRead(s, connecting, input, walk).log.calls, Flat(RanEvent(s, e, walk)))
  {
    hide Settled, DisconnectNow, HandleConnect, ProcessCallbacks, RanCalls, OwnCalls, Guarded, Adding;
    ConnectSettles(s, connecting, walk);
    ConnectAdds(s, connecting, walk);
    var s1 := HandleConnect(s, connecting, walk);
    if s1.connected {
      if s1.err || input.ReadFails? {
        FailureAdds(s1, walk);
        AddingThen(s.log.calls, s1.log.calls, DisconnectNow(s1.(err := true), walk).log.calls, [], []);
      } else {
        SettledReads(s1);
        ReadCompared(s1, input.replies, input.bad, NULL_CALLBACK, again, walk);
        var ran := RanCalls(s1, input.replies, NULL_CALLBACK, walk);
        var r := ProcessCallbacks(s1, input.replies, input.bad, NULL_CALLBACK, walk);
        AddingThen(s.log.calls, s1.log.calls, r.log.calls, [], Flat(ran));
      }
    }
  }

  lemma {:induction false} WriteAdds(s: State, connecting: Connecting, output: Output, walk: Walk)
    requires Walks(walk) && Settled(s) && !s.inCallback && !Ended(s)
    ensures Adding(s.log.calls, HandleWrite(s, connecting, output, walk).log.calls, [])
  {
    hide Settled, DisconnectNow, HandleConnect, Adding;
    ConnectSettles(s, connecting, walk);
    ConnectAdds(s, connecting, walk);
    var s1 := HandleConnect(s, connecting, walk);
    if s1.connected && (s1.err || output.WriteFails?) {
      FailureAdds(s1, walk);
      AddingThen(s.log.calls, s1.log.calls, DisconnectNow(s1.(err := true), walk).log.calls, [], []);
    }
  }

  lemma {:induction false} TimeoutAdds(s: State, turns: nat, walk: Walk)
    requires Walks(walk) && Settled(s) && !s.inCallback && !Ended(s)
    ensures Adding(s.log.calls, HandleTimeout(s, turns, walk).log.calls, [])
  {
    hide Inv, Plain, DisconnectNow, Drained, Adding;
    AddingNone(s.log.calls);
    var e := s.(err := true);
    SameViewKeeps(s, e);
    SamePlain(s, e);
    DrainKeeps(e, turns);
    DrainedAdds(e, turns);
    var d := Drained(e, turns);
    if !IdleTimeout(s) && d.Emptied? {
      DisconnectNowAdds(d.state, walk);
      AddingThen(s.log.calls, d.state.log.calls, DisconnectNow(d.state, walk).log.calls, [], []);
    }
  }

  lemma {:induction false} UserAdds(s: State, fn: Option<int>, data: int, argv: Argv, walk: Walk)
    requires Walks(walk) && Settled(s) && !s.inCallback && !Ended(s)
    ensures Adding(s.log.calls, Submit(s, fn, data, argv).log.calls, [])
    ensures Adding(s.log.calls, Free(s, walk).log.calls, []) && Adding(s.log.calls, Disconnect(s, walk).log.calls, [])
  {
    hide Inv, Plain, DisconnectNow, FreeContext, Submit, Adding;
    AddingNone(s.log.calls);
    SubmitGrows(s, fn, data, argv);
    var f, d := s.(freeing := true), s.(disconnecting := true, noAutoFree := false);
    SameViewKeeps(s, f);
    SamePlain(s, f);
    TeardownAdds(f, walk);
    SameViewKeeps(s, d);
    SamePlain(s, d);
    if d.replies == [] {
      DisconnectNowAdds(d, walk);
    }
  }

  lemma {:induction false} EventCompared(s: State, e: Event, again: set<int>, walk: Walk)
    requires Walks(walk) && Settled(s) && !s.inCallback && !Ended(s)
    ensures |RanEvent(s, e, walk)| == |OwnEvent(s, e, again, walk)|
    ensures RanEvent(s, e, walk) == OwnEvent(s, e, again, walk) <==> GuardedEvent(s, e, again, walk)
    ensures Adding(s.log.calls, Handle(s, e, walk).log.calls, Flat(RanEvent(s, e, walk)))
  {
    hide Settled, HandleRead, HandleWrite, HandleTimeout, Submit, Free, Disconnect, Adding, HandleConnect;
    match e {
      case ReadReady(connecting, input) => ReadEventCompared(s, connecting, input, again, walk);
      case WriteReady(connecting, output) => WriteAdds(s, connecting, output, walk);
      case Timeout(turns) => TimeoutAdds(s, turns, walk);
      case UserCommand(fn, data, argv) => UserAdds(s, fn, data, argv, walk);
      case UserFree => UserAdds(s, None, 0, [], walk);
      case UserDisconnect => UserAdds(s, None, 0, [], walk);
    }
  }

  lemma {:induction false} RunCompared(s: State, events: seq<Event>, again: set<int>, walk: Walk)
    requires Walks(walk) && Settled(s) && !s.inCallback
    ensures var ran, own := RanRun(s, events, walk), OwnRun(s, events, again, walk);
      && |ran| == |own| && (ran == own <==> GuardedRun(s, events, again, walk))
      && Adding(s.log.calls, Run(s, events, walk).log.calls, Flat(ran))
    decreases |events|
  {
    hide Settled, Handle, Adding, OwnEvent, RanEvent, GuardedEvent, AgainAfter, Ended;
    if events == [] || Ended(s) {
      AddingNone(s.log.calls);
    } else {
      assert !Ended(s) && !s.freed by { Alive(s); }
      var e, s1 := events[0], Handle(s, events[0], walk);
      EventCompared(s, e, again, walk);
      HandleSettles(s, e, walk);
      var next := AgainAfter(s, e, again, walk);
      RunCompared(s1, events[1..], next, walk);
      var ran, own := RanRun(s1, events[1..], walk), OwnRun(s1, events[1..], next, walk);
      PartsEqual(RanEvent(s, e, walk), OwnEvent(s, e, again, walk), ran, own);
      FlatAppend(RanEvent(s, e, walk), ran);
      AddingThen(s.log.calls, s1.log.calls, Run(s1, events[1..], walk).log.calls, Flat(RanEvent(s, e, walk)), Flat(ran));
    }
  }

  lemma {:induction false} Alive(s: State)
    requires !Ended(s)
    ensures !s.freed
  {
  }

  /**
   Over whole runs, with SUBSCRIBE and MONITOR: each reply ran the callback it was meant for, once, and
   no other, if and only if every reply met its guard; and these are all the runs with a reply.
   */
  lemma {:induction false} RunRoutedIff(noAutoFree: bool, plan: Plan, events: seq<Event>, walk: Walk)
    requires Walks(walk)
    ensures var s := Start(noAutoFree, plan);
      && (RanRun(s, events, walk) == OwnRun(s, events, {}, walk) <==> GuardedRun(s, events, {}, walk))
      && Answers(Run(s, events, walk).log.calls) == Flat(RanRun(s, events, walk))
  {
    hide Settled, Run, OwnRun, RanRun, GuardedRun, Answers;
    var s := Start(noAutoFree, plan);
    StartSettled(noAutoFree, plan);
    RunCompared(s, events, {}, walk);
    var calls := Run(s, events, walk).log.calls;
    assert calls[0..] == calls;
  }
}
