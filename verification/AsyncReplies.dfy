/**
 The replies that a run takes from its reads: the first ones, in order, and all of them as long as the
 connection has not failed and the context has not ended.
 */
module AsyncReplies {
  import opened ByteStrings
  import opened RespGrammar
  import opened PubSub
  import opened AsyncProtocol
  import opened AsyncSafety
  import opened AsyncRuns
  import Commands

  /** The replies that the reads of these events bring. */
  function Incoming(events: seq<Event>): seq<Reply> {
    if events == [] then [] else Brought(events[0]) + Incoming(events[1..])
  }

  function Brought(e: Event): seq<Reply> {
    if e.ReadReady? && e.input.Replies? then e.input.replies else []
  }

  lemma {:induction false} IncomingSnoc(events: seq<Event>, e: Event)
    ensures Incoming(events + [e]) == Incoming(events) + Brought(e)
  {
    if events == [] {
      assert events + [e] == [e] && [e][1..] == [];
    } else {
      assert (events + [e])[1..] == events[1..] + [e];
      IncomingSnoc(events[1..], e);
    }
  }

  /** Reads happen on an established connection: before that nothing is taken from the socket. */
  predicate Connects(events: seq<Event>) {
    forall i :: 0 <= i < |events| && events[i].ReadReady? ==> events[i].connecting.Established?
  }

  /** A context that will not look at another reply. */
  predicate Deaf(s: State) {
    s.err || Ended(s)
  }

  lemma {:induction false} DisconnectReceives(s: State, walk: Walk)
    requires Walks(walk) && !s.freed && !s.inCallback && (!s.err ==> s.replies == [] && Closing(s))
    ensures var r := DisconnectNow(s, walk); r.log.received == s.log.received && (s.err ==> r.err)
  {
    hide DrainReplies, DrainInvalid, Farewell;
  }

  lemma {:induction false} OneReplyReceives(s: State, reply: Reply, cb: Callback, walk: Walk)
    requires Walks(walk) && Reading(s)
    ensures var t := OneReply(Received(s, reply), reply, cb, walk);
      t.state.log.received == s.log.received + [reply] && (t.Over? ==> Deaf(t.state))
  {
    hide Inv, Plain, DisconnectNow, Deliver, Route;
    var s0 := Received(s, reply);
    if s0.replies == [] && reply.Error? {
      DisconnectReceives(s0.(err := true), walk);
    } else if s0.replies != [] || s0.subscribed || s0.monitoring {
      var found := Route(s0, reply, cb);
      if found.Chosen? {
        DeliverReceives(found.state, found.cb, reply, walk);
      }
    }
  }

  lemma {:induction false} DeliverReceives(s: State, cb: Callback, reply: Reply, walk: Walk)
    requires Walks(walk) && !s.freed && !s.inCallback
    ensures var t := Deliver(s, cb, reply, walk); t.state.log.received == s.log.received && (t.Over? ==> t.state.freed)
  {
    hide FreeContext, RunCallback;
    RunQueue(s, cb, Some(reply));
  }

  /** A read takes the replies in order, and all of them unless the context ends or fails. */
  lemma {:induction false} ProcessReceives(s: State, incoming: seq<Reply>, bad: bool, cb: Callback, walk: Walk)
    requires Walks(walk) && Reading(s)
    ensures var r := ProcessCallbacks(s, incoming, bad, cb, walk);
      && r.log.received <= s.log.received + incoming
      && (Deaf(r) || r.log.received == s.log.received + incoming)
    decreases |incoming|
  {
    hide Inv, Plain, OneReply, DisconnectNow;
    if incoming == [] {
      assert s.log.received + incoming == s.log.received;
      if bad {
        DisconnectReceives(s.(err := true), walk);
      } else if s.disconnecting && s.obuf == [] && s.replies == [] {
        DisconnectReceives(s, walk);
      }
    } else {
      OneReplyKeeps(s, incoming[0], cb, walk);
      OneReplyReceives(s, incoming[0], cb, walk);
      var t := OneReply(Received(s, incoming[0]), incoming[0], cb, walk);
      assert s.log.received + [incoming[0]] + incoming[1..] == s.log.received + incoming;
      if t.Next? {
        ProcessReceives(t.state, incoming[1..], bad, t.cb, walk);
      }
    }
  }

  lemma {:induction false} ConnectReceives(s: State, connecting: Connecting, walk: Walk)
    requires Walks(walk) && Settled(s) && !Ended(s)
    ensures var r := HandleConnect(s, connecting, walk); r.log.received == s.log.received && (s.err ==> r.err)
    ensures var r := DisconnectNow(s.(err := true), walk); r.log.received == s.log.received && r.err
  {
    hide Inv, Plain, DisconnectNow;
    DisconnectReceives(s.(err := true), walk);
  }

  /** What an event does to the replies received: none more when deaf, else what it brings, or the beginning of that. */
  ghost predicate Takes(s: State, r: State, more: seq<Reply>) {
    if Deaf(s) then r.log.received == s.log.received && Deaf(r)
    else r.log.received <= s.log.received + more && (Deaf(r) || r.log.received == s.log.received + more)
  }

  lemma {:induction false} ReadReceives(s: State, input: Input, walk: Walk)
    requires Walks(walk) && Settled(s) && !s.inCallback && !Ended(s)
    ensures Takes(s, HandleRead(s, Established, input, walk), Brought(ReadReady(Established, input)))
  {
    hide Settled, DisconnectNow, HandleConnect, ProcessCallbacks;
    ConnectSettles(s, Established, walk);
    ConnectReceives(s, Established, walk);
    var s1 := HandleConnect(s, Established, walk);
    assert s1.connected && s1.err == s.err by { Establishes(s, walk); }
    if s1.connected {
      ConnectReceives(s1, Established, walk);
      if !s1.err && input.Replies? {
        SettledReads(s1);
        ProcessReceives(s1, input.replies, input.bad, NULL_CALLBACK, walk);
      }
    }
  }

  lemma {:induction false} Establishes(s: State, walk: Walk)
    requires Walks(walk) && !s.freed && !s.inCallback
    ensures var r := HandleConnect(s, Established, walk); r.connected && r.err == s.err
  {
  }

  lemma {:induction false} WriteReceives(s: State, connecting: Connecting, output: Output, walk: Walk)
    requires Walks(walk) && Settled(s) && !s.inCallback && !Ended(s)
    ensures Takes(s, HandleWrite(s, connecting, output, walk), [])
  {
    hide Settled, DisconnectNow, HandleConnect, Sent, Takes;
    ConnectSettles(s, connecting, walk);
    ConnectReceives(s, connecting, walk);
    var s1 := HandleConnect(s, connecting, walk);
    if s1.connected {
      ConnectReceives(s1, connecting, walk);
      if output.Written? {
        SentReceives(s1, output.count);
      }
    }
    TakesNothing(s, HandleWrite(s, connecting, output, walk));
  }

  lemma {:induction false} TakesNothing(s: State, r: State)
    requires !Ended(s) && r.log.received == s.log.received && (s.err ==> r.err)
    ensures Takes(s, r, [])
  {
    assert s.log.received + [] == s.log.received;
  }

  lemma {:induction false} SentReceives(s: State, count: nat)
    ensures Sent(s, count).log.received == s.log.received && Sent(s, count).err == s.err
  {
  }

  lemma {:induction false} TimeoutReceives(s: State, turns: nat, walk: Walk)
    requires Walks(walk) && !s.freed && !s.inCallback && !Ended(s)
    ensures Takes(s, HandleTimeout(s, turns, walk), [])
  {
    hide DisconnectNow, Drained;
    assert s.log.received + [] == s.log.received;
    var d := Drained(s.(err := true), turns);
    if !IdleTimeout(s) && d.Emptied? {
      DisconnectReceives(d.state, walk);
    }
  }

  lemma {:induction false} UserReceives(s: State, fn: Option<int>, data: int, argv: Argv, walk: Walk)
    requires Walks(walk) && !s.freed && !s.inCallback && !Ended(s)
    ensures Takes(s, Submit(s, fn, data, argv), []) && Takes(s, Free(s, walk), []) && Takes(s, Disconnect(s, walk), [])
  {
    hide Submit, Free, Disconnect;
    assert s.log.received + [] == s.log.received;
    SubmitQueue(s, fn, data, argv);
    FreeReceives(s, walk);
  }

  lemma {:induction false} FreeReceives(s: State, walk: Walk)
    requires Walks(walk) && !s.freed && !s.inCallback && !Ended(s)
    ensures Takes(s, Free(s, walk), []) && Takes(s, Disconnect(s, walk), [])
  {
    hide DisconnectNow, FreeContext;
    assert s.log.received + [] == s.log.received;
    var d := s.(disconnecting := true, noAutoFree := false);
    if d.replies == [] {
      DisconnectReceives(d, walk);
    }
  }

  lemma {:induction false} OthersReceive(s: State, e: Event, walk: Walk)
    requires Walks(walk) && Settled(s) && !s.inCallback && !Ended(s) && !e.ReadReady?
    ensures Takes(s, Handle(s, e, walk), [])
  {
    hide Settled, HandleWrite, HandleTimeout, Submit, Free, Disconnect, Takes;
    match e {
      case WriteReady(connecting, output) => WriteReceives(s, connecting, output, walk);
      case Timeout(turns) => TimeoutReceives(s, turns, walk);
      case UserCommand(fn, data, argv) => UserReceives(s, fn, data, argv, walk);
      case UserFree => UserReceives(s, None, 0, [], walk);
      case UserDisconnect => UserReceives(s, None, 0, [], walk);
    }
  }

  lemma {:induction false} EventReceives(s: State, e: Event, walk: Walk)
    requires Walks(walk) && Settled(s) && !s.inCallback && !Ended(s) && (e.ReadReady? ==> e.connecting.Established?)
    ensures Takes(s, Handle(s, e, walk), Brought(e))
  {
    hide Settled, HandleRead, HandleWrite, HandleTimeout, Takes;
    if e.ReadReady? {
      ReadReceives(s, e.input, walk);
    } else {
      OthersReceive(s, e, walk);
    }
  }

  /** A run receives the first replies its reads bring; all of them, unless it has gone deaf. */
  lemma {:induction false} RunReceives(s: State, events: seq<Event>, walk: Walk)
    requires Walks(walk) && Settled(s) && !s.inCallback && Connects(events)
    ensures Takes(s, Run(s, events, walk), Incoming(events))
    decreases |events|
  {
    hide Settled, Handle;
    assert s.log.received + [] == s.log.received;
    if events != [] && !Ended(s) {
      EventReceives(s, events[0], walk);
      HandleSettles(s, events[0], walk);
      var s1 := Handle(s, events[0], walk);
      RunReceives(s1, events[1..], walk);
      assert s.log.received + (Brought(events[0]) + Incoming(events[1..])) == s.log.received + Brought(events[0]) + Incoming(events[1..]);
    }
  }

  /**
   The k-th reply of all that the reads bring goes to the k-th accepted command, in every run without
   SUBSCRIBE and MONITOR; a callback without a reply gets NULL.
   */
  lemma {:induction false} RepliesInOrder(noAutoFree: bool, plan: Plan, events: seq<Event>, walk: Walk)
    requires Walks(walk) && Connects(events)
    ensures var s := Run(Start(noAutoFree, plan), events, walk);
      && s.log.received <= Incoming(events) && (Deaf(s) || s.log.received == Incoming(events))
      && (Plain(s) ==> |s.log.delivered| <= |IssuedCallbacks(s.log.issued)| && forall k :: 0 <= k < |s.log.delivered| ==>
        s.log.delivered[k].cb == IssuedCallbacks(s.log.issued)[k] &&
        s.log.delivered[k].reply == if k < |s.log.received| then Some(Incoming(events)[k]) else None)
  {
    hide Settled, Run, Incoming, Plain, IssuedCallbacks, Targets;
    var s0 := Start(noAutoFree, plan);
    StartSettled(noAutoFree, plan);
    RunReceives(s0, events, walk);
    var s := Run(s0, events, walk);
    assert [] + Incoming(events) == Incoming(events);
    ExactlyOnceInOrder(noAutoFree, plan, events, walk);
    if Plain(s) {
      TargetsLength(s.log.delivered);
      forall k | 0 <= k < |s.log.delivered|
        ensures s.log.delivered[k].cb == (Targets(s.log.delivered) + s.replies)[k]
      {
        TargetAt(s.log.delivered, k);
      }
    }
  }

  lemma {:induction false} TargetsLength(ds: seq<Delivery>)
    ensures |Targets(ds)| == |ds|
    decreases |ds|
  {
    if ds != [] {
      TargetsLength(ds[..|ds| - 1]);
    }
  }

  lemma {:induction false} TargetAt(ds: seq<Delivery>, k: nat)
    requires k < |ds|
    ensures |Targets(ds)| == |ds| && Targets(ds)[k] == ds[k].cb
    decreases |ds|
  {
    TargetsLength(ds);
    TargetsLength(ds[..|ds| - 1]);
    if k < |ds| - 1 {
      TargetAt(ds[..|ds| - 1], k);
    }
  }
}
