/**
 What a failure leads to: the context takes no more commands, and unless automatic freeing is off it is
 freed, after every callback that still waited for a reply has run once with NULL.
 */
module AsyncFailure {
  import opened ByteStrings
  import opened RespGrammar
  import opened PubSub
  import opened AsyncProtocol
  import opened AsyncSafety
  import opened AsyncRuns
  import AsyncPush

  /** The callbacks that wait: the queue, the doubtful ones, and the entries of both tables in the order of their iterators. */
  ghost function Waiting(s: State, walk: Walk): seq<Callback>
    requires Walks(walk)
  {
    assert Lists(walk(s.channels.Keys), s.channels.Keys) && Lists(walk(s.patterns.Keys), s.patterns.Keys);
    var c, p := walk(s.channels.Keys), walk(s.patterns.Keys);
    s.replies + s.invalid +
    seq(|c|, i requires 0 <= i < |c| => s.channels[c[i]]) + seq(|p|, i requires 0 <= i < |p| => s.patterns[p[i]])
  }

  /** Each of them, if it is a function, runs once with NULL. */
  function NullRuns(cbs: seq<Callback>): seq<Call> {
    if cbs == [] then []
    else (if cbs[0].fn.Some? then [Call(cbs[0].fn.value, cbs[0].data, None)] else []) + NullRuns(cbs[1..])
  }

  /** The connection has been given up. */
  ghost predicate GivenUp(s: State, r: State, walk: Walk)
    requires Walks(walk)
  {
    && r.err && (r.disconnecting || r.freeing) && r.freed == !s.noAutoFree
    && if r.freed then
         && r.replies == [] && r.invalid == [] && r.channels == map[] && r.patterns == map[]
         && r.log.calls == s.log.calls + NullRuns(Waiting(s, walk))
       else
         && r.replies == s.replies && r.invalid == s.invalid && r.channels == s.channels && r.patterns == s.patterns
         && r.log.calls == s.log.calls
  }

  lemma {:induction false} NullRunsAre(cbs: seq<Callback>)
    ensures NullRuns(cbs) == NullCalls(cbs)
    decreases |cbs|
  {
    if cbs != [] {
      NullRunsAre(cbs[1..]);
    }
  }

  lemma {:induction false} EntriesAre(table: Table, names: seq<Bytes>)
    requires forall n :: n in names ==> n in table
    ensures Entries(table, names) == seq(|names|, i requires 0 <= i < |names| => table[names[i]])
    decreases |names|
  {
    if names != [] {
      EntriesAre(table, names[1..]);
    }
  }

  lemma {:induction false} WaitingIsOwed(s: State, walk: Walk)
    requires Walks(walk)
    ensures Waiting(s, walk) == Owed(s, walk)
  {
    assert Lists(walk(s.channels.Keys), s.channels.Keys) && Lists(walk(s.patterns.Keys), s.patterns.Keys);
    EntriesAre(s.channels, walk(s.channels.Keys));
    EntriesAre(s.patterns, walk(s.patterns.Keys));
  }

  /** What a teardown leaves. */
  ghost predicate TornDown(s: State, r: State, walk: Walk)
    requires Walks(walk)
  {
    && r.freed && r.replies == [] && r.invalid == [] && r.channels == map[] && r.patterns == map[]
    && r.log.calls == s.log.calls + NullRuns(Waiting(s, walk))
  }

  lemma {:induction false} TearsDown(s: State, walk: Walk)
    requires Walks(walk) && Inv(s) && Closing(s) && !s.inCallback && !s.freed && (Plain(s) ==> CaughtUp(s))
    ensures TornDown(s, FreeContext(s, walk), walk)
  {
    hide Inv, Plain, DrainReplies, DrainInvalid, Farewell, Waiting;
    Teardown(s, walk);
    WaitingIsOwed(s, walk);
    NullRunsAre(Owed(s, walk));
  }

  lemma {:induction false} GivesUp(s: State, walk: Walk)
    requires Walks(walk) && Inv(s) && !s.inCallback && !s.freed && (Plain(s) ==> CaughtUp(s))
    ensures GivenUp(s, DisconnectNow(s.(err := true), walk), walk)
  {
    hide Inv, Plain, FreeContext, NullRuns;
    var c := s.(err := true, disconnecting := true);
    SameViewKeeps(s, c);
    SamePlain(s, c);
    if !s.noAutoFree {
      TearsDown(c, walk);
      FreedErr(c, walk);
      assert Waiting(c, walk) == Waiting(s, walk);
    }
  }

  lemma {:induction false} FreedErr(s: State, walk: Walk)
    requires Walks(walk) && Closing(s) && !s.freed && !s.inCallback
    ensures FreeContext(s, walk).err == s.err
  {
    hide FreeContext;
  }

  // ----- Events that fail -----

  /** The socket fails, or the bytes that come first are no reply. */
  predicate Breaks(s: State, e: Event) {
    || s.err
    || (e.ReadReady? && (e.input.ReadFails? || (e.input.bad && e.input.replies == [])))
    || (e.WriteReady? && e.output.WriteFails?)
  }

  /** A read or write event that fails: the connection attempt is refused, or the connection breaks. */
  predicate Fails(s: State, e: Event) {
    && (e.ReadReady? || e.WriteReady?)
    && if s.connected then Breaks(s, e) else e.connecting.Refused? || (e.connecting.Established? && Breaks(s, e))
  }

  lemma {:induction false} SettledCaughtUp(s: State)
    requires Settled(s) && !Ended(s)
    ensures Inv(s) && (Plain(s) ==> CaughtUp(s))
  {
    hide Inv, Plain;
  }

  /** On a connected context. */
  lemma {:induction false} BreaksIs(s: State, e: Event, walk: Walk)
    requires Walks(walk) && !s.freed && !s.inCallback && s.connected && Breaks(s, e) && (e.ReadReady? || e.WriteReady?)
    ensures Handle(s, e, walk) == DisconnectNow(s.(err := true), walk)
  {
    hide DisconnectNow, Sent;
  }

  lemma {:induction false} RefusedIs(s: State, e: Event, walk: Walk)
    requires Walks(walk) && !s.freed && !s.inCallback && !s.connected && (e.ReadReady? || e.WriteReady?) && e.connecting.Refused?
    ensures !DisconnectNow(s.(err := true), walk).connected && Handle(s, e, walk) == DisconnectNow(s.(err := true), walk)
  {
    hide DisconnectNow, Sent, ProcessCallbacks;
  }

  lemma {:induction false} EstablishedIs(s: State, e: Event, walk: Walk)
    requires Walks(walk) && !s.freed && !s.inCallback && !s.connected && (e.ReadReady? || e.WriteReady?) && e.connecting.Established?
    ensures Handle(s, e, walk) == Handle(s.(connected := true), e, walk)
  {
    hide DisconnectNow, Sent, ProcessCallbacks;
  }

  /** An event that fails gives the connection up. */
  lemma {:induction false} FailureGivesUp(s: State, e: Event, walk: Walk)
    requires Walks(walk) && Settled(s) && !s.inCallback && !Ended(s) && Fails(s, e)
    ensures GivenUp(s, Handle(s, e, walk), walk)
  {
    hide Settled, Handle, DisconnectNow, GivenUp, Inv, Plain;
    SettledCaughtUp(s);
    GivesUp(s, walk);
    if s.connected {
      BreaksIs(s, e, walk);
    } else if e.connecting.Refused? {
      RefusedIs(s, e, walk);
    } else {
      var c := s.(connected := true);
      EstablishedIs(s, e, walk);
      ConnectedSettled(s, walk);
      SettledCaughtUp(c);
      GivesUp(c, walk);
      BreaksIs(c, e, walk);
      ConnectedAlike(s, c, DisconnectNow(c.(err := true), walk), walk);
    }
  }

  lemma {:induction false} ConnectedSettled(s: State, walk: Walk)
    requires Walks(walk) && Settled(s) && !Ended(s) && !s.connected
    ensures Settled(s.(connected := true))
  {
    hide Settled, DisconnectNow;
    ConnectSettles(s, Established, walk);
  }

  lemma {:induction false} ConnectedAlike(s: State, c: State, r: State, walk: Walk)
    requires Walks(walk) && c == s.(connected := true) && GivenUp(c, r, walk)
    ensures GivenUp(s, r, walk)
  {
    assert Waiting(c, walk) == Waiting(s, walk);
  }

  /** An error reply that no command waits for gives the connection up, too. */
  lemma {:induction false} SpontaneousErrorGivesUp(s: State, reply: Reply, cb: Callback, walk: Walk)
    requires Walks(walk) && Reading(s) && s.replies == [] && reply.Error?
    ensures var t := OneReply(Received(s, reply), reply, cb, walk); t.Over? && GivenUp(Received(s, reply), t.state, walk)
  {
    hide Inv, Plain, DisconnectNow, GivenUp;
    ReceivedKeeps(s, reply);
    var s0 := Received(s, reply);
    SamePlain(s, s0);
    GivesUp(s0, walk);
  }

  /** The state and the callback variable when the reader runs dry, or the end before that. */
  function Processed(s: State, incoming: seq<Reply>, cb: Callback, walk: Walk): (t: Turn)
    requires Walks(walk) && !s.freed && !s.inCallback
    ensures !t.state.inCallback && (t.Next? ==> !t.state.freed)
    decreases |incoming|
  {
    if incoming == [] then Next(s, cb)
    else
      var t := OneReply(Received(s, incoming[0]), incoming[0], cb, walk);
      if t.Over? then t else Processed(t.state, incoming[1..], t.cb, walk)
  }

  /** A read that ends in a protocol error gives the connection up as it is then, if it has come that far. */
  lemma {:induction false} ProtocolErrorGivesUp(s: State, incoming: seq<Reply>, cb: Callback, walk: Walk)
    requires Walks(walk) && Reading(s)
    ensures var t, r := Processed(s, incoming, cb, walk), ProcessCallbacks(s, incoming, true, cb, walk);
      if t.Over? then r == t.state && (r.freed || r.aborted || r.noAutoFree) else GivenUp(t.state, r, walk)
    decreases |incoming|
  {
    hide Inv, Plain, OneReply, DisconnectNow, GivenUp;
    if incoming == [] {
      GivesUp(s, walk);
    } else {
      OneReplyKeeps(s, incoming[0], cb, walk);
      var t := OneReply(Received(s, incoming[0]), incoming[0], cb, walk);
      if t.Over? {
        OverMeansOver(Received(s, incoming[0]), incoming[0], cb, walk);
      } else {
        ProtocolErrorGivesUp(t.state, incoming[1..], t.cb, walk);
      }
    }
  }

  /** A timeout that is not idle fails the connection; when its loop has ended, nothing is queued and the rest is given up. */
  lemma {:induction false} TimeoutGivesUp(s: State, turns: nat, walk: Walk)
    requires Walks(walk) && Settled(s) && !s.inCallback && !Ended(s) && !(s.connected && s.replies == [])
    ensures var r := Handle(s, Timeout(turns), walk);
      && r.err
      && (!r.looping ==>
        && s.log.calls + NullRuns(s.replies) <= r.log.calls
        && exists d: State :: d.replies == [] && GivenUp(d, r, walk))
  {
    hide Inv, Plain, DisconnectNow, Drained, GivenUp, NullRuns;
    var e := s.(err := true);
    SameViewKeeps(s, e);
    SamePlain(s, e);
    DrainKeeps(e, turns);
    match Drained(e, turns)
    case Emptied(d) =>
      GivesUp(d, walk);
      assert d == d.(err := true);
      GivenUpErr(d, DisconnectNow(d, walk), walk);
      QueueRuns(e, e.replies, turns);
    case Going(d) =>
  }

  lemma {:induction false} GivenUpErr(s: State, r: State, walk: Walk)
    requires Walks(walk) && GivenUp(s, r, walk)
    ensures r.err && s.log.calls <= r.log.calls
  {
  }

  /** Callbacks only add to the end of the queue. */
  lemma {:induction false} ActAppends(s: State, a: Action)
    ensures s.replies <= Act(s, a).replies
  {
    hide Registered;
    if a.Issue? {
      RegisteredQueue(s, Callback(a.fn, a.data, 1), a.argv);
    }
  }

  lemma {:induction false} ActsAppend(s: State, actions: seq<Action>)
    ensures s.replies <= Acts(s, actions).replies
    decreases |actions|
  {
    hide Act;
    if actions != [] {
      ActAppends(s, actions[0]);
      ActsAppend(Act(s, actions[0]), actions[1..]);
    }
  }

  lemma {:induction false} TurnRuns(s: State)
    requires s.replies != [] && !s.inCallback
    ensures var r := DrainTurn(s);
      r.log.calls == s.log.calls + CallFor(s.replies[0], None) && s.replies[1..] <= r.replies
  {
    hide Acts, CallFor;
    var cb, m := s.replies[0], Shifted(s, None);
    RunGrows(m, cb, None);
    if cb.fn.Some? {
      ActsAppend(Entering(m, Call(cb.fn.value, cb.data, None)), s.plan(s.runs));
    }
  }

  lemma {:induction false} NullRunsFirst(cbs: seq<Callback>)
    ensures NullRuns(cbs) == if cbs == [] then [] else CallFor(cbs[0], None) + NullRuns(cbs[1..])
  {
  }

  /** A loop that ends has run the callbacks that were queued at its start, in order and each once, before any other. */
  lemma {:induction false} QueueRuns(s: State, queued: seq<Callback>, turns: nat)
    requires !s.inCallback && queued <= s.replies && Drained(s, turns).Emptied?
    ensures s.log.calls + NullRuns(queued) <= Drained(s, turns).state.log.calls
    decreases turns
  {
    hide DrainTurn, NullRuns;
    NullRunsFirst(queued);
    if queued == [] {
      AsyncPush.DrainLogs(s, turns);
      assert s.log.calls + [] == s.log.calls;
    } else {
      var r := DrainTurn(s);
      TurnRuns(s);
      QueueRuns(r, queued[1..], turns - 1);
      assert s.log.calls + CallFor(queued[0], None) + NullRuns(queued[1..])
        == s.log.calls + (CallFor(queued[0], None) + NullRuns(queued[1..]));
    }
  }

  // ----- Runs -----

  /** In every run: a failure that is met gives the connection up, and nothing is accepted after that. */
  lemma {:induction false} RunFails(noAutoFree: bool, plan: Plan, events: seq<Event>, e: Event, later: seq<Event>, walk: Walk)
    requires Walks(walk)
    ensures var s := Run(Start(noAutoFree, plan), events, walk);
      !s.inCallback && (!Ended(s) && Fails(s, e) ==>
        var r := Run(Start(noAutoFree, plan), events + [e], walk);
        && GivenUp(s, r, walk)
        && Run(Start(noAutoFree, plan), events + [e] + later, walk).log.issued == r.log.issued)
  {
    hide Run, Handle, Settled, GivenUp, Fails;
    var start := Start(noAutoFree, plan);
    StartSettled(noAutoFree, plan);
    RunSettles(start, events, walk);
    var s := Run(start, events, walk);
    SettledOutside(s);
    if !Ended(s) && Fails(s, e) {
      FailureGivesUp(s, e, walk);
      OneEvent(start, events, e, walk);
      RunSettles(start, events + [e], walk);
      GivenUpCloses(s, Run(start, events + [e], walk), walk);
      ClosingIsFinal(noAutoFree, plan, events + [e], later, walk);
    }
  }

  lemma {:induction false} SettledOutside(s: State)
    requires Settled(s)
    ensures !s.inCallback
  {
    hide Inv, Plain;
  }

  lemma {:induction false} GivenUpCloses(s: State, r: State, walk: Walk)
    requires Walks(walk) && GivenUp(s, r, walk)
    ensures Closing(r)
  {
  }

  lemma {:induction false} OneEvent(s: State, events: seq<Event>, e: Event, walk: Walk)
    requires Walks(walk) && !s.inCallback && !Run(s, events, walk).inCallback && !Ended(Run(s, events, walk))
    ensures Run(s, events + [e], walk) == Handle(Run(s, events, walk), e, walk)
  {
    hide Handle;
    RunAppend(s, events, [e], walk);
    assert [e][1..] == [];
  }

  /**
   With automatic freeing on and without SUBSCRIBE and MONITOR, a run that ends in a failure has
   answered every command: each callback accepted was delivered once, in order.
   */
  lemma {:induction false} NobodyForgotten(plan: Plan, events: seq<Event>, e: Event, walk: Walk)
    requires Walks(walk)
    ensures var s := Run(Start(false, plan), events, walk);
      var r := Run(Start(false, plan), events + [e], walk);
      !s.inCallback && (!Ended(s) && Fails(s, e) && !s.noAutoFree && Plain(r) ==>
        r.freed && IssuedCallbacks(r.log.issued) == Targets(r.log.delivered))
  {
    hide Run, Fails, Plain, GivenUp, Waiting, NullRuns, Ended;
    RunFails(false, plan, events, e, [], walk);
    ExactlyOnceInOrder(false, plan, events + [e], walk);
    var s, r := Run(Start(false, plan), events, walk), Run(Start(false, plan), events + [e], walk);
    if !Ended(s) && Fails(s, e) && !s.noAutoFree && Plain(r) {
      GivenUpFreed(s, r, walk);
      assert Targets(r.log.delivered) + [] == Targets(r.log.delivered);
    }
  }

  lemma {:induction false} GivenUpFreed(s: State, r: State, walk: Walk)
    requires Walks(walk) && GivenUp(s, r, walk) && !s.noAutoFree
    ensures r.freed && r.replies == []
  {
  }
}
