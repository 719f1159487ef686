/**
 When a context goes away: what becomes of a request to free it, when the loop of a timeout ends,
 and when a disconnect completes.
 */
module AsyncTeardown {
  import opened ByteStrings
  import opened RespGrammar
  import opened PubSub
  import opened AsyncProtocol
  import opened AsyncSafety
  import opened AsyncRuns
  import Commands

  // ----- Requests to free -----

  /** A callback has asked for the context to be freed, and it is still there. */
  predicate Stranded(s: State) {
    s.freeing && !s.freed && !s.looping
  }

  /** A timeout drains the queue, one of the callbacks calls free, and automatic freeing is still off afterwards. */
  ghost predicate Strands(s: State, e: Event)
    requires !s.inCallback
  {
    && e.Timeout? && !IdleTimeout(s)
    && var d := Drained(s.(err := true), e.turns); d.Emptied? && d.state.freeing && d.state.noAutoFree
  }

  lemma {:induction false} DisconnectNowFrees(s: State, walk: Walk)
    requires Walks(walk) && !s.freed && !s.inCallback && (!s.err ==> s.replies == [] && Closing(s))
    ensures var r := DisconnectNow(s, walk);
      && (r.freed <==> !s.noAutoFree) && (!r.freed ==> r.freeing == s.freeing)
  {
    hide FreeContext;
  }

  lemma {:induction false} OneReplyFrees(s: State, reply: Reply, cb: Callback, walk: Walk)
    requires Walks(walk) && Reading(s)
    ensures var t := OneReply(Received(s, reply), reply, cb, walk); t.Over? ==> t.state.freed || !t.state.freeing
  {
    hide Inv, Plain, DisconnectNow, FreeContext, RunCallback, Route;
    var s0 := Received(s, reply);
    if s0.replies == [] && reply.Error? {
      DisconnectNowFrees(s0.(err := true), walk);
    }
  }

  lemma {:induction false} ProcessFrees(s: State, incoming: seq<Reply>, bad: bool, cb: Callback, walk: Walk)
    requires Walks(walk) && Reading(s)
    ensures var r := ProcessCallbacks(s, incoming, bad, cb, walk); r.freed || !r.freeing
    decreases |incoming|
  {
    hide Inv, Plain, OneReply, DisconnectNow;
    if incoming == [] {
      if bad {
        DisconnectNowFrees(s.(err := true), walk);
      } else if s.disconnecting && s.obuf == [] && s.replies == [] {
        DisconnectNowFrees(s, walk);
      }
    } else {
      OneReplyKeeps(s, incoming[0], cb, walk);
      OneReplyFrees(s, incoming[0], cb, walk);
      var t := OneReply(Received(s, incoming[0]), incoming[0], cb, walk);
      if t.Next? {
        ProcessFrees(t.state, incoming[1..], bad, t.cb, walk);
      }
    }
  }

  lemma {:induction false} ConnectFrees(s: State, connecting: Connecting, walk: Walk)
    requires Walks(walk) && Settled(s) && !Ended(s) && !s.freeing
    ensures var r := HandleConnect(s, connecting, walk);
      (r.freed || !r.freeing) && (r.connected ==> Settled(r) && !Ended(r))
  {
    hide Inv, Plain, DisconnectNow;
    ConnectSettles(s, connecting, walk);
    if !s.connected && connecting.Refused? {
      DisconnectNowFrees(s.(err := true), walk);
    }
  }

  lemma {:induction false} ReadFrees(s: State, connecting: Connecting, input: Input, walk: Walk)
    requires Walks(walk) && Settled(s) && !Ended(s) && !s.freeing
    ensures var r := HandleRead(s, connecting, input, walk); r.freed || !r.freeing
  {
    hide Inv, Plain, DisconnectNow, ProcessCallbacks, HandleConnect;
    ConnectFrees(s, connecting, walk);
    var s1 := HandleConnect(s, connecting, walk);
    if s1.connected {
      if s1.err || input.ReadFails? {
        DisconnectNowFrees(s1.(err := true), walk);
      } else {
        SettledReads(s1);
        ProcessFrees(s1, input.replies, input.bad, NULL_CALLBACK, walk);
      }
    }
  }

  lemma {:induction false} WriteFrees(s: State, connecting: Connecting, output: Output, walk: Walk)
    requires Walks(walk) && Settled(s) && !Ended(s) && !s.freeing
    ensures var r := HandleWrite(s, connecting, output, walk); r.freed || !r.freeing
  {
    hide Inv, Plain, DisconnectNow, HandleConnect;
    ConnectFrees(s, connecting, walk);
    var s1 := HandleConnect(s, connecting, walk);
    if s1.connected && (s1.err || output.WriteFails?) {
      DisconnectNowFrees(s1.(err := true), walk);
    }
  }

  lemma {:induction false} OthersFree(s: State, fn: Option<int>, data: int, argv: Argv, walk: Walk)
    requires Walks(walk) && Settled(s) && !Ended(s) && !s.freeing
    ensures !Submit(s, fn, data, argv).freeing && Free(s, walk).freed
    ensures var r := Disconnect(s, walk); r.freed || !r.freeing
  {
    hide Inv, Plain, DisconnectNow, FreeContext, LogOf, SubscribeAll, Classify, Joining, Doubtful, NamesFor;
    var d := s.(disconnecting := true, noAutoFree := false);
    if d.replies == [] {
      DisconnectNowFrees(d, walk);
    }
  }

  /** The exact condition, per event: a context that was not asked to be freed before is stranded by this event only. */
  lemma {:induction false} StrandedIff(s: State, e: Event, walk: Walk)
    requires Walks(walk) && Settled(s) && !s.inCallback && !Ended(s) && !s.freeing
    ensures Stranded(Handle(s, e, walk)) <==> Strands(s, e)
  {
    hide Settled, DisconnectNow, HandleRead, HandleWrite, Submit, Free, Disconnect, Drained;
    match e
    case ReadReady(connecting, input) => ReadFrees(s, connecting, input, walk);
    case WriteReady(connecting, output) => WriteFrees(s, connecting, output, walk);
    case Timeout(turns) =>
      var d := Drained(s.(err := true), turns);
      if !IdleTimeout(s) && d.Emptied? {
        DisconnectNowFrees(d.state, walk);
      }
    case UserCommand(fn, data, argv) => OthersFree(s, fn, data, argv, walk);
    case UserFree => OthersFree(s, None, 0, [], walk);
    case UserDisconnect => OthersFree(s, None, 0, [], walk);
  }

  lemma {:induction false} FreeingRead(s: State, connecting: Connecting, input: Input, walk: Walk)
    requires Walks(walk) && !s.freed && !s.inCallback && s.freeing && s.err
    ensures HandleRead(s, connecting, input, walk).freeing
  {
    hide DisconnectNow, ProcessCallbacks, HandleConnect;
    FreeingConnect(s, connecting, walk);
  }

  lemma {:induction false} FreeingConnect(s: State, connecting: Connecting, walk: Walk)
    requires Walks(walk) && !s.freed && !s.inCallback && s.freeing && s.err
    ensures var r := HandleConnect(s, connecting, walk); r.freeing && (r.connected ==> r.err)
  {
    hide FreeContext;
  }

  lemma {:induction false} FreeingWrite(s: State, connecting: Connecting, output: Output, walk: Walk)
    requires Walks(walk) && !s.freed && !s.inCallback && s.freeing && s.err
    ensures HandleWrite(s, connecting, output, walk).freeing
  {
    hide DisconnectNow, Sent, HandleConnect;
    FreeingConnect(s, connecting, walk);
  }

  lemma {:induction false} FreeingTimeout(s: State, turns: nat, walk: Walk)
    requires Walks(walk) && !s.freed && !s.inCallback && s.freeing && s.err && s.replies == []
    ensures HandleTimeout(s, turns, walk).freeing
  {
    hide DisconnectNow;
  }

  lemma {:induction false} FreeingUser(s: State, fn: Option<int>, data: int, argv: Argv, walk: Walk)
    requires Walks(walk) && !s.freed && !s.inCallback && s.freeing && s.err && s.replies == []
    ensures Submit(s, fn, data, argv).freeing && Free(s, walk).freeing && Disconnect(s, walk).freeing
  {
    hide DisconnectNow, FreeContext, Registered;
  }

  /** The request stays. */
  lemma {:induction false} FreeingStays(s: State, e: Event, walk: Walk)
    requires Walks(walk) && Settled(s) && !s.inCallback && !Ended(s) && s.freeing
    ensures Handle(s, e, walk).freeing
  {
    hide Settled, HandleRead, HandleWrite, HandleTimeout, Submit, Free, Disconnect;
    FreeingWaits(s);
    match e
    case ReadReady(connecting, input) => FreeingRead(s, connecting, input, walk);
    case WriteReady(connecting, output) => FreeingWrite(s, connecting, output, walk);
    case Timeout(turns) => FreeingTimeout(s, turns, walk);
    case UserCommand(fn, data, argv) => FreeingUser(s, fn, data, argv, walk);
    case UserFree => FreeingUser(s, None, 0, [], walk);
    case UserDisconnect => FreeingUser(s, None, 0, [], walk);
  }

  lemma {:induction false} FreeingWaits(s: State)
    requires Settled(s) && !Ended(s) && s.freeing
    ensures s.err && s.replies == []
  {
    hide Inv, Plain;
  }

  lemma {:induction false} FreeingStaysOn(s: State, events: seq<Event>, walk: Walk)
    requires Walks(walk) && Settled(s) && s.freeing
    ensures Run(s, events, walk).freeing
    decreases |events|
  {
    hide Inv, Plain, Handle;
    if events != [] && !Ended(s) {
      FreeingStays(s, events[0], walk);
      HandleSettles(s, events[0], walk);
      FreeingStaysOn(Handle(s, events[0], walk), events[1..], walk);
    }
  }

  /** The run up to the i-th event. */
  function Before(s: State, events: seq<Event>, i: nat, walk: Walk): State
    requires Walks(walk) && !s.inCallback && i <= |events|
  {
    Run(s, events[..i], walk)
  }

  /** The i-th event strands the context. */
  ghost predicate StrandsAt(s: State, events: seq<Event>, i: nat, walk: Walk)
    requires Walks(walk) && !s.inCallback && i < |events|
  {
    var b := Before(s, events, i, walk);
    !b.inCallback && !Ended(b) && !b.freeing && Strands(b, events[i])
  }

  lemma {:induction false} BeforeNext(s: State, events: seq<Event>, i: nat, walk: Walk)
    requires Walks(walk) && Settled(s) && !s.inCallback && i < |events|
    ensures var b := Before(s, events, i, walk);
      && Settled(b) && !b.inCallback
      && Before(s, events, i + 1, walk) == if Ended(b) then b else Handle(b, events[i], walk)
  {
    hide Handle, Inv, Plain;
    RunSettles(s, events[..i], walk);
    var b := Before(s, events, i, walk);
    assert events[..i + 1] == events[..i] + [events[i]];
    RunAppend(s, events[..i], [events[i]], walk);
    assert Run(b, [events[i]], walk) == if Ended(b) then b else Handle(b, events[i], walk) by {
      assert [events[i]][1..] == [];
    }
  }

  /** Over runs: a context is stranded if and only if some event stranded it and none has freed it since. */
  lemma {:induction false} StrandedRunIff(s: State, events: seq<Event>, walk: Walk)
    requires Walks(walk) && Settled(s) && !s.inCallback && !s.freeing
    ensures var r := Run(s, events, walk);
      Stranded(r) <==> !r.freed && !r.looping && exists i :: 0 <= i < |events| && StrandsAt(s, events, i, walk)
  {
    hide Settled, Run, Handle, Strands;
    var r := Run(s, events, walk);
    if i :| 0 <= i < |events| && StrandsAt(s, events, i, walk) {
      StrandedStays(s, events, i, walk);
    }
    if Stranded(r) {
      var i := WhoStranded(s, events, walk);
    }
  }

  lemma {:induction false} StrandedStays(s: State, events: seq<Event>, i: nat, walk: Walk)
    requires Walks(walk) && Settled(s) && !s.inCallback && i < |events| && StrandsAt(s, events, i, walk)
    ensures Run(s, events, walk).freeing
  {
    hide Settled, Run, Handle, Strands;
    BeforeNext(s, events, i, walk);
    var b, n := Before(s, events, i, walk), Before(s, events, i + 1, walk);
    StrandedIff(b, events[i], walk);
    RunSettles(s, events[..i + 1], walk);
    FreeingStaysOn(n, events[i + 1..], walk);
    RunAppend(s, events[..i + 1], events[i + 1..], walk);
    assert events[..i + 1] + events[i + 1..] == events;
  }

  lemma {:induction false} WhoStranded(s: State, events: seq<Event>, walk: Walk) returns (i: nat)
    requires Walks(walk) && Settled(s) && !s.inCallback && !s.freeing && Stranded(Run(s, events, walk))
    ensures i < |events| && StrandsAt(s, events, i, walk)
    decreases |events|
  {
    hide Settled, Handle, Strands;
    assert events != [];
    hide Run;
    var last := |events| - 1;
    BeforeNext(s, events, last, walk);
    assert events[..last + 1] == events;
    var b := Before(s, events, last, walk);
    if Ended(b) || b.freeing {
      i := WhoStranded(s, events[..last], walk);
      assert events[..last][..i] == events[..i];
    } else {
      StrandedIff(b, events[last], walk);
      i := last;
    }
  }

  /** In every run: a stranded context has automatic freeing off, has failed, and waits for nothing. */
  lemma {:induction false} FreeingFrees(noAutoFree: bool, plan: Plan, events: seq<Event>, walk: Walk)
    requires Walks(walk)
    ensures var s := Run(Start(noAutoFree, plan), events, walk);
      !s.inCallback && (s.freeing ==> s.freed || s.looping || (s.noAutoFree && s.err && s.replies == []))
  {
    hide Inv, Run, Plain;
    StartSettled(noAutoFree, plan);
    RunSettles(Start(noAutoFree, plan), events, walk);
  }

  /** A run that strands its context: automatic freeing off, a callback that frees, and a timeout. */
  lemma {:induction false} FreeingNotFreed(argv: Argv, walk: Walk)
    requires Walks(walk) && Classify(argv).Regular?
    ensures Stranded(Run(Start(true, k => [CallFree]), [UserCommand(Some(0), 0, argv), Timeout(1)], walk))
  {
    hide Classify, Commands.Command;
    var plan: Plan := k => [CallFree];
    var s0, command, timeout := Start(true, plan), UserCommand(Some(0), 0, argv), Timeout(1);
    var s1 := Handle(s0, command, walk);
    assert s1.replies == [Callback(Some(0), 0, 1)];
    TwoEvents(s0, command, timeout, walk);
    var e := s1.(err := true);
    var d := DrainTurn(e);
    assert Acts(Entering(Shifted(e, None), Call(0, 0, None)), [CallFree]).freeing by {
      assert [CallFree][1..] == [];
    }
    assert Drained(e, 1) == Drained(d, 0) == Emptied(d);
  }

  lemma {:induction false} TwoEvents(s: State, a: Event, b: Event, walk: Walk)
    requires Walks(walk) && !s.inCallback && !Ended(s) && !Ended(Handle(s, a, walk))
    ensures Run(s, [a, b], walk) == Handle(Handle(s, a, walk), b, walk)
  {
    hide Handle;
    assert [a, b][1..] == [b] && [b][1..] == [];
    assert Run(s, [a, b], walk) == Run(Handle(s, a, walk), [b], walk) == Run(Handle(Handle(s, a, walk), b, walk), [], walk);
  }

  // ----- The loop of a timeout -----

  /** The loop ends within n turns. */
  ghost predicate EndsIn(s: State, n: nat)
    requires !s.inCallback
  {
    Drained(s, n).Emptied?
  }

  /** One of the calls makes the context refuse commands. */
  predicate Closes(actions: seq<Action>) {
    actions != [] && (actions[0].CallFree? || actions[0].CallDisconnect? || Closes(actions[1..]))
  }

  /** Whether the context is subscribed after the call. */
  predicate Enters(subscribed: bool, a: Action) {
    subscribed || (a.Issue? && Classify(a.argv).Subscribe?)
  }

  /** Whether it is subscribed after the calls. */
  predicate Subscribes(subscribed: bool, actions: seq<Action>)
    decreases |actions|
  {
    if actions == [] then subscribed else Subscribes(Enters(subscribed, actions[0]), actions[1..])
  }

  /** The callback functions that a call adds to the queue. */
  function Gain(subscribed: bool, a: Action): nat {
    if a.Issue? && a.fn.Some? && (Classify(a.argv).Monitor? || (Classify(a.argv).Regular? && !subscribed)) then 1 else 0
  }

  /** The callback functions that the calls add to the queue, when none of them closes. */
  function Adds(subscribed: bool, actions: seq<Action>): nat
    decreases |actions|
  {
    if actions == [] then 0 else Gain(subscribed, actions[0]) + Adds(Enters(subscribed, actions[0]), actions[1..])
  }

  /** The functions that the next n callback runs, from the k-th on, add to the queue. */
  function Planned(plan: Plan, k: nat, subscribed: bool, n: nat): nat
    decreases n
  {
    if n == 0 then 0 else Adds(subscribed, plan(k)) + Planned(plan, k + 1, Subscribes(subscribed, plan(k)), n - 1)
  }

  /** The callbacks that are functions. */
  function Functions(cbs: seq<Callback>): nat {
    if cbs == [] then 0 else (if cbs[0].fn.Some? then 1 else 0) + Functions(cbs[1..])
  }

  /** One of the next k callback runs closes. */
  predicate ClosesWithin(plan: Plan, runs: nat, k: nat)
    decreases k
  {
    k > 0 && (Closes(plan(runs)) || ClosesWithin(plan, runs + 1, k - 1))
  }

  /** k callback runs use up the functions queued now and all that those runs add. */
  predicate Spent(s: State, k: nat) {
    Functions(s.replies) + Planned(s.plan, s.runs, s.subscribed, k) <= k
  }

  /** What makes the loop stop, in terms of what is queued and of what the next k callbacks do. */
  predicate Stops(s: State, k: nat) {
    Closing(s) || ClosesWithin(s.plan, s.runs, k) || Spent(s, k)
  }

  /** The commands issued by n callback runs from the k-th on. */
  function Issued(plan: Plan, k: nat, n: nat): nat
    decreases n
  {
    if n == 0 then 0 else Issues(plan(k)) + Issued(plan, k + 1, n - 1)
  }

  lemma {:induction false} FunctionsSnoc(cbs: seq<Callback>, cb: Callback)
    ensures Functions(cbs + [cb]) == Functions(cbs) + if cb.fn.Some? then 1 else 0
  {
    if cbs == [] {
      assert cbs + [cb] == [cb] && [cb][1..] == [];
    } else {
      assert (cbs + [cb])[1..] == cbs[1..] + [cb];
      FunctionsSnoc(cbs[1..], cb);
    }
  }

  /** One command, on a context that takes them. */
  lemma {:induction false} IssueAdds(s: State, fn: Option<int>, data: int, argv: Argv)
    requires !Closing(s)
    ensures var r, a := Submit(s, fn, data, argv), Issue(fn, data, argv);
      && !Closing(r) && r.subscribed == Enters(s.subscribed, a)
      && Functions(r.replies) == Functions(s.replies) + Gain(s.subscribed, a)
  {
    hide Submit, Classify, Functions;
    var cb := Callback(fn, data, 1);
    SubmitFields(s, fn, data, argv);
    FunctionsSnoc(s.replies, cb);
    assert s.replies + [] == s.replies;
  }

  lemma {:induction false} SubmitFields(s: State, fn: Option<int>, data: int, argv: Argv)
    requires !Closing(s)
    ensures var r := Submit(s, fn, data, argv);
      && !Closing(r) && r.subscribed == (s.subscribed || Classify(argv).Subscribe?)
      && r.replies == s.replies + Joining(s, Callback(fn, data, 1), argv)
  {
    hide Commands.Command, LogOf, SubscribeAll, NamesFor, Doubtful, Classify;
    assert s.replies + [] == s.replies;
  }

  lemma {:induction false} ActAdds(s: State, a: Action)
    requires !Closing(s)
    ensures var r := Act(s, a);
      && (Closing(r) <==> a.CallFree? || a.CallDisconnect?)
      && (!Closing(r) ==>
        r.subscribed == Enters(s.subscribed, a) && Functions(r.replies) == Functions(s.replies) + Gain(s.subscribed, a))
  {
    hide Classify, Submit, Functions;
    if a.Issue? {
      IssueAdds(s, a.fn, a.data, a.argv);
    }
  }

  lemma {:induction false} ActsAdd(s: State, actions: seq<Action>)
    requires !Closing(s)
    ensures var r := Acts(s, actions);
      && (Closing(r) <==> Closes(actions))
      && (!Closing(r) ==>
        && r.subscribed == Subscribes(s.subscribed, actions)
        && Functions(r.replies) == Functions(s.replies) + Adds(s.subscribed, actions))
    decreases |actions|
  {
    hide Act, Functions, Enters, Gain;
    if actions != [] {
      var r := Act(s, actions[0]);
      ActAdds(s, actions[0]);
      if Closing(r) {
        ActsQueue(r, actions[1..]);
      } else {
        ActsAdd(r, actions[1..]);
      }
    }
  }

  /** One turn that runs a function. */
  lemma {:induction false} FunctionTurn(s: State)
    requires !Closing(s) && !s.inCallback && s.replies != [] && s.replies[0].fn.Some?
    ensures var r, actions := DrainTurn(s), s.plan(s.runs);
      && r.runs == s.runs + 1 && r.plan == s.plan && (Closing(r) <==> Closes(actions))
      && |r.replies| <= |s.replies| - 1 + Issues(actions)
      && (!Closing(r) ==>
        && r.subscribed == Subscribes(s.subscribed, actions)
        && Functions(r.replies) == Functions(s.replies) - 1 + Adds(s.subscribed, actions))
  {
    hide Acts, Closes, Subscribes, Adds;
    var m := Shifted(s, None);
    var e := Entering(m, Call(s.replies[0].fn.value, s.replies[0].data, None));
    ActsAdd(e, s.plan(s.runs));
    ActsQueue(e, s.plan(s.runs));
  }

  /** One turn that has no function to run. */
  lemma {:induction false} NullTurn(s: State)
    requires !s.inCallback && s.replies != [] && s.replies[0].fn == None
    ensures var r := DrainTurn(s);
      && r.runs == s.runs && r.plan == s.plan && r.replies == s.replies[1..] && r.subscribed == s.subscribed
      && Closing(r) == Closing(s) && Functions(r.replies) == Functions(s.replies)
  {
  }

  /** A loop that stops does so after at most as many turns as callbacks are queued now or by those k runs. */
  lemma {:induction false} StopsEnds(s: State, k: nat)
    requires !s.inCallback && Stops(s, k)
    ensures EndsIn(s, |s.replies| + Issued(s.plan, s.runs, k))
    decreases k, |s.replies|
  {
    hide DrainTurn, Closes, Subscribes, Adds;
    var n := |s.replies| + Issued(s.plan, s.runs, k);
    if Closing(s) {
      ClosingDrains(s, n);
    } else if s.replies != [] {
      var r := DrainTurn(s);
      if s.replies[0].fn == None {
        NullTurn(s);
        StopsEnds(r, k);
      } else {
        assert k > 0;
        FunctionTurn(s);
        StopsEnds(r, k - 1);
        DrainedLonger(r, |r.replies| + Issued(r.plan, r.runs, k - 1), n - 1);
      }
    }
  }

  lemma {:induction false} DrainedLonger(s: State, n: nat, m: nat)
    requires !s.inCallback && n <= m && EndsIn(s, n)
    ensures EndsIn(s, m)
    decreases n
  {
    hide DrainTurn;
    if s.replies != [] {
      DrainedLonger(DrainTurn(s), n - 1, m - 1);
    }
  }

  /** A loop that ends within n turns is stopped by what at most n callbacks do. */
  lemma {:induction false} EndsStops(s: State, n: nat) returns (k: nat)
    requires !s.inCallback && EndsIn(s, n)
    ensures k <= n && Stops(s, k)
    decreases n
  {
    hide DrainTurn, Closes, Subscribes, Adds;
    k := 0;
    if !Closing(s) && s.replies != [] {
      if s.replies[0].fn == None {
        NullTurn(s);
        k := EndsStops(DrainTurn(s), n - 1);
      } else {
        FunctionTurn(s);
        k := EndsStops(DrainTurn(s), n - 1);
        k := k + 1;
      }
    }
  }

  /**
   The exact condition, for every context and every set of callbacks: the loop of a timeout ends if and
   only if, for some k, commands are refused already, or one of the next k callbacks closes, or k
   callbacks use up the functions queued and all they add.
   */
  lemma {:induction false} LoopEndsIff(s: State)
    requires !s.inCallback
    ensures (exists n: nat :: EndsIn(s, n)) <==> (exists k: nat :: Stops(s, k))
  {
    if n: nat :| EndsIn(s, n) {
      var k := EndsStops(s, n);
    }
    if k: nat :| Stops(s, k) {
      StopsEnds(s, k);
    }
  }

  /** A timeout that is not idle stays in its loop for ever if and only if nothing ever stops it. */
  lemma {:induction false} TimeoutLoopsIff(s: State, walk: Walk)
    requires Walks(walk) && !s.freed && !s.inCallback && !s.looping && !IdleTimeout(s)
    ensures (forall turns: nat :: HandleTimeout(s, turns, walk).looping) <==> (forall k: nat :: !Stops(s.(err := true), k))
  {
    hide Stops, DisconnectNow, Drained;
    var e := s.(err := true);
    forall turns: nat
      ensures HandleTimeout(s, turns, walk).looping <==> !EndsIn(e, turns)
    {
    }
    LoopEndsIff(e);
  }

  lemma {:induction false} PlannedOnes(plan: Plan, k: nat, n: nat)
    requires forall j: nat :: Adds(false, plan(j)) == 1 && !Subscribes(false, plan(j)) && !Closes(plan(j))
    ensures Planned(plan, k, false, n) == n && !ClosesWithin(plan, k, n)
    decreases n
  {
    hide Adds, Subscribes, Closes;
    if n > 0 {
      PlannedOnes(plan, k + 1, n - 1);
    }
  }

  /** A callback that sends its command again whenever it gets NULL keeps a timeout in its loop for any number of turns. */
  lemma {:induction false} ResubmittingLoops(argv: Argv, turns: nat, walk: Walk)
    requires Walks(walk) && Classify(argv).Regular?
    ensures Run(Start(false, k => [Issue(Some(0), 0, argv)]), [UserCommand(Some(0), 0, argv), Timeout(turns)], walk).looping
  {
    var plan: Plan := k => [Issue(Some(0), 0, argv)];
    hide Classify, Commands.Command;
    var s0, command, timeout := Start(false, plan), UserCommand(Some(0), 0, argv), Timeout(turns);
    var s1 := Handle(s0, command, walk);
    assert s1.replies == [Callback(Some(0), 0, 1)];
    var e := s1.(err := true);
    assert Functions(e.replies) == 1;
    OneAgain(argv);
    if EndsIn(e, turns) {
      var k := EndsStops(e, turns);
      PlannedOnes(plan, 0, k);
      assert false;
    }
    TwoEvents(s0, command, timeout, walk);
  }

  lemma {:induction false} OneAgain(argv: Argv)
    requires Classify(argv).Regular?
    ensures var again := [Issue(Some(0), 0, argv)];
      Adds(false, again) == 1 && !Subscribes(false, again) && !Closes(again)
  {
    hide Classify;
    var again := [Issue(Some(0), 0, argv)];
    assert again[1..] == [];
  }

  // ----- Disconnecting -----

  /** A write never frees the context it succeeds on, even one that flushes the last byte of a disconnect. */
  lemma {:induction false} WriteLeaves(s: State, connecting: Connecting, count: nat, walk: Walk)
    requires Walks(walk) && !s.freed && !s.inCallback && s.connected && !s.err
    ensures var r := HandleWrite(s, connecting, Written(count), walk);
      && !r.freed && r.disconnecting == s.disconnecting && r.replies == s.replies
      && (count >= |s.obuf| ==> r.obuf == [])
  {
  }

  /** The next read, even an empty one, completes it. */
  lemma {:induction false} NextReadFrees(s: State, connecting: Connecting, walk: Walk)
    requires Walks(walk) && !s.freed && !s.inCallback && s.connected && !s.err
    requires s.disconnecting && s.obuf == [] && s.replies == []
    ensures HandleRead(s, connecting, Replies([], false), walk).freed <==> !s.noAutoFree
  {
    hide FreeContext;
  }
}
