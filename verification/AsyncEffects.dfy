/**
 What the calls and events of the asynchronous client change, field by field, when nothing fails.
 */
module AsyncEffects {
  import opened ByteStrings
  import opened RespGrammar
  import opened PubSub
  import opened AsyncProtocol
  import opened AsyncSafety
  import opened AsyncRuns
  import opened AsyncFailure
  import Commands

  // ----- Commands -----

  predicate Subscribing(argv: Argv)
    requires argv != []
  {
    |argv| > 1 && IsWord(Unprefixed(argv[0]), [115, 117, 98, 115, 99, 114, 105, 98, 101])
  }

  predicate Unsubscribing(argv: Argv)
    requires argv != []
  {
    IsWord(Unprefixed(argv[0]), [117, 110, 115, 117, 98, 115, 99, 114, 105, 98, 101])
  }

  predicate Monitoring(argv: Argv)
    requires argv != []
  {
    IsWord(Unprefixed(argv[0]), [109, 111, 110, 105, 116, 111, 114])
  }

  /** The table gains the names, with the command's callback, and keeps its other entries. */
  ghost predicate Gains(table: Table, r: Table, names: seq<Bytes>, fn: Option<int>, data: int) {
    && (forall n :: n in r <==> n in table || n in names)
    && (forall n :: n in table && n !in names ==> n in r && r[n] == table[n])
    && (forall n :: n in names ==> n in r && r[n].fn == fn && r[n].data == data)
  }

  /**
   A command is refused while the context closes, and UNSUBSCRIBE outside subscribed mode; a refused
   command changes nothing. An accepted one joins the output buffer. SUBSCRIBE enters its names, with a P
   in front among the patterns; UNSUBSCRIBE registers nothing; MONITOR joins the queue in any mode, and
   every other command outside subscribed mode, in which it is doubtful.
   */
  lemma {:induction false} CommandEffects(s: State, fn: Option<int>, data: int, argv: Argv, walk: Walk)
    requires Walks(walk) && !s.freed && !s.inCallback && argv != []
    ensures var r, cb := Handle(s, UserCommand(fn, data, argv), walk), Callback(fn, data, 1);
      if s.disconnecting || s.freeing || (Unsubscribing(argv) && !s.subscribed) then r == s
      else
        var ordinary := !Subscribing(argv) && !Unsubscribing(argv) && !Monitoring(argv);
        var names := if Subscribing(argv) then argv[1..] else [];
        var pattern := Unprefixed(argv[0]) != argv[0];
        && r.obuf == s.obuf + Commands.Command(argv)
        && r.subscribed == (s.subscribed || Subscribing(argv)) && r.monitoring == (s.monitoring || Monitoring(argv))
        && r.replies == s.replies + (if Monitoring(argv) || (ordinary && !s.subscribed) then [cb] else [])
        && r.invalid == s.invalid + (if ordinary && s.subscribed then [cb] else [])
        && Gains(s.channels, r.channels, if pattern then [] else names, fn, data)
        && Gains(s.patterns, r.patterns, if pattern then names else [], fn, data)
        && OthersStay(s, r)
  {
    hide Classify, Commands.Command, SubscribeAll, LogOf, IsWord, Unprefixed;
    ClassifyIs(argv);
    var cb := Callback(fn, data, 1);
    RegisteredEffects(s, cb, argv);
    NamesEntered(s.channels, cb, NamesFor(false, argv));
    NamesEntered(s.patterns, cb, NamesFor(true, argv));
  }

  /** The fields that a command never touches. */
  ghost predicate OthersStay(s: State, r: State) {
    && r.connected == s.connected && r.disconnecting == s.disconnecting && r.freeing == s.freeing && r.noAutoFree == s.noAutoFree
    && r.err == s.err && r.freed == s.freed && r.aborted == s.aborted && r.log.calls == s.log.calls
  }

  lemma {:induction false} NamesEntered(table: Table, cb: Callback, names: seq<Bytes>)
    ensures Gains(table, SubscribeAll(table, cb, names), names, cb.fn, cb.data)
  {
    hide SubscribeAll;
    SubscribedKeys(table, cb, names);
    var r := SubscribeAll(table, cb, names);
    assert forall n :: n in r <==> n in r.Keys;
  }

  lemma {:induction false} RegisteredEffects(s: State, cb: Callback, argv: Argv)
    ensures var r := Registered(s, cb, argv);
      && r.obuf == s.obuf + Commands.Command(argv)
      && r.subscribed == (s.subscribed || Classify(argv).Subscribe?) && r.monitoring == (s.monitoring || Classify(argv).Monitor?)
      && r.replies == s.replies + Joining(s, cb, argv) && r.invalid == s.invalid + Doubtful(s, cb, argv)
      && r.channels == SubscribeAll(s.channels, cb, NamesFor(false, argv))
      && r.patterns == SubscribeAll(s.patterns, cb, NamesFor(true, argv)) && OthersStay(s, r)
  {
    hide Classify, Commands.Command, SubscribeAll, Joining, Doubtful, NamesFor, Clean;
  }

  /** A new context: nothing connected, queued or subscribed, and nothing to send. */
  lemma {:induction false} StartIs(noAutoFree: bool, plan: Plan)
    ensures var s := Start(noAutoFree, plan);
      && !s.connected && !s.disconnecting && !s.freeing && !s.inCallback && !s.subscribed && !s.monitoring
      && !s.err && !s.freed && !s.aborted && s.noAutoFree == noAutoFree
      && s.obuf == [] && s.replies == [] && s.invalid == [] && s.channels == map[] && s.patterns == map[]
      && s.runs == 0 && s.log.calls == [] && s.log.issued == []
  {
  }

  // ----- Writes and connection attempts -----

  /** A write sends as much as the socket takes, from the front of the output buffer, and changes nothing else. */
  lemma {:induction false} WriteEffects(s: State, connecting: Connecting, count: nat, walk: Walk)
    requires Walks(walk) && !s.freed && !s.inCallback && s.connected && !s.err
    ensures var r := Handle(s, WriteReady(connecting, Written(count)), walk);
      var n := if count <= |s.obuf| then count else |s.obuf|;
      r == s.(obuf := s.obuf[n..], log := s.log.(wire := s.log.wire + s.obuf[..n]))
  {
  }

  /** While the connection attempt is in progress, events of the socket change nothing. */
  lemma {:induction false} InProgressEffects(s: State, input: Input, output: Output, walk: Walk)
    requires Walks(walk) && !s.freed && !s.inCallback && !s.connected
    ensures Handle(s, ReadReady(InProgress, input), walk) == s && Handle(s, WriteReady(InProgress, output), walk) == s
  {
  }

  /** Once it is established, an event of the socket is one of a connected context. */
  lemma {:induction false} EstablishedEffects(s: State, connecting: Connecting, input: Input, output: Output, walk: Walk)
    requires Walks(walk) && !s.freed && !s.inCallback && !s.connected
    ensures var c := s.(connected := true);
      && Handle(s, ReadReady(Established, input), walk) == Handle(c, ReadReady(connecting, input), walk)
      && Handle(s, WriteReady(Established, output), walk) == Handle(c, WriteReady(connecting, output), walk)
  {
    hide ProcessCallbacks, DisconnectNow, Sent;
  }

  /** A timeout on a connected context that expects nothing is no event. */
  lemma {:induction false} IdleTimeoutEffects(s: State, turns: nat, walk: Walk)
    requires Walks(walk) && !s.freed && !s.inCallback && s.connected && s.replies == []
    ensures Handle(s, Timeout(turns), walk) == s
  {
  }

  // ----- Freeing and disconnecting -----

  /** The user frees the context: everyone who waits gets NULL, at once and whatever the settings are. */
  lemma {:induction false} FreeEffects(s: State, walk: Walk)
    requires Walks(walk) && Settled(s) && !s.inCallback && !Ended(s)
    ensures var r := Handle(s, UserFree, walk); r.freeing && TornDown(s, r, walk)
  {
    hide Inv, Plain, FreeContext, TornDown;
    var f := s.(freeing := true);
    SameViewKeeps(s, f);
    SamePlain(s, f);
    SettledCaughtUp(s);
    TearsDown(f, walk);
    TornDownAlike(s, f, FreeContext(f, walk), walk);
  }

  /** The same callbacks wait. */
  ghost predicate WaitAlike(s: State, r: State) {
    && r.replies == s.replies && r.invalid == s.invalid && r.channels == s.channels && r.patterns == s.patterns
    && r.log.calls == s.log.calls
  }

  lemma {:induction false} TornDownAlike(s: State, c: State, r: State, walk: Walk)
    requires Walks(walk) && WaitAlike(s, c) && TornDown(c, r, walk)
    ensures TornDown(s, r, walk)
  {
    assert Waiting(c, walk) == Waiting(s, walk);
  }

  /**
   The user disconnects: with replies to come only the flags are set, automatic freeing is on again, and
   nothing else changes; without any the context is freed at once.
   */
  lemma {:induction false} DisconnectEffects(s: State, walk: Walk)
    requires Walks(walk) && Settled(s) && !s.inCallback && !Ended(s)
    ensures var r := Handle(s, UserDisconnect, walk);
      if s.replies == [] then TornDown(s, r, walk) else r == s.(disconnecting := true, noAutoFree := false)
  {
    hide Inv, Plain, FreeContext, TornDown;
    var d := s.(disconnecting := true, noAutoFree := false);
    SameViewKeeps(s, d);
    SamePlain(s, d);
    SettledCaughtUp(s);
    if s.replies == [] {
      var e := if d.err then d.(disconnecting := true) else d;
      assert e == d;
      TearsDown(d, walk);
      TornDownAlike(s, d, FreeContext(d, walk), walk);
    }
  }

  /**
   A read that brings no reply: a disconnect is completed when nothing is left to send or to answer, and
   not before; otherwise only monitor mode changes anything.
   */
  lemma {:induction false} EmptyReadEffects(s: State, connecting: Connecting, walk: Walk)
    requires Walks(walk) && Settled(s) && !s.inCallback && !Ended(s) && s.connected && !s.err
    ensures var r := Handle(s, ReadReady(connecting, Replies([], false)), walk);
      if s.disconnecting && s.obuf == [] && s.replies == [] then if s.noAutoFree then r == s else TornDown(s, r, walk)
      else r == if s.monitoring then s.(replies := s.replies + [NULL_CALLBACK]) else s
  {
    hide Inv, Plain, FreeContext, TornDown;
    SettledCaughtUp(s);
    if s.disconnecting && s.obuf == [] && s.replies == [] && !s.noAutoFree {
      TearsDown(s, walk);
    }
  }

  /** From inside a callback, freeing and disconnecting only leave their flags. */
  lemma {:induction false} InsideEffects(s: State)
    ensures Act(s, CallFree) == s.(freeing := true)
    ensures Act(s, CallDisconnect) == s.(disconnecting := true, noAutoFree := false)
  {
  }

  /** When a callback has asked for it, the context is torn down as soon as the callback returns, and only then. */
  lemma {:induction false} DeliverEffects(s: State, cb: Callback, reply: Reply, walk: Walk)
    requires Walks(walk) && !s.freed && !s.inCallback
    requires var m := RunCallback(s, cb, Some(reply)); Inv(m) && (Plain(m) ==> CaughtUp(m))
    ensures var m, t := RunCallback(s, cb, Some(reply)), Deliver(s, cb, reply, walk);
      && (t.Over? <==> cb.fn.Some? && m.freeing)
      && !m.inCallback && (if t.Over? then TornDown(m, t.state, walk) else t == Next(m, cb))
  {
    hide Inv, Plain, FreeContext, TornDown, RunCallback;
    RunQueue(s, cb, Some(reply));
    var m := RunCallback(s, cb, Some(reply));
    if cb.fn.Some? && m.freeing {
      TearsDown(m, walk);
    }
  }
}
