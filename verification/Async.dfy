/**
 The asynchronous context of async.c, updated in place. Every method is proved to take the context
 through the step that AsyncProtocol describes; AsyncRuns says what whole runs of such steps keep.
 */
module AsyncContexts {
  import opened ByteStrings
  import opened RespGrammar
  import opened PubSub
  import opened CommandScan
  import opened CallbackLists
  import P = AsyncProtocol
  import Commands

  predicate Fits(argv: seq<Bytes>) {
    argv != [] && |Commands.Command(argv)| <= INT_MAX
  }

  /** The callbacks issue commands that have a name and a length that fits an int. */
  ghost predicate GoodActions(actions: seq<P.Action>) {
    forall i :: 0 <= i < |actions| && actions[i].Issue? ==> Fits(actions[i].argv)
  }

  ghost predicate GoodPlan(plan: P.Plan) {
    forall k: nat :: GoodActions(plan(k))
  }

  class AsyncContext {
    var connected: bool
    var disconnecting: bool
    var freeing: bool
    var inCallback: bool
    var subscribed: bool
    var monitoring: bool
    var noAutoFree: bool
    var err: bool
    var obuf: Bytes
    const replies: CallbackList
    const invalid: CallbackList
    var channels: Table
    var patterns: Table
    const plan: P.Plan
    var runs: nat
    var freed: bool
    var aborted: bool
    var looping: bool
    ghost var log: P.Log
    /** The order in which the iterators of the tables go through them. */
    const walk: P.Walk

    /** The context as a value. */
    ghost function View(): P.State
      reads this, replies, invalid
    {
      P.State(connected, disconnecting, freeing, inCallback, subscribed, monitoring, noAutoFree, err, obuf,
              replies.contents, invalid.contents, channels, patterns, plan, runs, freed, aborted, looping, log)
    }

    ghost predicate Valid()
      reads this, replies, invalid, replies.repr, invalid.repr
    {
      && replies.Valid() && invalid.Valid() && replies != invalid && replies.repr !! invalid.repr
      && P.Walks(walk) && GoodPlan(plan)
    }

    ghost function Repr(): set<object>
      reads this, replies, invalid
    {
      {this, replies, invalid} + replies.repr + invalid.repr
    }

    constructor (noAutoFree: bool, plan: P.Plan, walk: P.Walk)
      requires P.Walks(walk) && GoodPlan(plan)
      ensures Valid() && fresh(Repr()) && View() == P.Start(noAutoFree, plan) && this.walk == walk
    {
      connected, disconnecting, freeing, inCallback := false, false, false, false;
      subscribed, monitoring, err := false, false, false;
      this.noAutoFree, this.plan, this.walk := noAutoFree, plan, walk;
      obuf, channels, patterns, runs, freed, aborted, looping := [], map[], map[], 0, false, false, false;
      replies := new CallbackList();
      invalid := new CallbackList();
      log := P.Log([], [], [], [], [], [], multiset{}, multiset{}, true, true);
    }

    /** The loop of __redisAsyncCommand over the names of a SUBSCRIBE. */
    method SubscribeNames(table: Table, fn: Option<int>, data: int, cmd: Bytes, start: nat, ghost argv: seq<Bytes>)
      returns (table': Table)
      requires Fits(argv) && cmd == Commands.Command(argv) + [NUL] && start == ArgumentStart(argv, 1) < |cmd|
      ensures table' == SubscribeAll(table, Callback(fn, data, 1), argv[1..])
    {
      hide NextArgument, Commands.Command, ArgumentStart;
      table' := table;
      var cb := Callback(fn, data, 1);
      var p := start;
      ghost var k := 1;
      NextArgumentExact(argv, k, p);
      var scan := NextArgument(cmd, p);
      while scan.Found?
        invariant 1 <= k <= |argv| && p == ArgumentStart(argv, k) < |cmd| && scan == NextArgument(cmd, p)
        invariant SubscribeAll(table', cb, argv[k..]) == SubscribeAll(table, Callback(fn, data, 1), argv[1..])
        decreases |argv| - k
      {
        NextArgumentExact(argv, k, p);
        var sname := cmd[scan.str..scan.str + scan.len];
        if sname in table' {
          cb := cb.(pending := table'[sname].pending + 1);
        }
        assert argv[k..][0] == sname && argv[k..][1..] == argv[k + 1..];
        table' := table'[sname := cb];
        p, k := scan.next, k + 1;
        NextArgumentExact(argv, k, p);
        scan := NextArgument(cmd, p);
      }
      NextArgumentExact(argv, k, p);
      assert argv[k..] == [];
    }

    /** __redisAsyncCommand, on a formatted command. */
    method FormattedCommand(fn: Option<int>, data: int, cmd: Bytes, ghost argv: seq<Bytes>) returns (ok: bool)
      requires Valid() && !freed && Fits(argv) && cmd == Commands.Command(argv) + [NUL]
      modifies `subscribed, `monitoring, `channels, `patterns, `obuf, `log, replies, invalid, replies.repr, invalid.repr
      ensures Valid() && fresh(replies.repr - old(replies.repr)) && fresh(invalid.repr - old(invalid.repr))
      ensures ok == P.Accepts(old(View()), argv)
      ensures View() == P.Submit(old(View()), fn, data, argv)
    {
      hide Commands.Command, Classify, P.Registered, ArgumentStart;
      if disconnecting || freeing {
        return false;
      }
      var request, p := Recognise(cmd, argv);
      if request == Unsubscribe && !subscribed {
        return false;
      }
      Accept(request, Callback(fn, data, 1), cmd, p, argv);
      ok := true;
    }

    /** The rest of __redisAsyncCommand, once the command is accepted. */
    method Accept(request: Request, cb: Callback, cmd: Bytes, p: nat, ghost argv: seq<Bytes>)
      requires Valid() && Fits(argv) && cmd == Commands.Command(argv) + [NUL] && p == ArgumentStart(argv, 1) < |cmd|
      requires request == Classify(argv) && cb.pending == 1
      modifies `subscribed, `monitoring, `channels, `patterns, `obuf, `log, replies, invalid, replies.repr, invalid.repr
      ensures Valid() && fresh(replies.repr - old(replies.repr)) && fresh(invalid.repr - old(invalid.repr))
      ensures View() == P.Registered(old(View()), cb, argv)
    {
      hide CallbackList.Valid, Commands.Command, Classify, SubscribeAll, P.Registered, P.LogOf, ArgumentStart, GoodPlan, P.Walks;
      ghost var before := View();
      Register(request, cb, cmd, p, argv);
      obuf := obuf + cmd[..|cmd| - 1];
      log := P.LogOf(before, cb, argv);
      RegisteredFields(before, cb, argv, View());
    }

    /** The branches of __redisAsyncCommand. */
    method Register(request: Request, cb: Callback, cmd: Bytes, p: nat, ghost argv: seq<Bytes>)
      requires Valid() && Fits(argv) && cmd == Commands.Command(argv) + [NUL] && p == ArgumentStart(argv, 1) < |cmd|
      requires request == Classify(argv) && cb.pending == 1
      modifies `subscribed, `monitoring, `channels, `patterns, replies, invalid, replies.repr, invalid.repr
      ensures Valid() && fresh(replies.repr - old(replies.repr)) && fresh(invalid.repr - old(invalid.repr))
      ensures subscribed == (old(subscribed) || request.Subscribe?) && monitoring == (old(monitoring) || request.Monitor?)
      ensures replies.contents == old(replies.contents) +
        if request.Monitor? || (request.Regular? && !old(subscribed)) then [cb] else []
      ensures invalid.contents == old(invalid.contents) + if request.Regular? && old(subscribed) then [cb] else []
      ensures patterns == if request == Subscribe(true) then SubscribeAll(old(patterns), cb, argv[1..]) else old(patterns)
      ensures channels == if request == Subscribe(false) then SubscribeAll(old(channels), cb, argv[1..]) else old(channels)
    {
      hide CallbackList.Valid, Commands.Command, Classify, SubscribeAll, NextArgument, ArgumentStart, GoodPlan, P.Walks;
      match request {
        case Subscribe(pattern) =>
          subscribed := true;
          if pattern {
            patterns := SubscribeNames(patterns, cb.fn, cb.data, cmd, p, argv);
          } else {
            channels := SubscribeNames(channels, cb.fn, cb.data, cmd, p, argv);
          }
        case Unsubscribe =>
        case Monitor =>
          monitoring := true;
          replies.Push(cb);
        case Regular =>
          if subscribed {
            invalid.Push(cb);
          } else {
            replies.Push(cb);
          }
      }
    }

    /** redisAsyncCommandArgv. */
    method CommandArgv(fn: Option<int>, data: int, argv: seq<Bytes>) returns (ok: bool)
      requires Valid() && !freed && Fits(argv)
      modifies `subscribed, `monitoring, `channels, `patterns, `obuf, `log, replies, invalid, replies.repr, invalid.repr
      ensures Valid() && fresh(replies.repr - old(replies.repr)) && fresh(invalid.repr - old(invalid.repr))
      ensures ok == P.Accepts(old(View()), argv)
      ensures View() == P.Submit(old(View()), fn, data, argv)
    {
      hide CallbackList.Valid, Commands.Command, P.Submit, P.Accepts, GoodPlan, P.Walks;
      var cmd, _ := Commands.FormatSdsCommandArgv(argv);
      ok := FormattedCommand(fn, data, cmd.Contents() + [NUL], argv);
    }

    /** The call a callback makes. */
    method Perform(a: P.Action)
      requires Valid() && !freed && inCallback && (a.Issue? ==> Fits(a.argv))
      modifies this, replies, invalid, replies.repr, invalid.repr
      ensures Valid() && fresh(replies.repr - old(replies.repr)) && fresh(invalid.repr - old(invalid.repr))
      ensures View() == P.Act(old(View()), a)
      decreases 0, 7
    {
      hide CallbackList.Valid, Commands.Command, P.Submit, GoodPlan, P.Walks;
      match a {
        case Issue(fn, data, argv) => var _ := CommandArgv(fn, data, argv);
        case CallFree => Free();
        case CallDisconnect => Disconnect();
      }
    }

    /** The body of a callback function: it makes the calls that the plan says. */
    method RunActions(actions: seq<P.Action>)
      requires Valid() && !freed && inCallback && GoodActions(actions)
      modifies this, replies, invalid, replies.repr, invalid.repr
      ensures Valid() && fresh(replies.repr - old(replies.repr)) && fresh(invalid.repr - old(invalid.repr))
      ensures View() == P.Acts(old(View()), actions)
      decreases 0, 8
    {
      hide CallbackList.Valid, P.Act, P.Walks, GoodPlan;
      var i := 0;
      assert actions[0..] == actions;
      while i < |actions|
        invariant 0 <= i <= |actions| && Valid() && !freed && inCallback
        invariant fresh(replies.repr - old(replies.repr)) && fresh(invalid.repr - old(invalid.repr))
        invariant P.Acts(View(), actions[i..]) == P.Acts(old(View()), actions)
      {
        P.ActQueue(View(), actions[i]);
        assert actions[i..][0] == actions[i] && actions[i..][1..] == actions[i + 1..];
        Perform(actions[i]);
        i := i + 1;
      }
      assert actions[i..] == [];
    }

    /** Control passes to a callback function, whose calls are returned. */
    method Enter(ghost call: P.Call) returns (actions: seq<P.Action>)
      requires Valid()
      modifies `inCallback, `runs, `log
      ensures Valid() && GoodActions(actions) && actions == plan(old(runs))
      ensures inCallback && View() == P.Entering(old(View()), call)
    {
      hide CallbackList.Valid, P.Walks;
      inCallback := true;
      actions := plan(runs);
      runs := runs + 1;
      log := log.(calls := log.calls + [call]);
    }

    /** Control comes back. */
    method Leave()
      requires Valid()
      modifies `inCallback
      ensures Valid() && View() == old(View()).(inCallback := false)
    {
      hide CallbackList.Valid, P.Walks, GoodPlan;
      inCallback := false;
    }

    /** __redisRunCallback. */
    method RunCallback(cb: Callback, ghost reply: Option<Reply>)
      requires Valid() && !freed && !inCallback
      modifies this, replies, invalid, replies.repr, invalid.repr
      ensures Valid() && fresh(replies.repr - old(replies.repr)) && fresh(invalid.repr - old(invalid.repr))
      ensures View() == P.RunCallback(old(View()), cb, reply)
      decreases 1, 0
    {
      hide CallbackList.Valid, P.Acts, P.Walks, GoodActions, GoodPlan, P.Entering;
      if cb.fn.Some? {
        var actions := Enter(P.Call(cb.fn.value, cb.data, reply));
        RunActions(actions);
        Leave();
      }
    }

    /** The oldest callback of the queue runs with a NULL reply. */
    method RunOldest()
      requires Valid() && !freed && !inCallback && replies.contents != []
      modifies this, replies, invalid, replies.repr, invalid.repr
      ensures Valid() && fresh(replies.repr - old(replies.repr)) && fresh(invalid.repr - old(invalid.repr))
      ensures View() == P.DrainTurn(old(View()))
      decreases 1, 1
    {
      hide CallbackList.Valid, P.RunCallback, GoodPlan, P.Walks;
      var cb := replies.Shift();
      log := log.(delivered := log.delivered + [P.Delivery(cb.value, None)]);
      RunCallback(cb.value, None);
    }

    /** The first loop of __redisAsyncFree. */
    method FlushReplies()
      requires Valid() && !freed && !inCallback && P.Closing(View())
      modifies this, replies, invalid, replies.repr, invalid.repr
      ensures Valid() && fresh(replies.repr - old(replies.repr)) && fresh(invalid.repr - old(invalid.repr))
      ensures View() == P.DrainReplies(old(View()))
      decreases 1, 2
    {
      hide CallbackList.Valid, P.DrainTurn, GoodPlan, P.Walks;
      P.ClosingDrains(View(), |replies.contents|);
      while !replies.Empty()
        invariant Valid() && !freed && !inCallback && P.Closing(View())
        invariant fresh(replies.repr - old(replies.repr)) && fresh(invalid.repr - old(invalid.repr))
        invariant P.Drained(View(), |replies.contents|) == P.Drained(old(View()), |old(replies.contents)|)
        decreases |replies.contents|
      {
        RunOldest();
      }
    }

    /** So many turns of the loop of redisAsyncHandleTimeout; whether it has ended. */
    method FlushTurns(turns: nat) returns (ended: bool)
      requires Valid() && !freed && !inCallback
      modifies this, replies, invalid, replies.repr, invalid.repr
      ensures Valid() && fresh(replies.repr - old(replies.repr)) && fresh(invalid.repr - old(invalid.repr))
      ensures P.Drained(old(View()), turns) == if ended then P.Emptied(View()) else P.Going(View())
      decreases 1, 2
    {
      hide CallbackList.Valid, P.DrainTurn, GoodPlan, P.Walks;
      var left: nat := turns;
      while left > 0 && !replies.Empty()
        invariant Valid() && !freed && !inCallback && left <= turns
        invariant fresh(replies.repr - old(replies.repr)) && fresh(invalid.repr - old(invalid.repr))
        invariant P.Drained(View(), left) == P.Drained(old(View()), turns)
      {
        RunOldest();
        left := left - 1;
      }
      ended := replies.Empty();
    }

    /** The oldest doubtful callback, if there is one, runs with a NULL reply. */
    method RunDoubtful() returns (more: bool)
      requires Valid() && !freed && !inCallback
      modifies this, replies, invalid, replies.repr, invalid.repr
      ensures Valid() && fresh(replies.repr - old(replies.repr)) && fresh(invalid.repr - old(invalid.repr))
      ensures more == (old(invalid.contents) != [])
      ensures more ==>
        View() == P.RunCallback(old(View()).(invalid := old(invalid.contents[1..])), old(invalid.contents[0]), None)
      ensures !more ==> View() == old(View())
      decreases 1, 1
    {
      hide CallbackList.Valid, P.RunCallback, GoodPlan, P.Walks;
      var cb := invalid.Shift();
      if cb.None? {
        return false;
      }
      RunCallback(cb.value, None);
      more := true;
    }

    /** The second loop of __redisAsyncFree. */
    method FlushInvalid()
      requires Valid() && !freed && !inCallback && P.Closing(View())
      modifies this, replies, invalid, replies.repr, invalid.repr
      ensures Valid() && fresh(replies.repr - old(replies.repr)) && fresh(invalid.repr - old(invalid.repr))
      ensures View() == P.DrainInvalid(old(View()))
      decreases 1, 2
    {
      hide CallbackList.Valid, P.RunCallback, GoodPlan, P.Walks;
      var more := true;
      while more
        invariant Valid() && !freed && !inCallback && P.Closing(View()) && (!more ==> invalid.contents == [])
        invariant fresh(replies.repr - old(replies.repr)) && fresh(invalid.repr - old(invalid.repr))
        invariant P.DrainInvalid(View()) == P.DrainInvalid(old(View()))
        decreases more, |invalid.contents|
      {
        if invalid.contents != [] {
          P.RunQueue(View().(invalid := invalid.contents[1..]), invalid.contents[0], None);
        }
        more := RunDoubtful();
      }
    }

    /** The walk of __redisAsyncFree over one table. */
    method FlushTable(table: Table)
      requires Valid() && !freed && !inCallback && P.Closing(View())
      modifies this, replies, invalid, replies.repr, invalid.repr
      ensures Valid() && fresh(replies.repr - old(replies.repr)) && fresh(invalid.repr - old(invalid.repr))
      ensures (forall n :: n in walk(table.Keys) ==> n in table) && View() == P.Farewell(old(View()), table, walk(table.Keys))
      decreases 1, 2
    {
      hide CallbackList.Valid, P.RunCallback, GoodPlan;
      var names := walk(table.Keys);
      assert P.Lists(names, table.Keys);
      var i := 0;
      assert names[0..] == names;
      while i < |names|
        invariant 0 <= i <= |names| && Valid() && !freed && !inCallback && P.Closing(View())
        invariant fresh(replies.repr - old(replies.repr)) && fresh(invalid.repr - old(invalid.repr))
        invariant P.Farewell(View(), table, names[i..]) == P.Farewell(old(View()), table, names)
      {
        assert names[i..][0] == names[i] && names[i..][1..] == names[i + 1..];
        P.RunQueue(View(), table[names[i]], None);
        RunCallback(table[names[i]], None);
        i := i + 1;
      }
      assert names[i..] == [];
    }

    /** The first two loops of __redisAsyncFree. */
    method FlushQueues()
      requires Valid() && !freed && !inCallback && P.Closing(View())
      modifies this, replies, invalid, replies.repr, invalid.repr
      ensures Valid() && fresh(replies.repr - old(replies.repr)) && fresh(invalid.repr - old(invalid.repr))
      ensures View() == P.DrainInvalid(P.DrainReplies(old(View())))
      decreases 1, 3
    {
      hide CallbackList.Valid, P.DrainReplies, P.DrainInvalid, GoodPlan, P.Walks;
      FlushReplies();
      FlushInvalid();
    }

    /** The context and its tables are released. */
    method Release()
      requires Valid()
      modifies `channels, `patterns, `freed
      ensures Valid() && View() == old(View()).(channels := map[], patterns := map[], freed := true)
    {
      hide CallbackList.Valid, P.Walks, GoodPlan;
      channels, patterns, freed := map[], map[], true;
    }

    /** __redisAsyncFree: the queues and the tables are emptied, every callback running with NULL. */
    method FreeContext()
      requires Valid() && !freed && !inCallback && P.Closing(View())
      modifies this, replies, invalid, replies.repr, invalid.repr
      ensures Valid() && fresh(replies.repr - old(replies.repr)) && fresh(invalid.repr - old(invalid.repr))
      ensures View() == P.FreeContext(old(View()), walk)
      decreases 1, 4
    {
      hide CallbackList.Valid, P.DrainReplies, P.DrainInvalid, P.Farewell, GoodPlan, P.Lists;
      FlushQueues();
      FlushTable(channels);
      FlushTable(patterns);
      Release();
    }

    /** redisAsyncFree: from a callback only the flag is set. */
    method Free()
      requires Valid() && !freed
      modifies this, replies, invalid, replies.repr, invalid.repr
      ensures Valid() && fresh(replies.repr - old(replies.repr)) && fresh(invalid.repr - old(invalid.repr))
      ensures View() == if old(inCallback) then old(View()).(freeing := true) else P.Free(old(View()), walk)
      decreases if inCallback then 0 else 1, 6
    {
      hide CallbackList.Valid, P.FreeContext, GoodPlan, P.Walks;
      freeing := true;
      if !inCallback {
        FreeContext();
      }
    }

    /** __redisAsyncDisconnect. */
    method DisconnectNow()
      requires Valid() && !freed && !inCallback && (!err ==> replies.contents == [] && P.Closing(View()))
      modifies this, replies, invalid, replies.repr, invalid.repr
      ensures Valid() && fresh(replies.repr - old(replies.repr)) && fresh(invalid.repr - old(invalid.repr))
      ensures View() == P.DisconnectNow(old(View()), walk)
      decreases 1, 5
    {
      hide CallbackList.Valid, P.FreeContext, GoodPlan, P.Walks;
      if !err {
        var ret := replies.Shift();
        assert ret.None?;
      } else {
        disconnecting := true;
      }
      if !noAutoFree {
        FreeContext();
      }
    }

    /** No new commands from now on, and the context is to be freed. */
    method StartDisconnect()
      requires Valid()
      modifies `disconnecting, `noAutoFree
      ensures Valid() && View() == old(View()).(disconnecting := true, noAutoFree := false)
    {
      hide CallbackList.Valid, GoodPlan, P.Walks;
      disconnecting, noAutoFree := true, false;
    }

    /** redisAsyncDisconnect: from a callback only the flags are set. */
    method Disconnect()
      requires Valid() && !freed
      modifies this, replies, invalid, replies.repr, invalid.repr
      ensures Valid() && fresh(replies.repr - old(replies.repr)) && fresh(invalid.repr - old(invalid.repr))
      ensures old(inCallback) ==> View() == old(View()).(disconnecting := true, noAutoFree := false)
      ensures !old(inCallback) ==> View() == P.Disconnect(old(View()), walk)
      decreases if inCallback then 0 else 1, 6
    {
      hide CallbackList.Valid, P.DisconnectNow, GoodPlan, P.Walks;
      StartDisconnect();
      if !inCallback && replies.Empty() {
        DisconnectNow();
      }
    }

    /** An error of the connection is recorded, and ends it. */
    method Fail()
      requires Valid() && !freed && !inCallback
      modifies this, replies, invalid, replies.repr, invalid.repr
      ensures Valid() && fresh(replies.repr - old(replies.repr)) && fresh(invalid.repr - old(invalid.repr))
      ensures View() == P.DisconnectNow(old(View()).(err := true), walk)
    {
      hide CallbackList.Valid, P.DisconnectNow, GoodPlan, P.Walks;
      SetError();
      DisconnectNow();
    }

    /** __redisSetError. */
    method SetError()
      requires Valid()
      modifies `err
      ensures Valid() && View() == old(View()).(err := true)
    {
      hide CallbackList.Valid, GoodPlan, P.Walks;
      err := true;
    }

    /** An assertion fails. */
    method Abort()
      requires Valid()
      modifies `aborted
      ensures Valid() && View() == old(View()).(aborted := true)
    {
      hide CallbackList.Valid, GoodPlan, P.Walks;
      aborted := true;
    }

    /** The reader yields a reply. */
    ghost method Receive(reply: Reply)
      requires Valid()
      modifies `log
      ensures Valid() && View() == P.Received(old(View()), reply)
    {
      hide CallbackList.Valid, GoodPlan, P.Walks;
      log := log.(received := log.received + [reply]);
    }

    // ----- Replies -----

    /**
     The entry of a push message: a subscribe reply is counted, an unsubscribe reply removes an entry
     that waits for no more. False if the assertion on the count of an unsubscribe reply fails.
     */
    method UpdateEntry(m: P.Message, stale: Callback) returns (ok: bool, cb: Callback)
      requires Valid()
      modifies `channels, `patterns, `subscribed
      ensures Valid() && ok == !(P.HasEntry(old(View()), m) && m.kind == P.Drops(None))
      ensures ok ==>
        && channels == P.TableAfter(old(channels), m, false) && patterns == P.TableAfter(old(patterns), m, true)
        && subscribed == (old(subscribed) && !P.EndsSubscription(old(View()), m))
        && cb == P.MessageCallback(old(View()), m, stale)
      ensures !ok ==> View() == old(View())
    {
      hide CallbackList.Valid, P.Walks, GoodPlan;
      var callbacks := if m.pattern then patterns else channels;
      if m.name !in callbacks {
        return true, stale;
      }
      cb := callbacks[m.name];
      if m.kind.Confirms? {
        cb := cb.(pending := cb.pending - 1);
        callbacks := callbacks[m.name := cb];
      }
      if m.kind.Drops? {
        if m.kind.count == None {
          return false, stale;
        }
        if cb.pending == 0 {
          callbacks := callbacks - {m.name};
        }
      }
      if m.pattern {
        patterns := callbacks;
      } else {
        channels := callbacks;
      }
      if m.kind.Drops? && m.kind.count.value == 0 && channels == map[] && patterns == map[] {
        subscribed := false;
      }
      ok := true;
    }

    /** The oldest doubtful callback, or what the variable held. */
    method TakeDoubtful(stale: Callback) returns (cb: Callback)
      requires Valid()
      modifies invalid
      ensures Valid() && invalid.repr == old(invalid.repr)
      ensures View() == if old(invalid.contents) == [] then old(View()) else old(View()).(invalid := old(invalid.contents)[1..])
      ensures cb == if old(invalid.contents) == [] then stale else old(invalid.contents)[0]
    {
      hide CallbackList.Valid, P.Walks, GoodPlan;
      var doubtful := invalid.Shift();
      return if doubtful.Some? then doubtful.value else stale;
    }

    /** __redisGetSubscribeCallback; false if an assertion fails. */
    method GetSubscribeCallback(reply: Reply, stale: Callback) returns (ok: bool, cb: Callback)
      requires Valid()
      modifies `channels, `patterns, `subscribed, `log, invalid
      ensures Valid() && replies.repr == old(replies.repr) && invalid.repr == old(invalid.repr)
      ensures ok == P.GetSubscribeCallback(old(View()), reply, stale).Chosen?
      ensures ok ==> P.GetSubscribeCallback(old(View()), reply, stale) == P.Chosen(View(), cb)
      ensures !ok ==> View() == old(View())
    {
      hide CallbackList.Valid, P.Walks, GoodPlan, P.TableAfter, P.AwaitedAfter, P.EndsSubscription, P.Expected, P.KindOf,
        P.HasEntry, P.MessageCallback, P.Pushed, P.MessageOf, P.WellFormed;
      if !reply.Array? {
        cb := TakeDoubtful(stale);
        return true, cb;
      }
      if !P.WellFormed(reply) {
        return false, stale;
      }
      var m := P.MessageOf(reply);
      ghost var before := View();
      ok, cb := UpdateEntry(m, stale);
      if ok {
        log := P.Pushed(before, m).log;
        PushedFields(before, m, View());
      }
    }

    /** The callback that a reply goes to; false if an assertion fails. */
    method Route(reply: Reply, stale: Callback) returns (ok: bool, cb: Callback)
      requires Valid() && (replies.contents != [] || subscribed || monitoring)
      modifies `channels, `patterns, `subscribed, `log, replies, invalid
      ensures Valid() && replies.repr == old(replies.repr) && invalid.repr == old(invalid.repr)
      ensures ok == P.Route(old(View()), reply, stale).Chosen?
      ensures ok ==> P.Route(old(View()), reply, stale) == P.Chosen(View(), cb)
      ensures !ok ==> View() == old(View())
    {
      hide CallbackList.Valid, P.Walks, GoodPlan, P.GetSubscribeCallback;
      var target := replies.Shift();
      if target.Some? {
        log := log.(delivered := log.delivered + [P.Delivery(target.value, Some(reply))]);
        return true, target.value;
      }
      if subscribed {
        ok, cb := GetSubscribeCallback(reply, stale);
      } else {
        ok, cb := true, stale;
      }
    }

    /** The callback of a reply runs; a callback that called for it has the context freed afterwards. */
    method Deliver(cb: Callback, reply: Reply) returns (over: bool)
      requires Valid() && !freed && !inCallback
      modifies this, replies, invalid, replies.repr, invalid.repr
      ensures Valid() && fresh(replies.repr - old(replies.repr)) && fresh(invalid.repr - old(invalid.repr))
      ensures P.Deliver(old(View()), cb, reply, walk) == if over then P.Over(View()) else P.Next(View(), cb)
    {
      hide CallbackList.Valid, P.Walks, GoodPlan, P.RunCallback, P.FreeContext;
      P.RunQueue(View(), cb, Some(reply));
      over := false;
      if cb.fn == None {
        NullRunsNothing(View(), cb, Some(reply));
      } else {
        RunCallback(cb, Some(reply));
        if freeing {
          FreeContext();
          over := true;
        }
      }
    }

    /** The end of a turn: the callback is found and runs, or an assertion fails. */
    method RouteAndDeliver(reply: Reply, stale: Callback) returns (over: bool, cb: Callback)
      requires Valid() && !freed && !inCallback && (replies.contents != [] || subscribed || monitoring)
      modifies this, replies, invalid, replies.repr, invalid.repr
      ensures Valid() && fresh(replies.repr - old(replies.repr)) && fresh(invalid.repr - old(invalid.repr))
      ensures match P.Route(old(View()), reply, stale)
        case AssertionFails => over && View() == old(View()).(aborted := true)
        case Chosen(s, found) => P.Deliver(s, found, reply, walk) == if over then P.Over(View()) else P.Next(View(), cb)
    {
      hide CallbackList.Valid, P.Walks, GoodPlan, P.RunCallback, P.FreeContext, P.Deliver, P.Route;
      var ok;
      ok, cb := Route(reply, stale);
      if ok {
        over := Deliver(cb, reply);
      } else {
        Abort();
        over := true;
      }
    }

    /** One turn of redisProcessCallbacks. */
    method OneReply(reply: Reply, stale: Callback) returns (over: bool, cb: Callback)
      requires Valid() && !freed && !inCallback
      modifies this, replies, invalid, replies.repr, invalid.repr
      ensures Valid() && fresh(replies.repr - old(replies.repr)) && fresh(invalid.repr - old(invalid.repr))
      ensures P.OneReply(old(View()), reply, stale, walk) == if over then P.Over(View()) else P.Next(View(), cb)
    {
      hide CallbackList.Valid, P.Walks, GoodPlan, P.RunCallback, P.FreeContext, P.DisconnectNow, P.Deliver, P.Route;
      cb := stale;
      if replies.Empty() && reply.Error? {
        Fail();
        return true, cb;
      }
      if replies.Empty() && !subscribed && !monitoring {
        Abort();
        return true, cb;
      }
      over, cb := RouteAndDeliver(reply, stale);
    }

    /** The replies the reader yields have run out. */
    method Idle(bad: bool, cb: Callback)
      requires Valid() && !freed && !inCallback
      modifies this, replies, invalid, replies.repr, invalid.repr
      ensures Valid() && fresh(replies.repr - old(replies.repr)) && fresh(invalid.repr - old(invalid.repr))
      ensures View() == P.Idle(old(View()), bad, cb, walk)
    {
      hide CallbackList.Valid, P.Walks, GoodPlan, P.DisconnectNow;
      if bad {
        Fail();
      } else if disconnecting && obuf == [] && replies.Empty() {
        DisconnectNow();
      } else if monitoring {
        replies.Push(cb);
      }
    }

    /** redisProcessCallbacks. */
    method ProcessCallbacks(incoming: seq<Reply>, bad: bool)
      requires Valid() && !freed && !inCallback
      modifies this, replies, invalid, replies.repr, invalid.repr
      ensures Valid() && fresh(replies.repr - old(replies.repr)) && fresh(invalid.repr - old(invalid.repr))
      ensures View() == P.ProcessCallbacks(old(View()), incoming, bad, P.NULL_CALLBACK, walk)
    {
      hide CallbackList.Valid, P.Walks, GoodPlan, P.OneReply, P.Idle, P.Received;
      var cb := P.NULL_CALLBACK;
      var i := 0;
      assert incoming[0..] == incoming;
      while i < |incoming|
        invariant 0 <= i <= |incoming| && Valid() && !freed && !inCallback
        invariant fresh(replies.repr - old(replies.repr)) && fresh(invalid.repr - old(invalid.repr))
        invariant P.ProcessCallbacks(View(), incoming[i..], bad, cb, walk) ==
          P.ProcessCallbacks(old(View()), incoming, bad, P.NULL_CALLBACK, walk)
      {
        assert incoming[i..][0] == incoming[i] && incoming[i..][1..] == incoming[i + 1..];
        Receive(incoming[i]);
        var over;
        over, cb := OneReply(incoming[i], cb);
        if over {
          return;
        }
        i := i + 1;
      }
      assert incoming[i..] == [];
      Idle(bad, cb);
    }

    // ----- Events -----

    /** The guard of redisAsyncHandleRead and redisAsyncHandleWrite. */
    method HandleConnect(connecting: P.Connecting)
      requires Valid() && !freed && !inCallback
      modifies this, replies, invalid, replies.repr, invalid.repr
      ensures Valid() && fresh(replies.repr - old(replies.repr)) && fresh(invalid.repr - old(invalid.repr))
      ensures View() == P.HandleConnect(old(View()), connecting, walk)
    {
      hide CallbackList.Valid, P.Walks, GoodPlan, P.DisconnectNow;
      if !connected {
        match connecting {
          case Refused =>
            Fail();
          case InProgress =>
          case Established => connected := true;
        }
      }
    }

    /** redisAsyncHandleRead. */
    method HandleRead(connecting: P.Connecting, input: P.Input)
      requires Valid() && !freed && !inCallback
      modifies this, replies, invalid, replies.repr, invalid.repr
      ensures Valid() && fresh(replies.repr - old(replies.repr)) && fresh(invalid.repr - old(invalid.repr))
      ensures View() == P.HandleRead(old(View()), connecting, input, walk)
    {
      hide CallbackList.Valid, P.Walks, GoodPlan, P.DisconnectNow, P.HandleConnect, P.ProcessCallbacks;
      HandleConnect(connecting);
      if !connected {
        return;
      }
      if err || input.ReadFails? {
        Fail();
      } else {
        ProcessCallbacks(input.replies, input.bad);
      }
    }

    /** redisBufferWrite, when the socket took so many bytes. */
    method Sent(count: nat)
      requires Valid()
      modifies `obuf, `log
      ensures Valid() && View() == P.Sent(old(View()), count)
    {
      hide CallbackList.Valid, GoodPlan, P.Walks, P.Sent;
      var n := if count <= |obuf| then count else |obuf|;
      ghost var before := View();
      log := P.Sent(before, count).log;
      obuf := obuf[n..];
      SentFields(before, count, n, View());
    }

    /** redisAsyncHandleWrite. */
    method HandleWrite(connecting: P.Connecting, output: P.Output)
      requires Valid() && !freed && !inCallback
      modifies this, replies, invalid, replies.repr, invalid.repr
      ensures Valid() && fresh(replies.repr - old(replies.repr)) && fresh(invalid.repr - old(invalid.repr))
      ensures View() == P.HandleWrite(old(View()), connecting, output, walk)
    {
      hide CallbackList.Valid, P.Walks, GoodPlan, P.DisconnectNow, P.HandleConnect, P.Sent;
      HandleConnect(connecting);
      if !connected {
        return;
      }
      if err || output.WriteFails? {
        Fail();
      } else {
        Sent(output.count);
      }
    }

    /** redisAsyncHandleTimeout, its loop for so many turns. */
    method HandleTimeout(turns: nat)
      requires Valid() && !freed && !inCallback
      modifies this, replies, invalid, replies.repr, invalid.repr
      ensures Valid() && fresh(replies.repr - old(replies.repr)) && fresh(invalid.repr - old(invalid.repr))
      ensures View() == P.HandleTimeout(old(View()), turns, walk)
    {
      hide CallbackList.Valid, P.Walks, GoodPlan, P.DisconnectNow, P.Drained;
      if connected && replies.Empty() {
        return;
      }
      SetError();
      var ended := FlushTurns(turns);
      if ended {
        DisconnectNow();
      } else {
        GoOn();
      }
    }

    /** The loop is not watched any further. */
    method GoOn()
      requires Valid()
      modifies `looping
      ensures Valid() && View() == old(View()).(looping := true)
    {
      hide CallbackList.Valid, GoodPlan, P.Walks;
      looping := true;
    }

    /** One event, from outside any callback. */
    method Handle(e: P.Event)
      requires Valid() && !freed && !inCallback && (e.UserCommand? ==> Fits(e.argv))
      modifies this, replies, invalid, replies.repr, invalid.repr
      ensures Valid() && fresh(replies.repr - old(replies.repr)) && fresh(invalid.repr - old(invalid.repr))
      ensures View() == P.Handle(old(View()), e, walk)
    {
      hide CallbackList.Valid, P.Walks, GoodPlan, Commands.Command, P.HandleRead, P.HandleWrite, P.HandleTimeout, P.Submit,
        P.Free, P.Disconnect;
      match e {
        case ReadReady(connecting, input) => HandleRead(connecting, input);
        case WriteReady(connecting, output) => HandleWrite(connecting, output);
        case Timeout(turns) => HandleTimeout(turns);
        case UserCommand(fn, data, argv) => var _ := CommandArgv(fn, data, argv);
        case UserFree => Free();
        case UserDisconnect => Disconnect();
      }
    }
  }

  lemma {:induction false} PushedFields(s: P.State, m: P.Message, r: P.State)
    requires r == s.(channels := P.TableAfter(s.channels, m, false), patterns := P.TableAfter(s.patterns, m, true),
                     subscribed := s.subscribed && !P.EndsSubscription(s, m), log := P.Pushed(s, m).log)
    ensures r == P.Pushed(s, m)
  {
    hide P.TableAfter, P.EndsSubscription, P.AwaitedAfter, P.Expected;
  }

  lemma {:induction false} SentFields(s: P.State, count: nat, n: nat, r: P.State)
    requires n == (if count <= |s.obuf| then count else |s.obuf|)
    requires r == s.(obuf := s.obuf[n..], log := P.Sent(s, count).log)
    ensures r == P.Sent(s, count)
  {
  }

  lemma {:induction false} NullRunsNothing(s: P.State, cb: Callback, reply: Option<Reply>)
    requires !s.inCallback && cb.fn == None
    ensures P.RunCallback(s, cb, reply) == s
  {
  }

  /** What registering a command does, branch by branch. */
  lemma {:induction false} RegisteredFields(s: P.State, cb: Callback, argv: seq<Bytes>, r: P.State)
    requires r == s.(
      subscribed := s.subscribed || Classify(argv).Subscribe?, monitoring := s.monitoring || Classify(argv).Monitor?,
      obuf := s.obuf + Commands.Command(argv), replies := r.replies, invalid := r.invalid,
      channels := r.channels, patterns := r.patterns, log := P.LogOf(s, cb, argv))
    requires r.replies == s.replies +
      if Classify(argv).Monitor? || (Classify(argv).Regular? && !s.subscribed) then [cb] else []
    requires r.invalid == s.invalid + if Classify(argv).Regular? && s.subscribed then [cb] else []
    requires r.patterns == if Classify(argv) == Subscribe(true) then SubscribeAll(s.patterns, cb, argv[1..]) else s.patterns
    requires r.channels == if Classify(argv) == Subscribe(false) then SubscribeAll(s.channels, cb, argv[1..]) else s.channels
    ensures r == P.Registered(s, cb, argv)
  {
    hide Classify, Commands.Command, P.LogOf;
  }

  lemma {:induction false} NextEvent(s: P.State, events: seq<P.Event>, i: nat, walk: P.Walk)
    requires P.Walks(walk) && !s.inCallback && !P.Ended(s) && i < |events|
    ensures P.Run(s, events[i..], walk) == P.Run(P.Handle(s, events[i], walk), events[i + 1..], walk)
  {
    hide P.Handle;
    assert events[i..][0] == events[i] && events[i..][1..] == events[i + 1..];
  }

  lemma {:induction false} EndOfRun(s: P.State, events: seq<P.Event>, walk: P.Walk)
    requires P.Walks(walk) && !s.inCallback && (P.Ended(s) || events == [])
    ensures P.Run(s, events, walk) == s
  {
  }

  /**
   A context from its creation through any events, until it is freed, an assertion fails or a timeout
   goes on looping: it goes through the run that the theorems about runs speak of.
   */
  method Serve(noAutoFree: bool, plan: P.Plan, walk: P.Walk, events: seq<P.Event>) returns (ac: AsyncContext)
    requires P.Walks(walk) && GoodPlan(plan)
    requires forall i :: 0 <= i < |events| && events[i].UserCommand? ==> Fits(events[i].argv)
    ensures fresh(ac) && ac.View() == P.Run(P.Start(noAutoFree, plan), events, walk)
  {
    hide CallbackList.Valid, P.Walks, GoodPlan, P.Handle, P.Run;
    ac := new AsyncContext(noAutoFree, plan, walk);
    var i := 0;
    assert events[0..] == events;
    while i < |events| && !(ac.freed || ac.aborted || ac.looping)
      invariant 0 <= i <= |events| && ac.Valid() && ac.walk == walk && !ac.inCallback && fresh(ac.Repr())
      invariant P.Run(ac.View(), events[i..], walk) == P.Run(P.Start(noAutoFree, plan), events, walk)
    {
      NextEvent(ac.View(), events, i, walk);
      ac.Handle(events[i]);
      i := i + 1;
    }
    EndOfRun(ac.View(), events[i..], walk);
  }
}
