/**
 The callback protocol of async.c as a state machine on values: what each function of the file does
 to the context. Callbacks are given by their plan: the k-th callback that runs makes the calls
 plan(k) on the context, without end, so a theorem about every plan is a theorem about every set of
 callbacks.
 */
module AsyncProtocol {
  import opened ByteStrings
  import opened RespGrammar
  import opened RespEncode
  import Commands
  import opened PubSub

  type Argv = seq<Bytes>

  /** The calls a callback can make on its context. */
  datatype Action =
    | Issue(fn: Option<int>, data: int, argv: Argv)
    | CallFree
    | CallDisconnect

  type Plan = nat -> seq<Action>

  /** A callback taken off the queue of pending replies, with the reply it got, or None for NULL. */
  datatype Delivery = Delivery(cb: Callback, reply: Option<Reply>)

  /** One run of a callback function. */
  datatype Call = Call(fn: int, data: int, reply: Option<Reply>)

  datatype Issued = Issued(cb: Callback, argv: Argv)

  /** What has happened so far. */
  datatype Log = Log(
    issued: seq<Issued>,
    accepted: seq<Callback>,
    delivered: seq<Delivery>,
    received: seq<Reply>,
    calls: seq<Call>,
    wire: Bytes,
    channelsAwaited: multiset<Bytes>,
    patternsAwaited: multiset<Bytes>,
    inOrder: bool,
    clean: bool)

  /**
   The fields of redisAsyncContext and of the redisContext inside it that the protocol uses; the plan
   and the number of callback runs so far; and how the context may end: freed, in a failed assertion,
   or in the loop of a timeout that is still going on.
   */
  datatype State = State(
    connected: bool,
    disconnecting: bool,
    freeing: bool,
    inCallback: bool,
    subscribed: bool,
    monitoring: bool,
    noAutoFree: bool,
    err: bool,
    obuf: Bytes,
    replies: seq<Callback>,
    invalid: seq<Callback>,
    channels: Table,
    patterns: Table,
    plan: Plan,
    runs: nat,
    freed: bool,
    aborted: bool,
    looping: bool,
    log: Log)

  /** The order in which a table's iterator yields its entries. */
  type Walk = set<Bytes> -> seq<Bytes>

  ghost predicate Walks(walk: Walk) {
    forall keys: set<Bytes> :: Lists(walk(keys), keys)
  }

  /** Any set can be listed. */
  ghost function Listing(keys: set<Bytes>): (order: seq<Bytes>)
    ensures Lists(order, keys)
  {
    if keys == {} then []
    else
      var k :| k in keys;
      var rest := Listing(keys - {k});
      assert forall i :: 0 <= i < |rest| ==> rest[i] in keys - {k};
      [k] + rest
  }

  /** There is such an order. */
  lemma {:induction false} SomeWalk()
    ensures exists walk: Walk :: Walks(walk)
  {
    var walk: Walk := keys => Listing(keys);
    assert Walks(walk);
  }

  ghost predicate Lists(order: seq<Bytes>, keys: set<Bytes>) {
    && (forall k :: k in order <==> k in keys)
    && (forall i, j :: 0 <= i < j < |order| ==> order[i] != order[j])
  }

  const NULL_CALLBACK := Callback(None, 0, 0)

  function Start(noAutoFree: bool, plan: Plan): State {
    State(false, false, false, false, false, false, noAutoFree, false, [], [], [], map[], map[], plan, 0, false, false, false,
          Log([], [], [], [], [], [], multiset{}, multiset{}, true, true))
  }

  /** New commands are refused. */
  predicate Closing(s: State) {
    s.disconnecting || s.freeing
  }

  // ----- Commands -----

  /** The names a command subscribes to in the table of channels, or of patterns. */
  function NamesFor(pattern: bool, argv: Argv): seq<Bytes> {
    if Classify(argv) == Subscribe(pattern) then argv[1..] else []
  }

  /** What a command adds to the queue of pending replies. */
  function Joining(s: State, cb: Callback, argv: Argv): seq<Callback> {
    if Classify(argv).Monitor? || (Classify(argv).Regular? && !s.subscribed) then [cb] else []
  }

  /** In subscribed mode an ordinary command is likely to be refused: its callback is kept apart. */
  function Doubtful(s: State, cb: Callback, argv: Argv): seq<Callback> {
    if Classify(argv).Regular? && s.subscribed then [cb] else []
  }

  /** An accepted command is registered, and its bytes join the output buffer. */
  function Registered(s: State, cb: Callback, argv: Argv): State {
    s.(subscribed := s.subscribed || Classify(argv).Subscribe?,
       monitoring := s.monitoring || Classify(argv).Monitor?,
       obuf := s.obuf + Commands.Command(argv),
       replies := s.replies + Joining(s, cb, argv),
       invalid := s.invalid + Doubtful(s, cb, argv),
       channels := SubscribeAll(s.channels, cb, NamesFor(false, argv)),
       patterns := SubscribeAll(s.patterns, cb, NamesFor(true, argv)),
       log := LogOf(s, cb, argv))
  }

  function LogOf(s: State, cb: Callback, argv: Argv): Log {
    s.log.(issued := s.log.issued + [Issued(cb, argv)],
           accepted := s.log.accepted + Joining(s, cb, argv),
           channelsAwaited := s.log.channelsAwaited + multiset(NamesFor(false, argv)),
           patternsAwaited := s.log.patternsAwaited + multiset(NamesFor(true, argv)),
           clean := s.log.clean && Clean(s.channels, cb, NamesFor(false, argv)) && Clean(s.patterns, cb, NamesFor(true, argv)))
  }

  predicate Accepts(s: State, argv: Argv) {
    !Closing(s) && (Classify(argv) == Unsubscribe ==> s.subscribed)
  }

  /** __redisAsyncCommand: a refused command changes nothing. */
  function Submit(s: State, fn: Option<int>, data: int, argv: Argv): State {
    if Accepts(s, argv) then Registered(s, Callback(fn, data, 1), argv) else s
  }

  // ----- Callbacks -----

  /** A call made from inside a callback: freeing and disconnecting only leave their flags. */
  function Act(s: State, a: Action): State {
    match a
    case Issue(fn, data, argv) => Submit(s, fn, data, argv)
    case CallFree => s.(freeing := true)
    case CallDisconnect => s.(disconnecting := true, noAutoFree := false)
  }

  function Acts(s: State, actions: seq<Action>): State
    decreases |actions|
  {
    if actions == [] then s else Acts(Act(s, actions[0]), actions[1..])
  }

  /** Control passes to a callback function. */
  function Entering(s: State, call: Call): State {
    s.(inCallback := true, runs := s.runs + 1, log := s.log.(calls := s.log.calls + [call]))
  }

  /** __redisRunCallback. */
  function RunCallback(s: State, cb: Callback, reply: Option<Reply>): State
    requires !s.inCallback
  {
    if cb.fn == None then s
    else Acts(Entering(s, Call(cb.fn.value, cb.data, reply)), s.plan(s.runs)).(inCallback := false)
  }

  /** Taking the oldest callback off the queue, for this reply. */
  function Shifted(s: State, reply: Option<Reply>): State
    requires s.replies != []
  {
    s.(replies := s.replies[1..], log := s.log.(delivered := s.log.delivered + [Delivery(s.replies[0], reply)]))
  }

  /** The number of commands among the calls. */
  function Issues(actions: seq<Action>): nat {
    if actions == [] then 0 else (if actions[0].Issue? then 1 else 0) + Issues(actions[1..])
  }

  /** What no callback changes. */
  ghost predicate Untouched(s: State, r: State) {
    && r.connected == s.connected && r.err == s.err && r.freed == s.freed && r.aborted == s.aborted
    && r.looping == s.looping && r.plan == s.plan && r.inCallback == s.inCallback && r.log.received == s.log.received && r.log.wire == s.log.wire
    && (Closing(s) ==> Closing(r)) && (s.freeing ==> r.freeing)
  }

  /** What one call made by a callback does to the queues: at most one more callback, none when closing. */
  ghost predicate QueuesGrow(s: State, r: State, most: nat) {
    && |s.replies| <= |r.replies| <= |s.replies| + most
    && r.runs == s.runs && r.log.delivered == s.log.delivered && Untouched(s, r)
    && (Closing(s) ==> r.replies == s.replies && r.invalid == s.invalid)
  }

  lemma {:induction false} LogOfLeaves(s: State, cb: Callback, argv: Argv)
    ensures var log := LogOf(s, cb, argv);
      log.delivered == s.log.delivered && log.received == s.log.received && log.wire == s.log.wire
    ensures |Joining(s, cb, argv)| <= 1
  {
    hide Clean, Classify, NamesFor;
  }

  lemma {:induction false} SubmitQueue(s: State, fn: Option<int>, data: int, argv: Argv)
    ensures QueuesGrow(s, Submit(s, fn, data, argv), 1)
  {
    hide Registered;
    RegisteredQueue(s, Callback(fn, data, 1), argv);
  }

  lemma {:induction false} RegisteredQueue(s: State, cb: Callback, argv: Argv)
    ensures var r := Registered(s, cb, argv);
      && r.replies == s.replies + Joining(s, cb, argv) && |Joining(s, cb, argv)| <= 1
      && r.runs == s.runs && r.log.delivered == s.log.delivered && Untouched(s, r)
  {
    hide SubscribeAll, Classify, Commands.Command, NamesFor, LogOf, Joining, Doubtful;
    LogOfLeaves(s, cb, argv);
  }

  lemma {:induction false} ActQueue(s: State, a: Action)
    ensures QueuesGrow(s, Act(s, a), if a.Issue? then 1 else 0)
  {
    hide Submit;
    match a
    case Issue(fn, data, argv) => SubmitQueue(s, fn, data, argv);
    case CallFree =>
    case CallDisconnect =>
  }

  lemma {:induction false} ActsQueue(s: State, actions: seq<Action>)
    ensures QueuesGrow(s, Acts(s, actions), Issues(actions))
    decreases |actions|
  {
    hide Act;
    if actions != [] {
      ActQueue(s, actions[0]);
      ActsQueue(Act(s, actions[0]), actions[1..]);
    }
  }

  lemma {:induction false} RunQueue(s: State, cb: Callback, reply: Option<Reply>)
    requires !s.inCallback
    ensures var r := RunCallback(s, cb, reply);
      && |s.replies| <= |r.replies| <= |s.replies| + (if cb.fn == None then 0 else Issues(s.plan(s.runs)))
      && Untouched(s, r) && r.log.delivered == s.log.delivered
      && (Closing(s) ==> r.replies == s.replies && r.invalid == s.invalid)
  {
    hide Acts;
    if cb.fn != None {
      ActsQueue(Entering(s, Call(cb.fn.value, cb.data, reply)), s.plan(s.runs));
    }
  }

  // ----- Teardown -----

  /** A loop that runs the queued callbacks with NULL replies has emptied the queue, or is going on. */
  datatype Drain = Emptied(state: State) | Going(state: State)

  /** One turn: the oldest callback runs with NULL. */
  function DrainTurn(s: State): (r: State)
    requires s.replies != [] && !s.inCallback
    ensures Untouched(s, r) && (Closing(s) ==> r.replies == s.replies[1..] && r.invalid == s.invalid)
  {
    RunQueue(Shifted(s, None), s.replies[0], None);
    RunCallback(Shifted(s, None), s.replies[0], None)
  }

  /** That many turns of the loop, which also runs the callbacks that are queued meanwhile. */
  function Drained(s: State, turns: nat): (d: Drain)
    requires !s.inCallback
    ensures Untouched(s, d.state) && (d.Emptied? <==> d.state.replies == [])
    decreases turns
  {
    if s.replies == [] then Emptied(s) else if turns == 0 then Going(s) else Drained(DrainTurn(s), turns - 1)
  }

  /** While commands are refused, the loop ends after as many turns as there are callbacks. */
  lemma {:induction false} ClosingDrains(s: State, turns: nat)
    requires Closing(s) && !s.inCallback && turns >= |s.replies|
    ensures Drained(s, turns).Emptied? && Drained(s, turns).state.invalid == s.invalid
    decreases turns
  {
    hide DrainTurn;
    if s.replies != [] {
      ClosingDrains(DrainTurn(s), turns - 1);
    }
  }

  /** The first loop of __redisAsyncFree. */
  function DrainReplies(s: State): (r: State)
    requires Closing(s) && !s.inCallback
    ensures r.replies == [] && r.invalid == s.invalid && Untouched(s, r)
  {
    ClosingDrains(s, |s.replies|);
    Drained(s, |s.replies|).state
  }

  function DrainInvalid(s: State): (r: State)
    requires Closing(s) && !s.inCallback
    ensures Untouched(s, r) && r.replies == s.replies && r.invalid == []
    decreases |s.invalid|
  {
    if s.invalid == [] then s
    else
      var cb, rest := s.invalid[0], s.(invalid := s.invalid[1..]);
      RunQueue(rest, cb, None);
      DrainInvalid(RunCallback(rest, cb, None))
  }

  /** The callbacks of a table's entries run with a NULL reply. */
  function Farewell(s: State, table: Table, names: seq<Bytes>): (r: State)
    requires Closing(s) && !s.inCallback && forall n :: n in names ==> n in table
    ensures Untouched(s, r) && r.replies == s.replies && r.invalid == s.invalid
    decreases |names|
  {
    if names == [] then s
    else
      RunQueue(s, table[names[0]], None);
      Farewell(RunCallback(s, table[names[0]], None), table, names[1..])
  }

  /** __redisAsyncFree: only on a context that refuses commands, is not freed yet and is in no callback. */
  function FreeContext(s: State, walk: Walk): (r: State)
    requires Walks(walk) && Closing(s) && !s.freed && !s.inCallback
    ensures r.freed && r.replies == [] && Untouched(s, r.(freed := false))
  {
    var s2 := DrainInvalid(DrainReplies(s));
    assert Lists(walk(s2.channels.Keys), s2.channels.Keys);
    var s3 := Farewell(s2, s2.channels, walk(s2.channels.Keys));
    assert Lists(walk(s3.patterns.Keys), s3.patterns.Keys);
    var s4 := Farewell(s3, s3.patterns, walk(s3.patterns.Keys));
    s4.(channels := map[], patterns := map[], freed := true)
  }

  /** redisAsyncFree outside a callback. */
  function Free(s: State, walk: Walk): (r: State)
    requires Walks(walk) && !s.freed && !s.inCallback
    ensures !r.inCallback
  {
    FreeContext(s.(freeing := true), walk)
  }

  /** __redisAsyncDisconnect: a clean disconnect has no callback left to run. */
  function DisconnectNow(s: State, walk: Walk): (r: State)
    requires Walks(walk) && !s.freed && !s.inCallback && (!s.err ==> s.replies == [] && Closing(s))
    ensures Closing(r) && !r.inCallback && (r.freed || s.noAutoFree)
    ensures r.connected == s.connected && r.aborted == s.aborted && r.looping == s.looping && (s.freeing ==> r.freeing)
  {
    var s1 := if s.err then s.(disconnecting := true) else s;
    if s1.noAutoFree then s1 else FreeContext(s1, walk)
  }

  /** redisAsyncDisconnect outside a callback. */
  function Disconnect(s: State, walk: Walk): (r: State)
    requires Walks(walk) && !s.freed && !s.inCallback
    ensures !r.inCallback
  {
    var s1 := s.(disconnecting := true, noAutoFree := false);
    if s1.replies == [] then DisconnectNow(s1, walk) else s1
  }

  // ----- Replies -----

  /** A C string ends at its first NUL. */
  function CString(b: Bytes): Bytes {
    if b == [] || b[0] == NUL then [] else [b[0]] + CString(b[1..])
  }

  /** strcasecmp with a lower-case word. */
  predicate SameWord(b: Bytes, word: Bytes) {
    |CString(b)| == |word| && StartsAt(CString(b), 0, word)
  }

  /** The array replies that __redisGetSubscribeCallback looks into without failing an assertion. */
  predicate WellFormed(reply: Reply) {
    reply.Array? && |reply.elements| >= 2 && reply.elements[0].Bulk? && reply.elements[1].Bulk?
  }

  /** A subscribe reply, an unsubscribe reply with its count if that is an integer, or anything else. */
  datatype MessageKind = Confirms | Drops(count: Option<int>) | Announces

  datatype Message = Message(pattern: bool, kind: MessageKind, name: Bytes)

  function MessageOf(reply: Reply): Message
    requires WellFormed(reply)
  {
    var stype := CString(reply.elements[0].text);
    Message(PVariant(stype), KindOf(BareName(stype), reply.elements), reply.elements[1].text)
  }

  function KindOf(word: Bytes, elements: seq<Reply>): MessageKind {
    if SameWord(word, SUBSCRIBE) then Confirms
    else if SameWord(word, UNSUBSCRIBE) then
      Drops(if |elements| > 2 && elements[2].Integer? then Some(elements[2].number) else None)
    else Announces
  }

  /** The table of channels or of patterns after a message; one for the other table leaves it as it is. */
  function TableAfter(table: Table, m: Message, pattern: bool): Table {
    if m.pattern != pattern || m.name !in table then table
    else if m.kind.Confirms? then table[m.name := table[m.name].(pending := table[m.name].pending - 1)]
    else if m.kind.Drops? && table[m.name].pending == 0 then table - {m.name}
    else table
  }

  /** The subscribe replies still to come after a message. */
  function AwaitedAfter(awaited: multiset<Bytes>, m: Message, pattern: bool): multiset<Bytes> {
    if m.pattern == pattern && m.kind.Confirms? then awaited - multiset{m.name} else awaited
  }

  /** Whether the message is no subscribe reply that nobody waits for. */
  predicate Expected(awaited: multiset<Bytes>, m: Message, pattern: bool) {
    m.pattern == pattern && m.kind.Confirms? ==> m.name in awaited
  }

  predicate HasEntry(s: State, m: Message) {
    m.name in if m.pattern then s.patterns else s.channels
  }

  function EntryOf(s: State, m: Message): Callback
    requires HasEntry(s, m)
  {
    if m.pattern then s.patterns[m.name] else s.channels[m.name]
  }

  /** The last unsubscribe reply ends the subscribed mode, unless some entry is left. */
  predicate EndsSubscription(s: State, m: Message) {
    && HasEntry(s, m) && m.kind == Drops(Some(0))
    && TableAfter(s.channels, m, false) == map[] && TableAfter(s.patterns, m, true) == map[]
  }

  function Pushed(s: State, m: Message): State {
    s.(channels := TableAfter(s.channels, m, false),
       patterns := TableAfter(s.patterns, m, true),
       subscribed := s.subscribed && !EndsSubscription(s, m),
       log := s.log.(
         channelsAwaited := AwaitedAfter(s.log.channelsAwaited, m, false),
         patternsAwaited := AwaitedAfter(s.log.patternsAwaited, m, true),
         inOrder := s.log.inOrder && Expected(s.log.channelsAwaited, m, false) && Expected(s.log.patternsAwaited, m, true)))
  }

  /** The context and the callback to run after a push message, or the failing assertion. */
  datatype Lookup = Chosen(state: State, cb: Callback) | AssertionFails

  ghost predicate KeepsContext(s: State, found: Lookup) {
    found.Chosen? ==> Untouched(s, found.state)
  }

  /** The entry's callback, as it is once a subscribe reply is counted, or what the variable held before. */
  function MessageCallback(s: State, m: Message, stale: Callback): Callback {
    if !HasEntry(s, m) then stale
    else
      var cb := EntryOf(s, m);
      if m.kind.Confirms? then cb.(pending := cb.pending - 1) else cb
  }

  /** __redisGetSubscribeCallback; `stale` is what the callback variable held before. */
  function GetSubscribeCallback(s: State, reply: Reply, stale: Callback): (found: Lookup)
    ensures KeepsContext(s, found)
  {
    if !reply.Array? then
      if s.invalid == [] then Chosen(s, stale) else Chosen(s.(invalid := s.invalid[1..]), s.invalid[0])
    else if !WellFormed(reply) then AssertionFails
    else
      var m := MessageOf(reply);
      if HasEntry(s, m) && m.kind == Drops(None) then AssertionFails
      else Chosen(Pushed(s, m), MessageCallback(s, m, stale))
  }

  /** The callback that a reply goes to, when the connection survives it. */
  function Route(s: State, reply: Reply, stale: Callback): (found: Lookup)
    ensures KeepsContext(s, found)
    requires s.replies != [] || s.subscribed || s.monitoring
  {
    if s.replies != [] then Chosen(Shifted(s, Some(reply)), s.replies[0])
    else if s.subscribed then GetSubscribeCallback(s, reply, stale)
    else Chosen(s, stale)
  }

  function Received(s: State, reply: Reply): State {
    s.(log := s.log.(received := s.log.received + [reply]))
  }

  /** The end of redisProcessCallbacks, when the reader has no further reply. */
  function Idle(s: State, bad: bool, cb: Callback, walk: Walk): (r: State)
    requires Walks(walk) && !s.freed && !s.inCallback
    ensures !r.inCallback
  {
    if bad then DisconnectNow(s.(err := true), walk)
    else if s.disconnecting && s.obuf == [] && s.replies == [] then DisconnectNow(s, walk)
    else if s.monitoring then s.(replies := s.replies + [cb])
    else s
  }

  /** After one reply, the loop of redisProcessCallbacks is over, or goes on with this callback variable. */
  datatype Turn = Over(state: State) | Next(state: State, cb: Callback)

  /** The callback of a reply runs; a callback that called for it has the context freed afterwards. */
  function Deliver(s: State, cb: Callback, reply: Reply, walk: Walk): (t: Turn)
    requires Walks(walk) && !s.freed && !s.inCallback
    ensures !t.state.inCallback && (t.Next? ==> !t.state.freed)
  {
    RunQueue(s, cb, Some(reply));
    var s1 := RunCallback(s, cb, Some(reply));
    if cb.fn != None && s1.freeing then Over(FreeContext(s1, walk)) else Next(s1, cb)
  }

  /** One reply: an error nobody asked for ends the connection. */
  function OneReply(s: State, reply: Reply, cb: Callback, walk: Walk): (t: Turn)
    requires Walks(walk) && !s.freed && !s.inCallback
    ensures !t.state.inCallback && (t.Next? ==> !t.state.freed)
  {
    if s.replies == [] && reply.Error? then Over(DisconnectNow(s.(err := true), walk))
    else if s.replies == [] && !s.subscribed && !s.monitoring then Over(s.(aborted := true))
    else
      var found := Route(s, reply, cb);
      if found.AssertionFails? then Over(s.(aborted := true)) else Deliver(found.state, found.cb, reply, walk)
  }

  /**
   redisProcessCallbacks, on the replies the reader yields before it runs dry or, if `bad`, reports
   an error; `cb` is the callback variable, which keeps its value from one reply to the next.
   */
  function ProcessCallbacks(s: State, incoming: seq<Reply>, bad: bool, cb: Callback, walk: Walk): (r: State)
    requires Walks(walk) && !s.freed && !s.inCallback
    ensures !r.inCallback
    decreases |incoming|
  {
    if incoming == [] then Idle(s, bad, cb, walk)
    else
      var t := OneReply(Received(s, incoming[0]), incoming[0], cb, walk);
      if t.Over? then t.state else ProcessCallbacks(t.state, incoming[1..], bad, t.cb, walk)
  }

  // ----- Events -----

  /** What the socket reports of the connection attempt. */
  datatype Connecting = Refused | InProgress | Established

  /** What a read brings: a failure, or the replies that are now complete and whether an error follows. */
  datatype Input = ReadFails | Replies(replies: seq<Reply>, bad: bool)

  datatype Output = WriteFails | Written(count: nat)

  /**
   What the event loop and the application call from outside any callback; of a timeout's loop that
   many turns are watched.
   */
  datatype Event =
    | ReadReady(connecting: Connecting, input: Input)
    | WriteReady(connecting: Connecting, output: Output)
    | Timeout(turns: nat)
    | UserCommand(fn: Option<int>, data: int, argv: Argv)
    | UserFree
    | UserDisconnect

  /** __redisAsyncHandleConnect, if not connected yet. */
  function HandleConnect(s: State, connecting: Connecting, walk: Walk): (r: State)
    requires Walks(walk) && !s.freed && !s.inCallback
    ensures !r.inCallback && (r.connected ==> !r.freed)
  {
    if s.connected then s
    else
      match connecting
      case Refused => DisconnectNow(s.(err := true), walk)
      case InProgress => s
      case Established => s.(connected := true)
  }

  function HandleRead(s: State, connecting: Connecting, input: Input, walk: Walk): (r: State)
    requires Walks(walk) && !s.freed && !s.inCallback
    ensures !r.inCallback
  {
    var s1 := HandleConnect(s, connecting, walk);
    if !s1.connected then s1
    else if s1.err || input.ReadFails? then DisconnectNow(s1.(err := true), walk)
    else ProcessCallbacks(s1, input.replies, input.bad, NULL_CALLBACK, walk)
  }

  function Sent(s: State, count: nat): State {
    var n := if count <= |s.obuf| then count else |s.obuf|;
    s.(obuf := s.obuf[n..], log := s.log.(wire := s.log.wire + s.obuf[..n]))
  }

  function HandleWrite(s: State, connecting: Connecting, output: Output, walk: Walk): (r: State)
    requires Walks(walk) && !s.freed && !s.inCallback
    ensures !r.inCallback
  {
    var s1 := HandleConnect(s, connecting, walk);
    if !s1.connected then s1
    else if s1.err || output.WriteFails? then DisconnectNow(s1.(err := true), walk)
    else Sent(s1, output.count)
  }

  /** Nothing is expected from a connected server without callbacks to answer. */
  predicate IdleTimeout(s: State) {
    s.connected && s.replies == []
  }

  function HandleTimeout(s: State, turns: nat, walk: Walk): (r: State)
    requires Walks(walk) && !s.freed && !s.inCallback
    ensures !r.inCallback
  {
    if IdleTimeout(s) then s
    else
      match Drained(s.(err := true), turns)
      case Emptied(d) => DisconnectNow(d, walk)
      case Going(d) => d.(looping := true)
  }

  function Handle(s: State, e: Event, walk: Walk): (r: State)
    requires Walks(walk) && !s.freed && !s.inCallback
    ensures !r.inCallback
  {
    match e
    case ReadReady(connecting, input) => HandleRead(s, connecting, input, walk)
    case WriteReady(connecting, output) => HandleWrite(s, connecting, output, walk)
    case Timeout(turns) => HandleTimeout(s, turns, walk)
    case UserCommand(fn, data, argv) => SubmitQueue(s, fn, data, argv); Submit(s, fn, data, argv)
    case UserFree => Free(s, walk)
    case UserDisconnect => Disconnect(s, walk)
  }

  /** The context takes no further event. */
  predicate Ended(s: State) {
    s.freed || s.aborted || s.looping
  }

  /** A run: events until the context ends. */
  function Run(s: State, events: seq<Event>, walk: Walk): State
    requires Walks(walk) && !s.inCallback
    decreases |events|
  {
    if events == [] || Ended(s) then s
    else Run(Handle(s, events[0], walk), events[1..], walk)
  }
}
