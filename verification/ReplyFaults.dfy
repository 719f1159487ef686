/**
 Replies that go wrong although the server answers in order: runs in which a reply reaches another
 callback or none, and the pipelines of UNSUBSCRIBE on which the client fails an assertion.
 */
module ReplyFaults {
  import opened ByteStrings
  import opened RespGrammar
  import opened PubSub
  import opened AsyncProtocol
  import opened AsyncSafety
  import opened AsyncRuns
  import Commands

  // ----- Messages of the server -----

  const MESSAGE: Bytes := [109, 101, 115, 115, 97, 103, 101]

  function Push(word: Bytes, name: Bytes, last: Reply): Reply {
    Array([Bulk(word), Bulk(name), last])
  }

  function Published(name: Bytes, text: Bytes): Reply {
    Push(MESSAGE, name, Bulk(text))
  }

  function Subscribed(name: Bytes, count: int): Reply {
    Push(SUBSCRIBE, name, Integer(count))
  }

  function Unsubscribed(pattern: bool, name: Bytes, left: int): Reply {
    Push(if pattern then [LOWER_P] + UNSUBSCRIBE else UNSUBSCRIBE, name, Integer(left))
  }

  lemma {:induction false} CStringSame(b: Bytes)
    requires NUL !in b
    ensures CString(b) == b
  {
    if b != [] {
      assert b[0] in b;
      CStringSame(b[1..]);
    }
  }

  lemma {:induction false} PushIs(word: Bytes, name: Bytes, last: Reply)
    requires NUL !in word
    ensures var reply := Push(word, name, last);
      && reply.Array? && !reply.Error? && WellFormed(reply)
      && MessageOf(reply) == Message(PVariant(word), AsyncProtocol.KindOf(BareName(word), [Bulk(word), Bulk(name), last]), name)
  {
    CStringSame(word);
    hide CString, AsyncProtocol.KindOf;
  }

  lemma {:induction false} SameWordIff(word: Bytes)
    requires NUL !in word
    ensures SameWord(word, SUBSCRIBE) == StartsWith(word, SUBSCRIBE)
    ensures SameWord(word, UNSUBSCRIBE) == StartsWith(word, UNSUBSCRIBE)
  {
    CStringSame(word);
    hide CString;
  }

  predicate StartsWith(word: Bytes, other: Bytes) {
    |word| == |other| && StartsAt(word, 0, other)
  }

  lemma {:induction false} MessageIs(name: Bytes, text: Bytes, count: int)
    ensures var m, c := Published(name, text), Subscribed(name, count);
      && m.Array? && WellFormed(m) && MessageOf(m) == Message(false, Announces, name)
      && c.Array? && WellFormed(c) && MessageOf(c) == Message(false, Confirms, name)
  {
    hide MessageOf, WellFormed, SameWord;
    PushIs(MESSAGE, name, Bulk(text));
    PushIs(SUBSCRIBE, name, Integer(count));
    SameWordIff(MESSAGE);
    SameWordIff(SUBSCRIBE);
  }

  lemma {:induction false} UnsubscribedIs(pattern: bool, name: Bytes, left: int)
    ensures var u := Unsubscribed(pattern, name, left);
      u.Array? && WellFormed(u) && MessageOf(u) == Message(pattern, Drops(Some(left)), name)
  {
    hide MessageOf, WellFormed, SameWord;
    var word := if pattern then [LOWER_P] + UNSUBSCRIBE else UNSUBSCRIBE;
    PushIs(word, name, Integer(left));
    assert BareName(word) == UNSUBSCRIBE;
    SameWordIff(UNSUBSCRIBE);
  }

  // ----- Callbacks that make no calls -----

  /** No callback makes a call, nothing is queued, and the context goes on. */
  ghost predicate Quiet(s: State) {
    && !s.inCallback && !Ended(s) && !Closing(s) && !s.err && forall k: nat :: s.plan(k) == []
  }

  /** The state after a callback that makes no call. */
  function Told(s: State, cb: Callback, reply: Reply): State {
    if cb.fn == None then s else Entering(s, Call(cb.fn.value, cb.data, Some(reply))).(inCallback := false)
  }

  lemma {:induction false} QuietDelivery(s: State, cb: Callback, reply: Reply, walk: Walk)
    requires Walks(walk) && Quiet(s)
    ensures Deliver(s, cb, reply, walk) == Next(Told(s, cb, reply), cb) && Quiet(Told(s, cb, reply))
  {
    hide FreeContext;
    if cb.fn.Some? {
      QuietRun(s, Call(cb.fn.value, cb.data, Some(reply)));
    }
  }

  lemma {:induction false} QuietRun(s: State, call: Call)
    requires Quiet(s)
    ensures Acts(Entering(s, call), s.plan(s.runs)) == Entering(s, call) && Quiet(Entering(s, call).(inCallback := false))
  {
    assert s.plan(s.runs) == [];
  }

  /** A push message that fails no assertion. */
  lemma {:induction false} PushTurn(s: State, reply: Reply, cb: Callback, walk: Walk)
    requires Walks(walk) && Quiet(s) && s.subscribed && s.replies == [] && reply.Array? && WellFormed(reply)
    requires MessageOf(reply).kind != Drops(None)
    ensures var m := MessageOf(reply);
      var p, c := Pushed(s, m), MessageCallback(s, m, cb);
      OneReply(s, reply, cb, walk) == Next(Told(p, c, reply), c) && Quiet(Told(p, c, reply))
  {
    hide MessageOf, WellFormed, TableAfter, AwaitedAfter, Expected, EndsSubscription, Deliver, DisconnectNow, MessageCallback;
    var m := MessageOf(reply);
    QuietDelivery(Pushed(s, m), MessageCallback(s, m, cb), reply, walk);
  }

  /** A reply for the head of the queue. */
  lemma {:induction false} QueueTurn(s: State, reply: Reply, cb: Callback, walk: Walk)
    requires Walks(walk) && Quiet(s) && s.replies != []
    ensures var p, c := Shifted(s, Some(reply)), s.replies[0];
      OneReply(s, reply, cb, walk) == Next(Told(p, c, reply), c) && Quiet(Told(p, c, reply))
  {
    hide Deliver, DisconnectNow;
    QuietDelivery(Shifted(s, Some(reply)), s.replies[0], reply, walk);
  }

  /** A line in monitor mode. */
  lemma {:induction false} LineTurn(s: State, reply: Reply, cb: Callback, walk: Walk)
    requires Walks(walk) && Quiet(s) && s.replies == [] && s.monitoring && !s.subscribed && !reply.Error?
    ensures OneReply(s, reply, cb, walk) == Next(Told(s, cb, reply), cb) && Quiet(Told(s, cb, reply))
  {
    hide Deliver, DisconnectNow;
    QuietDelivery(s, cb, reply, walk);
  }

  lemma {:induction false} OneMore(s: State, reply: Reply, later: seq<Reply>, cb: Callback, walk: Walk)
    requires Walks(walk) && !s.freed && !s.inCallback
    ensures var t := OneReply(Received(s, reply), reply, cb, walk);
      ProcessCallbacks(s, [reply] + later, false, cb, walk) ==
        if t.Over? then t.state else ProcessCallbacks(t.state, later, false, t.cb, walk)
  {
    hide OneReply;
    assert ([reply] + later)[0] == reply && ([reply] + later)[1..] == later;
  }

  // ----- UNSUBSCRIBE in a pipeline -----

  /** One name of an UNSUBSCRIBE or PUNSUBSCRIBE. */
  datatype Unsubscription = Unsubscription(pattern: bool, name: Bytes)

  function Left(names: set<Bytes>, u: Unsubscription, pattern: bool): set<Bytes> {
    if u.pattern == pattern then names - {u.name} else names
  }

  /** What a server that is subscribed to these channels and patterns answers. */
  function ServerAnswers(channels: set<Bytes>, patterns: set<Bytes>, us: seq<Unsubscription>): seq<Reply> {
    if us == [] then []
    else
      var c, p := Left(channels, us[0], false), Left(patterns, us[0], true);
      [Unsubscribed(us[0].pattern, us[0].name, |c| + |p|)] + ServerAnswers(c, p, us[1..])
  }

  /** Some name is taken away behind the one that was the last subscription. */
  predicate Outlives(channels: set<Bytes>, patterns: set<Bytes>, us: seq<Unsubscription>)
    decreases |us|
  {
    us != [] &&
    var c, p := Left(channels, us[0], false), Left(patterns, us[0], true);
    if c == {} == p && !(channels == {} == patterns) then |us| > 1 else Outlives(c, p, us[1..])
  }

  /** Every subscription of the table has been confirmed. */
  predicate Confirmed(table: Table) {
    forall name :: name in table ==> table[name].pending == 0
  }

  /** The client's bookkeeping follows the server's. */
  lemma {:induction false} FollowsServer(s: State, u: Unsubscription)
    requires s.subscribed && Confirmed(s.channels) && Confirmed(s.patterns)
    ensures var c, p := Left(s.channels.Keys, u, false), Left(s.patterns.Keys, u, true);
      var m := Message(u.pattern, Drops(Some(|c| + |p|)), u.name);
      var tc, tp := TableAfter(s.channels, m, false), TableAfter(s.patterns, m, true);
      && tc.Keys == c && tp.Keys == p && Confirmed(tc) && Confirmed(tp)
      && (EndsSubscription(s, m) <==> c == {} == p && !(s.channels.Keys == {} == s.patterns.Keys))
  {
    hide Confirmed, TableAfter, EndsSubscription, Left;
    var c, p := Left(s.channels.Keys, u, false), Left(s.patterns.Keys, u, true);
    var m := Message(u.pattern, Drops(Some(|c| + |p|)), u.name);
    KeysAfter(s.channels, m, false);
    KeysAfter(s.patterns, m, true);
    EndsWithLast(s, m, c, p);
  }

  /** Subscribed mode ends with the last entry of both tables. */
  lemma {:induction false} EndsWithLast(s: State, m: Message, c: set<Bytes>, p: set<Bytes>)
    requires m.kind == Drops(Some(|c| + |p|))
    requires c == Left(s.channels.Keys, Unsubscription(m.pattern, m.name), false)
    requires p == Left(s.patterns.Keys, Unsubscription(m.pattern, m.name), true)
    requires TableAfter(s.channels, m, false).Keys == c && TableAfter(s.patterns, m, true).Keys == p
    ensures EndsSubscription(s, m) <==> c == {} == p && !(s.channels.Keys == {} == s.patterns.Keys)
  {
    hide TableAfter;
    NoKeys(TableAfter(s.channels, m, false));
    NoKeys(TableAfter(s.patterns, m, true));
    assert |c| + |p| == 0 <==> c == {} && p == {};
  }

  lemma {:induction false} NoKeys(table: Table)
    ensures table == map[] <==> table.Keys == {}
  {
  }

  lemma {:induction false} KeysAfter(table: Table, m: Message, pattern: bool)
    requires Confirmed(table) && m.kind.Drops?
    ensures var r := TableAfter(table, m, pattern);
      r.Keys == Left(table.Keys, Unsubscription(m.pattern, m.name), pattern) && Confirmed(r)
  {
  }

  /** A quiet client whose tables hold these names, all confirmed. */
  ghost predicate Knows(s: State, channels: set<Bytes>, patterns: set<Bytes>) {
    && Quiet(s) && !s.monitoring && s.replies == [] && Confirmed(s.channels) && Confirmed(s.patterns)
    && s.channels.Keys == channels && s.patterns.Keys == patterns
  }

  lemma {:induction false} ToldKnows(s: State, m: Message, cb: Callback, reply: Reply, channels: set<Bytes>, patterns: set<Bytes>)
    requires Quiet(Told(Pushed(s, m), cb, reply)) && !s.monitoring && s.replies == [] && s.subscribed
    requires var tc, tp := TableAfter(s.channels, m, false), TableAfter(s.patterns, m, true);
      Confirmed(tc) && Confirmed(tp) && tc.Keys == channels && tp.Keys == patterns
    ensures Knows(Told(Pushed(s, m), cb, reply), channels, patterns)
    ensures Told(Pushed(s, m), cb, reply).subscribed == !EndsSubscription(s, m)
  {
    hide TableAfter, EndsSubscription, Confirmed, Quiet, Told, Pushed;
    PushedFields(s, m);
    ToldFields(Pushed(s, m), cb, reply);
  }

  lemma {:induction false} PushedFields(s: State, m: Message)
    ensures var r := Pushed(s, m);
      && r.channels == TableAfter(s.channels, m, false) && r.patterns == TableAfter(s.patterns, m, true)
      && r.monitoring == s.monitoring && r.replies == s.replies && r.subscribed == (s.subscribed && !EndsSubscription(s, m))
  {
    hide TableAfter, AwaitedAfter, Expected, EndsSubscription;
  }

  lemma {:induction false} ToldFields(s: State, cb: Callback, reply: Reply)
    ensures var r := Told(s, cb, reply);
      && r.channels == s.channels && r.patterns == s.patterns && r.replies == s.replies
      && r.monitoring == s.monitoring && r.subscribed == s.subscribed
  {
    hide Entering;
    if cb.fn.Some? {
      EnteringFields(s, Call(cb.fn.value, cb.data, Some(reply)));
    }
  }

  lemma {:induction false} EnteringFields(s: State, call: Call)
    ensures var r := Entering(s, call);
      && r.channels == s.channels && r.patterns == s.patterns && r.replies == s.replies
      && r.monitoring == s.monitoring && r.subscribed == s.subscribed
  {
  }

  lemma {:induction false} ToldCalls(s: State, cb: Callback, reply: Reply)
    ensures Told(s, cb, reply).log.calls == s.log.calls + CallFor(cb, Some(reply))
  {
    assert s.log.calls + [] == s.log.calls;
  }

  /** One answer of the server to an UNSUBSCRIBE. */
  lemma {:induction false} UnsubscribeTurn(s: State, u: Unsubscription, cb: Callback, walk: Walk)
    requires Walks(walk) && Knows(s, s.channels.Keys, s.patterns.Keys) && s.subscribed
    ensures var c, p := Left(s.channels.Keys, u, false), Left(s.patterns.Keys, u, true);
      var reply := Unsubscribed(u.pattern, u.name, |c| + |p|);
      var t := OneReply(Received(s, reply), reply, cb, walk);
      && t.Next? && Knows(t.state, c, p)
      && (t.state.subscribed <==> !(c == {} == p && !(s.channels.Keys == {} == s.patterns.Keys)))
  {
    hide OneReply, Confirmed, Unsubscribed, WellFormed, MessageOf, Left, Told, Pushed, MessageCallback, TableAfter, EndsSubscription;
    var c, p := Left(s.channels.Keys, u, false), Left(s.patterns.Keys, u, true);
    var reply := Unsubscribed(u.pattern, u.name, |c| + |p|);
    var s0 := Received(s, reply);
    UnsubscribedIs(u.pattern, u.name, |c| + |p|);
    PushTurn(s0, reply, cb, walk);
    FollowsServer(s0, u);
    ToldKnows(s0, MessageOf(reply), MessageCallback(s0, MessageOf(reply), cb), reply, c, p);
  }

  /**
   The exact condition: a client whose subscriptions are confirmed and whose server answers a pipeline of
   UNSUBSCRIBE in order fails its assertion if and only if some name follows that of the last subscription.
   */
  lemma {:induction false} PipelineAbortsIff(s: State, us: seq<Unsubscription>, cb: Callback, walk: Walk)
    requires Walks(walk) && Knows(s, s.channels.Keys, s.patterns.Keys) && s.subscribed
    ensures ProcessCallbacks(s, ServerAnswers(s.channels.Keys, s.patterns.Keys, us), false, cb, walk).aborted
      <==> Outlives(s.channels.Keys, s.patterns.Keys, us)
    decreases |us|
  {
    hide OneReply, Confirmed, Unsubscribed, Left;
    if us != [] {
      var u := us[0];
      var c, p := Left(s.channels.Keys, u, false), Left(s.patterns.Keys, u, true);
      var reply, later := Unsubscribed(u.pattern, u.name, |c| + |p|), ServerAnswers(c, p, us[1..]);
      OneMore(s, reply, later, cb, walk);
      UnsubscribeTurn(s, u, cb, walk);
      var t := OneReply(Received(s, reply), reply, cb, walk);
      if t.state.subscribed {
        PipelineAbortsIff(t.state, us[1..], t.cb, walk);
      } else {
        AfterTheLast(t.state, c, p, us[1..], t.cb, walk);
      }
    }
  }

  /** With the subscriptions gone, another answer fails the assertion. */
  lemma {:induction false} AfterTheLast(s: State, c: set<Bytes>, p: set<Bytes>, us: seq<Unsubscription>, cb: Callback, walk: Walk)
    requires Walks(walk) && Quiet(s) && !s.subscribed && !s.monitoring && s.replies == []
    ensures ProcessCallbacks(s, ServerAnswers(c, p, us), false, cb, walk).aborted <==> us != []
  {
    if us != [] {
      var answers := ServerAnswers(c, p, us);
      assert !answers[0].Error?;
    }
  }

  // ----- Runs -----

  /** A lower-case word is recognised as itself. */
  lemma {:induction false} WordIsItself(word: Bytes)
    requires forall i :: 0 <= i < |word| ==> Lower(word[i]) == word[i]
    ensures Names(word, word)
  {
  }

  lemma {:induction false} IsSubscribe(bar: Bytes)
    ensures Classify([SUBSCRIBE, bar]) == Subscribe(false) && [SUBSCRIBE, bar][1..] == [bar]
  {
    WordIsItself(SUBSCRIBE);
  }

  lemma {:induction false} IsUnsubscribe(foo: Bytes)
    ensures Classify([UNSUBSCRIBE, foo]) == Unsubscribe
  {
    WordIsItself(UNSUBSCRIBE);
    assert UNSUBSCRIBE[0] == 117 && SUBSCRIBE[0] == 115;
    assert (UNSUBSCRIBE + CRLF)[0] == 117 && (SUBSCRIBE + CRLF)[0] == 115;
  }

  /** What a connected context is before anything happens. */
  function Connected(): State {
    Start(false, k => []).(connected := true)
  }

  const CONNECT := ReadReady(Established, Replies([], false))

  lemma {:induction false} Connects(walk: Walk)
    requires Walks(walk)
    ensures Handle(Start(false, k => []), CONNECT, walk) == Connected() && Quiet(Start(false, k => [])) && Quiet(Connected())
  {
  }

  lemma {:induction false} OneEvent(s: State, e: Event, later: seq<Event>, walk: Walk)
    requires Walks(walk) && !s.inCallback && !Ended(s)
    ensures Run(s, [e] + later, walk) == Run(Handle(s, e, walk), later, walk)
  {
    hide Handle;
    assert ([e] + later)[0] == e && ([e] + later)[1..] == later;
  }

  /** The client has subscribed to one channel, with this entry. */
  ghost predicate Listens(s: State, bar: Bytes, entry: Callback) {
    Quiet(s) && s.connected && s.subscribed && !s.monitoring && s.replies == [] && s.patterns == map[] && s.channels == map[bar := entry]
  }

  lemma {:induction false} Subscribes(s: State, bar: Bytes, fn: int, walk: Walk)
    requires Walks(walk) && s == Connected()
    ensures var r := Handle(s, UserCommand(Some(fn), 0, [SUBSCRIBE, bar]), walk);
      Listens(r, bar, Callback(Some(fn), 0, 1)) && r.log.calls == []
  {
    IsSubscribe(bar);
    hide Classify, Commands.Command, Clean;
    assert SubscribeAll(map[], Callback(Some(fn), 0, 1), [bar]) == map[bar := Callback(Some(fn), 0, 1)] by {
      assert [bar][1..] == [];
    }
    assert SubscribeAll(map[], Callback(Some(fn), 0, 1), []) == map[];
  }

  lemma {:induction false} Unsubscribes(s: State, bar: Bytes, entry: Callback, foo: Bytes, walk: Walk)
    requires Walks(walk) && Listens(s, bar, entry)
    ensures var r := Handle(s, UserCommand(None, 0, [UNSUBSCRIBE, foo]), walk);
      Listens(r, bar, entry) && r.log.calls == s.log.calls
  {
    IsUnsubscribe(foo);
    hide Classify, Commands.Command, Clean;
    assert s.replies + [] == s.replies && s.invalid + [] == s.invalid;
  }

  /** A message on a client that listens, which does not end its subscription. */
  lemma {:induction false} ListenTurn(s: State, reply: Reply, cb: Callback, bar: Bytes, entry: Callback, entry': Callback, walk: Walk)
    requires Walks(walk) && Listens(s, bar, entry) && reply.Array? && WellFormed(reply)
    requires var m := MessageOf(reply);
      && !m.pattern && m.kind != Drops(None) && TableAfter(s.channels, m, false) == map[bar := entry']
      && entry'.fn.Some? && MessageCallback(s, m, cb) == entry'
    ensures var t := OneReply(Received(s, reply), reply, cb, walk);
      && t.Next? && t.cb == entry' && Listens(t.state, bar, entry')
      && t.state.log.calls == s.log.calls + [Call(entry'.fn.value, entry'.data, Some(reply))]
  {
    hide OneReply, MessageOf, WellFormed, Told, Pushed, MessageCallback, TableAfter;
    var m, s0 := MessageOf(reply), Received(s, reply);
    SameLookup(s, s0, m, cb);
    PushTurn(s0, reply, cb, walk);
    PushedFields(s0, m);
    PushedRest(s0, m);
    ToldFields(Pushed(s0, m), entry', reply);
    ToldCalls(Pushed(s0, m), entry', reply);
    ToldConnected(Pushed(s0, m), entry', reply);
    assert bar in map[bar := entry'];
  }

  lemma {:induction false} SameLookup(s: State, r: State, m: Message, cb: Callback)
    requires r == s.(log := r.log)
    ensures MessageCallback(r, m, cb) == MessageCallback(s, m, cb)
  {
  }

  lemma {:induction false} PushedRest(s: State, m: Message)
    ensures Pushed(s, m).log.calls == s.log.calls && Pushed(s, m).connected == s.connected
    ensures s.patterns == map[] ==> TableAfter(s.patterns, m, true) == map[]
    ensures EndsSubscription(s, m) ==> TableAfter(s.channels, m, false) == map[]
  {
  }

  lemma {:induction false} ToldConnected(s: State, cb: Callback, reply: Reply)
    ensures Told(s, cb, reply).connected == s.connected
  {
  }

  /** What a message does to the table, and which callback it finds. */
  lemma {:induction false} ListenLookup(s: State, m: Message, cb: Callback, bar: Bytes, entry: Callback)
    requires Listens(s, bar, entry) && !m.pattern
    ensures m.name == bar && m.kind.Confirms? ==>
      var e := entry.(pending := entry.pending - 1); TableAfter(s.channels, m, false) == map[bar := e] && MessageCallback(s, m, cb) == e
    ensures m.name == bar && m.kind.Announces? ==>
      TableAfter(s.channels, m, false) == map[bar := entry] && MessageCallback(s, m, cb) == entry
    ensures m.name != bar ==> TableAfter(s.channels, m, false) == map[bar := entry] && MessageCallback(s, m, cb) == cb
  {
    hide Quiet;
  }

  /** In one read: the confirmation for `bar`, a message for it, and the answer about `foo`, which has no entry. */
  lemma {:induction false} ThreeMessages(s: State, bar: Bytes, foo: Bytes, x: Bytes, fn: int, walk: Walk)
    requires Walks(walk) && Listens(s, bar, Callback(Some(fn), 0, 1)) && foo != bar && s.log.calls == []
    ensures var c, m, u := Subscribed(bar, 1), Published(bar, x), Unsubscribed(false, foo, 1);
      ProcessCallbacks(s, [c, m, u], false, NULL_CALLBACK, walk).log.calls ==
        [Call(fn, 0, Some(c)), Call(fn, 0, Some(m)), Call(fn, 0, Some(u))]
  {
    hide OneReply, MessageOf, WellFormed, Published, Subscribed, Unsubscribed, TableAfter, MessageCallback;
    var c, m, u := Subscribed(bar, 1), Published(bar, x), Unsubscribed(false, foo, 1);
    var entry, ready := Callback(Some(fn), 0, 1), Callback(Some(fn), 0, 0);
    MessageIs(bar, x, 1);
    UnsubscribedIs(false, foo, 1);
    ListenLookup(s, MessageOf(c), NULL_CALLBACK, bar, entry);
    ListenTurn(s, c, NULL_CALLBACK, bar, entry, ready, walk);
    OneMore(s, c, [m, u], NULL_CALLBACK, walk);
    var s1 := OneReply(Received(s, c), c, NULL_CALLBACK, walk).state;
    ListenLookup(s1, MessageOf(m), ready, bar, ready);
    ListenTurn(s1, m, ready, bar, ready, ready, walk);
    OneMore(s1, m, [u], ready, walk);
    var s2 := OneReply(Received(s1, m), m, ready, walk).state;
    ListenLookup(s2, MessageOf(u), ready, bar, ready);
    ListenTurn(s2, u, ready, bar, ready, ready, walk);
    OneMore(s2, u, [], ready, walk);
    var s3 := OneReply(Received(s2, u), u, ready, walk).state;
    assert [c] + [m, u] == [c, m, u] && [m] + [u] == [m, u] && [u] + [] == [u];
    LastIsIdle(s3, ready, walk);
  }

  lemma {:induction false} LastIsIdle(s: State, cb: Callback, walk: Walk)
    requires Walks(walk) && Quiet(s)
    ensures ProcessCallbacks(s, [], false, cb, walk) == if s.monitoring then s.(replies := s.replies + [cb]) else s
  {
  }

  /** A read of a connected context processes its replies. */
  lemma {:induction false} ReadsReplies(s: State, replies: seq<Reply>, walk: Walk)
    requires Walks(walk) && Quiet(s) && s.connected
    ensures Handle(s, ReadReady(Established, Replies(replies, false)), walk) ==
      ProcessCallbacks(s, replies, false, NULL_CALLBACK, walk)
  {
    hide ProcessCallbacks;
  }

  /**
   A client subscribed to `bar` that unsubscribes from `foo`: the server's answer about `foo`, read
   together with a message for `bar`, runs the callback of `bar` once more.
   */
  lemma {:induction false} ForeignReplyRunsEntry(bar: Bytes, foo: Bytes, x: Bytes, fn: int, walk: Walk)
    requires Walks(walk) && foo != bar
    ensures var c, m, u := Subscribed(bar, 1), Published(bar, x), Unsubscribed(false, foo, 1);
      var events := [CONNECT, UserCommand(Some(fn), 0, [SUBSCRIBE, bar]), UserCommand(None, 0, [UNSUBSCRIBE, foo]),
                     ReadReady(Established, Replies([c, m, u], false))];
      Run(Start(false, k => []), events, walk).log.calls ==
        [Call(fn, 0, Some(c)), Call(fn, 0, Some(m)), Call(fn, 0, Some(u))]
  {
    hide Handle, Published, Subscribed, Unsubscribed;
    var c, m, u := Subscribed(bar, 1), Published(bar, x), Unsubscribed(false, foo, 1);
    var e2, e3 := UserCommand(Some(fn), 0, [SUBSCRIBE, bar]), UserCommand(None, 0, [UNSUBSCRIBE, foo]);
    var e4 := ReadReady(Established, Replies([c, m, u], false));
    Connects(walk);
    var s0, s1 := Start(false, k => []), Connected();
    Subscribes(s1, bar, fn, walk);
    var s2 := Handle(s1, e2, walk);
    Unsubscribes(s2, bar, Callback(Some(fn), 0, 1), foo, walk);
    var s3 := Handle(s2, e3, walk);
    ReadsReplies(s3, [c, m, u], walk);
    ThreeMessages(s3, bar, foo, x, fn, walk);
    FourEvents(s0, CONNECT, e2, e3, e4, walk);
  }

  lemma {:induction false} FourEvents(s: State, a: Event, b: Event, c: Event, d: Event, walk: Walk)
    requires Walks(walk) && Quiet(s) && Quiet(Handle(s, a, walk))
    requires var s2 := Handle(Handle(s, a, walk), b, walk); Quiet(s2) && Quiet(Handle(s2, c, walk))
    ensures Run(s, [a, b, c, d], walk) == Handle(Handle(Handle(Handle(s, a, walk), b, walk), c, walk), d, walk)
  {
    hide Handle;
    var s1 := Handle(s, a, walk);
    var s2 := Handle(s1, b, walk);
    var s3 := Handle(s2, c, walk);
    OneEvent(s, a, [b, c, d], walk);
    OneEvent(s1, b, [c, d], walk);
    OneEvent(s2, c, [d], walk);
    OneEvent(s3, d, [], walk);
    assert [a] + [b, c, d] == [a, b, c, d] && [b] + [c, d] == [b, c, d] && [c] + [d] == [c, d] && [d] + [] == [d];
  }

  /**
   A client subscribed to `a` that unsubscribes from `a` and from `b` in a pipeline: the server answers
   both, in order, and the client fails its assertion on the second answer.
   */
  lemma {:induction false} TwoUnsubscribesAbort(a: Bytes, b: Bytes, fn: int, walk: Walk)
    requires Walks(walk) && a != b
    ensures var c, u, v := Subscribed(a, 1), Unsubscribed(false, a, 0), Unsubscribed(false, b, 0);
      var events := [CONNECT, UserCommand(Some(fn), 0, [SUBSCRIBE, a]), ReadReady(Established, Replies([c], false)),
                     UserCommand(None, 0, [UNSUBSCRIBE, a]), UserCommand(None, 0, [UNSUBSCRIBE, b]),
                     ReadReady(Established, Replies([u, v], false))];
      Run(Start(false, k => []), events, walk).aborted
  {
    hide Handle, Subscribed, Unsubscribed, Outlives, ServerAnswers;
    var c, u, v := Subscribed(a, 1), Unsubscribed(false, a, 0), Unsubscribed(false, b, 0);
    var e2, e3 := UserCommand(Some(fn), 0, [SUBSCRIBE, a]), ReadReady(Established, Replies([c], false));
    var e4, e5 := UserCommand(None, 0, [UNSUBSCRIBE, a]), UserCommand(None, 0, [UNSUBSCRIBE, b]);
    var e6 := ReadReady(Established, Replies([u, v], false));
    Connects(walk);
    var s0, s1 := Start(false, k => []), Connected();
    Subscribes(s1, a, fn, walk);
    var s2 := Handle(s1, e2, walk);
    Confirmation(s2, a, fn, walk);
    var s3 := Handle(s2, e3, walk);
    var ready := Callback(Some(fn), 0, 0);
    Unsubscribes(s3, a, ready, a, walk);
    var s4 := Handle(s3, e4, walk);
    Unsubscribes(s4, a, ready, b, walk);
    var s5 := Handle(s4, e5, walk);
    FourEvents(s0, CONNECT, e2, e3, e4, walk);
    OneEvent(s4, e5, [e6], walk);
    OneEvent(s5, e6, [], walk);
    RunAppend(s0, [CONNECT, e2, e3, e4], [e5, e6], walk);
    assert [CONNECT, e2, e3, e4] + [e5, e6] == [CONNECT, e2, e3, e4, e5, e6] && [e5] + [e6] == [e5, e6] && [e6] + [] == [e6];
    ReadsReplies(s5, [u, v], walk);
    TwoAnswers(a, b);
    ListensKnows(s5, a, ready);
    PipelineAbortsIff(s5, [Unsubscription(false, a), Unsubscription(false, b)], NULL_CALLBACK, walk);
  }

  lemma {:induction false} ListensKnows(s: State, a: Bytes, entry: Callback)
    requires Listens(s, a, entry) && entry.pending == 0
    ensures Knows(s, {a}, {}) && s.channels.Keys == {a} && s.patterns.Keys == {}
  {
  }

  lemma {:induction false} Confirmation(s: State, a: Bytes, fn: int, walk: Walk)
    requires Walks(walk) && Listens(s, a, Callback(Some(fn), 0, 1))
    ensures Listens(Handle(s, ReadReady(Established, Replies([Subscribed(a, 1)], false)), walk), a, Callback(Some(fn), 0, 0))
  {
    hide Handle, OneReply, MessageOf, WellFormed, Subscribed, TableAfter, MessageCallback;
    var c, entry, ready := Subscribed(a, 1), Callback(Some(fn), 0, 1), Callback(Some(fn), 0, 0);
    ReadsReplies(s, [c], walk);
    MessageIs(a, [], 1);
    ListenLookup(s, MessageOf(c), NULL_CALLBACK, a, entry);
    ListenTurn(s, c, NULL_CALLBACK, a, entry, ready, walk);
    OneMore(s, c, [], NULL_CALLBACK, walk);
    assert [c] + [] == [c];
    LastIsIdle(OneReply(Received(s, c), c, NULL_CALLBACK, walk).state, ready, walk);
  }

  lemma {:induction false} TwoAnswers(a: Bytes, b: Bytes)
    requires a != b
    ensures var us := [Unsubscription(false, a), Unsubscription(false, b)];
      && ServerAnswers({a}, {}, us) == [Unsubscribed(false, a, 0), Unsubscribed(false, b, 0)] && Outlives({a}, {}, us)
  {
    var us := [Unsubscription(false, a), Unsubscription(false, b)];
    assert us[1..] == [us[1]] && [us[1]][1..] == [];
    assert {a} - {a} == {} && {} - {b} == {};
    assert ServerAnswers({}, {}, []) == [];
    assert ServerAnswers({}, {}, [us[1]]) == [Unsubscribed(false, b, 0)];
  }

  // ----- MONITOR -----

  /** A connected context in or outside monitor mode with this queue. */
  ghost predicate Queued(s: State, monitoring: bool, replies: seq<Callback>) {
    Quiet(s) && s.connected && !s.subscribed && s.monitoring == monitoring && s.replies == replies
  }

  /** A command joins the queue. */
  lemma {:induction false} Queues(s: State, monitoring: bool, fn: int, argv: Argv, walk: Walk)
    requires Walks(walk) && Queued(s, monitoring, s.replies) && (Classify(argv).Monitor? || Classify(argv).Regular?)
    ensures var r := Handle(s, UserCommand(Some(fn), 0, argv), walk);
      && Queued(r, monitoring || Classify(argv).Monitor?, s.replies + [Callback(Some(fn), 0, 1)])
      && r.log.calls == s.log.calls
  {
    hide Classify, Commands.Command, Clean, SubscribeAll;
  }

  /** A reply for the head of the queue. */
  lemma {:induction false} HeadTurn(s: State, reply: Reply, cb: Callback, walk: Walk)
    requires Walks(walk) && Queued(s, true, s.replies) && s.replies != []
    ensures var t := OneReply(Received(s, reply), reply, cb, walk);
      && t.Next? && t.cb == s.replies[0] && Queued(t.state, true, s.replies[1..])
      && t.state.log.calls == s.log.calls + CallFor(s.replies[0], Some(reply))
  {
    hide OneReply, Told;
    var s0 := Received(s, reply);
    QueueTurn(s0, reply, cb, walk);
    var p := Shifted(s0, Some(reply));
    ToldFields(p, s.replies[0], reply);
    ToldCalls(p, s.replies[0], reply);
    ToldConnected(p, s.replies[0], reply);
  }

  /** A line that finds the queue empty. */
  lemma {:induction false} EmptyTurn(s: State, reply: Reply, cb: Callback, walk: Walk)
    requires Walks(walk) && Queued(s, true, []) && !reply.Error?
    ensures var t := OneReply(Received(s, reply), reply, cb, walk);
      && t.Next? && t.cb == cb && Queued(t.state, true, [])
      && t.state.log.calls == s.log.calls + CallFor(cb, Some(reply))
  {
    hide OneReply, Told;
    var s0 := Received(s, reply);
    LineTurn(s0, reply, cb, walk);
    ToldFields(s0, cb, reply);
    ToldCalls(s0, cb, reply);
    ToldConnected(s0, cb, reply);
  }

  /** Two replies in one read in monitor mode, the first one for the head of the queue. */
  lemma {:induction false} TwoLines(s: State, ok: Reply, line: Reply, walk: Walk)
    requires Walks(walk) && Queued(s, true, s.replies) && 1 <= |s.replies| <= 2 && !line.Error?
    ensures var next := if |s.replies| == 1 then s.replies[0] else s.replies[1];
      ProcessCallbacks(s, [ok, line], false, NULL_CALLBACK, walk).log.calls ==
        s.log.calls + CallFor(s.replies[0], Some(ok)) + CallFor(next, Some(line))
  {
    hide OneReply, CallFor;
    HeadTurn(s, ok, NULL_CALLBACK, walk);
    OneMore(s, ok, [line], NULL_CALLBACK, walk);
    var t := OneReply(Received(s, ok), ok, NULL_CALLBACK, walk);
    if |s.replies| == 1 {
      EmptyTurn(t.state, line, t.cb, walk);
    } else {
      HeadTurn(t.state, line, t.cb, walk);
    }
    OneMore(t.state, line, [], t.cb, walk);
    var t1 := OneReply(Received(t.state, line), line, t.cb, walk);
    assert [ok] + [line] == [ok, line] && [line] + [] == [line];
    LastIsIdle(t1.state, t1.cb, walk);
  }

  /**
   A read without a complete reply makes MONITOR lose a line: the loop puts its empty callback variable
   into the queue, and the next line gets that. Without such a read the line arrives.
   */
  lemma {:induction false} EmptyReadLosesLine(fn: int, argv: Argv, ok: Reply, line: Reply, walk: Walk)
    requires Walks(walk) && Classify(argv).Monitor? && !line.Error?
    ensures var monitor, empty, read := UserCommand(Some(fn), 0, argv), ReadReady(Established, Replies([], false)),
                                        ReadReady(Established, Replies([ok, line], false));
      && Run(Start(false, k => []), [CONNECT, monitor, empty, read], walk).log.calls == [Call(fn, 0, Some(ok))]
      && Run(Start(false, k => []), [CONNECT, monitor, read], walk).log.calls == [Call(fn, 0, Some(ok)), Call(fn, 0, Some(line))]
  {
    hide Handle, Classify;
    var monitor, empty := UserCommand(Some(fn), 0, argv), ReadReady(Established, Replies([], false));
    var read := ReadReady(Established, Replies([ok, line], false));
    Connects(walk);
    var s0, s1 := Start(false, k => []), Connected();
    Queues(s1, false, fn, argv, walk);
    var s2 := Handle(s1, monitor, walk);
    ReadsReplies(s2, [], walk);
    LastIsIdle(s2, NULL_CALLBACK, walk);
    var s3 := Handle(s2, empty, walk);
    ReadsReplies(s3, [ok, line], walk);
    TwoLines(s3, ok, line, walk);
    FourEvents(s0, CONNECT, monitor, empty, read, walk);
    ReadsReplies(s2, [ok, line], walk);
    TwoLines(s2, ok, line, walk);
    ThreeEvents(s0, CONNECT, monitor, read, walk);
  }

  lemma {:induction false} ThreeEvents(s: State, a: Event, b: Event, c: Event, walk: Walk)
    requires Walks(walk) && Quiet(s) && Quiet(Handle(s, a, walk)) && Quiet(Handle(Handle(s, a, walk), b, walk))
    ensures Run(s, [a, b, c], walk) == Handle(Handle(Handle(s, a, walk), b, walk), c, walk)
  {
    hide Handle;
    var s1 := Handle(s, a, walk);
    var s2 := Handle(s1, b, walk);
    OneEvent(s, a, [b, c], walk);
    OneEvent(s1, b, [c], walk);
    OneEvent(s2, c, [], walk);
    assert [a] + [b, c] == [a, b, c] && [b] + [c] == [b, c] && [c] + [] == [c];
  }

  /** A line of MONITOR behind the answer to another command, in the same read, goes to that command's callback. */
  lemma {:induction false} LineToOtherCommand(fn: int, argv: Argv, other: int, argv': Argv, ok: Reply, answer: Reply, line: Reply, walk: Walk)
    requires Walks(walk) && Classify(argv).Monitor? && Classify(argv').Regular? && !line.Error?
    ensures var monitor, command := UserCommand(Some(fn), 0, argv), UserCommand(Some(other), 0, argv');
      var read := ReadReady(Established, Replies([ok, answer, line], false));
      Run(Start(false, k => []), [CONNECT, monitor, command, read], walk).log.calls ==
        [Call(fn, 0, Some(ok)), Call(other, 0, Some(answer)), Call(other, 0, Some(line))]
  {
    hide Handle, Classify, OneReply;
    var monitor, command := UserCommand(Some(fn), 0, argv), UserCommand(Some(other), 0, argv');
    var read := ReadReady(Established, Replies([ok, answer, line], false));
    Connects(walk);
    var s0, s1 := Start(false, k => []), Connected();
    Queues(s1, false, fn, argv, walk);
    var s2 := Handle(s1, monitor, walk);
    Queues(s2, true, other, argv', walk);
    var s3 := Handle(s2, command, walk);
    ReadsReplies(s3, [ok, answer, line], walk);
    HeadTurn(s3, ok, NULL_CALLBACK, walk);
    OneMore(s3, ok, [answer, line], NULL_CALLBACK, walk);
    var t := OneReply(Received(s3, ok), ok, NULL_CALLBACK, walk);
    assert [ok] + [answer, line] == [ok, answer, line];
    AnswerThenLine(t.state, t.cb, Callback(Some(other), 0, 1), answer, line, walk);
    FourEvents(s0, CONNECT, monitor, command, read, walk);
  }

  lemma {:induction false} AnswerThenLine(s: State, cb: Callback, own: Callback, answer: Reply, line: Reply, walk: Walk)
    requires Walks(walk) && Queued(s, true, [own]) && !line.Error?
    ensures ProcessCallbacks(s, [answer, line], false, cb, walk).log.calls ==
      s.log.calls + CallFor(own, Some(answer)) + CallFor(own, Some(line))
  {
    hide OneReply, CallFor;
    HeadTurn(s, answer, cb, walk);
    OneMore(s, answer, [line], cb, walk);
    var t := OneReply(Received(s, answer), answer, cb, walk);
    EmptyTurn(t.state, line, t.cb, walk);
    OneMore(t.state, line, [], t.cb, walk);
    var t1 := OneReply(Received(t.state, line), line, t.cb, walk);
    assert [answer] + [line] == [answer, line] && [line] + [] == [line];
    LastIsIdle(t1.state, t1.cb, walk);
  }
}
