/**
 From bytes to callbacks: a connection on which the reader takes the chunks that arrive and the
 asynchronous context the replies they complete.
 */
module Conversation {
  import opened ByteStrings
  import opened RespGrammar
  import opened ReplyObjects
  import P = AsyncProtocol
  import R = RespReader
  import AsyncRuns
  import AsyncSafety
  import opened CallbackLists
  import opened AsyncContexts
  import opened AsyncReplies

  /** The reply that a tree of objects stands for. */
  method ReadTree(o: ReplyObject?, ghost v: Reply, ghost fp: set<array<ReplyObject?>>) returns (r: Reply)
    requires Rep(o, v, fp)
    ensures r == v
    decreases v, 1
  {
    match o.kind {
      case KStatus => r := Status(o.str);
      case KError => r := Error(o.str);
      case KInteger => r := Integer(o.integer);
      case KDouble => r := Double(o.str);
      case KNil => r := Nil;
      case KBool => r := Bool(o.integer == 1);
      case KString => r := Bulk(o.str);
      case KArray =>
        var es := ReadElements(o, v.elements, fp);
        r := Array(es);
      case KMap =>
        var es := ReadElements(o, v.elements, fp);
        r := Map(es);
      case KSet =>
        var es := ReadElements(o, v.elements, fp);
        r := Set(es);
    }
  }

  method ReadElements(o: ReplyObject, ghost es: seq<Reply>, ghost fp: set<array<ReplyObject?>>) returns (rs: seq<Reply>)
    requires RepAll(o, es, fp)
    ensures rs == es
    decreases es, 0
  {
    rs := [];
    for i := 0 to o.elements
      invariant rs == es[..i]
    {
      var r := ReadTree(o.element[i], es[i], fp);
      rs := rs + [r];
    }
  }

  /** What happens on a connection: bytes arrive, or anything but a read. */
  datatype Happening = Arrives(chunk: Bytes) | Other(event: P.Event)

  predicate Possible(h: Happening) {
    h.Other? ==> !h.event.ReadReady? && (h.event.UserCommand? ==> Fits(h.event.argv))
  }

  function Arrived(script: seq<Happening>): Bytes {
    if script == [] then []
    else
      var last := script[|script| - 1];
      Arrived(script[..|script| - 1]) + if last.Arrives? then last.chunk else []
  }

  /** The replies to the objects from the n-th on. */
  method ReadTrees(objects: seq<ReplyObject?>, n: nat, ghost values: seq<Reply>, ghost fp: set<array<ReplyObject?>>)
    returns (rs: seq<Reply>)
    requires R.AllRep(objects, values, fp) && n <= |objects|
    ensures rs == values[n..]
  {
    rs := [];
    for i := n to |objects|
      invariant rs == values[n..i]
    {
      var r := ReadTree(objects[i], values[i], fp);
      rs := rs + [r];
    }
  }

  /**
   A connection from its creation through what happens on it. The context goes through a run whose
   reads bring exactly the replies that the arrived bytes stand for; so, without SUBSCRIBE and MONITOR,
   the k-th command's callback gets the k-th reply in the bytes.
   */
  method Converse(noAutoFree: bool, plan: P.Plan, walk: P.Walk, script: seq<Happening>, spare: nat, isDouble: DoubleTest)
    returns (ac: AsyncContext, n: nat, ghost events: seq<P.Event>)
    requires P.Walks(walk) && GoodPlan(plan) && forall i :: 0 <= i < |script| ==> Possible(script[i])
    ensures fresh(ac) && ac.View() == P.Run(P.Start(noAutoFree, plan), events, walk) && Connects(events)
    ensures n <= |script| && (n == |script| || P.Ended(ac.View()))
    ensures Incoming(events) == ParseStream(Arrived(script[..n]), isDouble).replies
    ensures InOrder(ac.View(), ParseStream(Arrived(script[..n]), isDouble).replies)
  {
    hide CallbackList.Valid, AsyncContext.Valid, P.Walks, GoodPlan, P.Handle, P.Run, ParseStream, R.RedisReader.Valid, R.AllRep,
      Arrived, Incoming, Connects, InOrder, Possible, InStep;
    ghost var start := P.Start(noAutoFree, plan);
    ac := new AsyncContext(noAutoFree, plan, walk);
    var reader := R.Begin(isDouble);
    var objects: seq<ReplyObject?> := [];
    n, events := 0, [];
    StartOfRun(start, walk);
    StartInStep(ac, reader, start);
    ArrivedMore(script, 0);
    while n < |script| && !(ac.freed || ac.aborted || ac.looping)
      invariant n <= |script| && ac.walk == walk && fresh(ac.Repr())
      invariant fresh(reader) && fresh(reader.rstack) && forall a :: a in reader.slots ==> fresh(a)
      invariant InStep(ac, reader, objects, start, events)
      invariant reader.isDouble == isDouble && reader.history == Arrived(script[..n])
    {
      ArrivedMore(script, n);
      assert forall k :: 0 <= k < |reader.slots| ==> reader.slots[k] in reader.slots;
      objects, events := OneMore(ac, reader, objects, script[n], spare, start, events);
      n := n + 1;
    }
    EndInStep(ac, reader, objects, start, events);
    RunInOrder(noAutoFree, plan, events, walk);
  }

  /** The reader has handed out what the arrived bytes stand for, and the context has taken it. */
  ghost predicate InStep(ac: AsyncContext, reader: R.RedisReader, objects: seq<ReplyObject?>, start: P.State, events: seq<P.Event>)
    reads ac, ac.replies, ac.invalid, ac.replies.repr, ac.invalid.repr, reader, reader.rstack, reader.slots, reader.built
  {
    && ac.Valid() && !ac.inCallback && !start.inCallback
    && P.Walks(ac.walk) && ac.View() == P.Run(start, events, ac.walk) && Connects(events)
    && reader.Valid() && !reader.control.Finished? && R.AllRep(objects, reader.emitted, reader.built)
    && |objects| == |reader.emitted| && Incoming(events) == reader.emitted
    && ParseStream(reader.history, reader.isDouble) == Trace(reader.emitted, reader.err)
  }

  lemma {:induction false} StartInStep(ac: AsyncContext, reader: R.RedisReader, start: P.State)
    requires ac.Valid() && !ac.inCallback && ac.View() == start && reader.Valid() && !reader.control.Finished?
    requires reader.history == [] && reader.emitted == [] && R.AllRep([], [], reader.built)
    requires ParseStream([], reader.isDouble) == Trace([], reader.err)
    ensures InStep(ac, reader, [], start, [])
  {
    hide P.Walks, ParseStream, R.RedisReader.Valid, R.AllRep;
    StartOfRun(start, ac.walk);
  }

  lemma {:induction false} EndInStep(ac: AsyncContext, reader: R.RedisReader, objects: seq<ReplyObject?>, start: P.State, events: seq<P.Event>)
    requires InStep(ac, reader, objects, start, events)
    ensures !start.inCallback && P.Walks(ac.walk) && ac.View() == P.Run(start, events, ac.walk) && Connects(events)
    ensures Incoming(events) == ParseStream(reader.history, reader.isDouble).replies
  {
    hide P.Walks, ParseStream, R.RedisReader.Valid, R.AllRep, P.Run, Connects, Incoming;
  }

  /** Without SUBSCRIBE and MONITOR: the k-th delivery is for the k-th command, with the k-th of these replies or NULL. */
  ghost predicate InOrder(s: P.State, replies: seq<Reply>) {
    AsyncSafety.Plain(s) ==>
      && |s.log.received| <= |replies| && |s.log.delivered| <= |s.log.issued|
      && forall k :: 0 <= k < |s.log.delivered| ==>
        s.log.delivered[k].cb == s.log.issued[k].cb &&
        s.log.delivered[k].reply == if k < |s.log.received| then Some(replies[k]) else None
  }

  lemma {:induction false} RunInOrder(noAutoFree: bool, plan: P.Plan, events: seq<P.Event>, walk: P.Walk)
    requires P.Walks(walk) && Connects(events)
    ensures InOrder(P.Run(P.Start(noAutoFree, plan), events, walk), Incoming(events))
  {
    hide P.Run, AsyncSafety.Plain, Incoming, AsyncSafety.IssuedCallbacks;
    RepliesInOrder(noAutoFree, plan, events, walk);
    var s := P.Run(P.Start(noAutoFree, plan), events, walk);
    IssuedLength(s.log.issued);
    if AsyncSafety.Plain(s) {
      forall k | 0 <= k < |s.log.delivered|
        ensures s.log.delivered[k].cb == s.log.issued[k].cb
      {
        IssuedAt(s.log.issued, k);
      }
    }
  }

  lemma {:induction false} IssuedLength(xs: seq<P.Issued>)
    ensures |AsyncSafety.IssuedCallbacks(xs)| == |xs|
    decreases |xs|
  {
    if xs != [] {
      IssuedLength(xs[..|xs| - 1]);
    }
  }

  lemma {:induction false} IssuedAt(xs: seq<P.Issued>, k: nat)
    requires k < |xs|
    ensures |AsyncSafety.IssuedCallbacks(xs)| == |xs| && AsyncSafety.IssuedCallbacks(xs)[k] == xs[k].cb
    decreases |xs|
  {
    IssuedLength(xs);
    IssuedLength(xs[..|xs| - 1]);
    if k < |xs| - 1 {
      IssuedAt(xs[..|xs| - 1], k);
    }
  }

  lemma {:induction false} ArrivedMore(script: seq<Happening>, n: nat)
    requires n <= |script|
    ensures n == 0 ==> Arrived(script[..n]) == []
    ensures n < |script| ==>
      Arrived(script[..n + 1]) == Arrived(script[..n]) + if script[n].Arrives? then script[n].chunk else []
  {
    if n < |script| {
      assert script[..n + 1][..n] == script[..n];
    }
  }

  /** One thing that happens: the reader takes the bytes, and the context the event they make. */
  method Step(ac: AsyncContext, reader: R.RedisReader, objects: seq<ReplyObject?>, h: Happening, spare: nat)
    returns (objects': seq<ReplyObject?>, event: P.Event)
    requires ac.Valid() && !ac.freed && !ac.inCallback && Possible(h)
    requires reader.Valid() && !reader.control.Finished? && R.AllRep(objects, reader.emitted, reader.built)
    requires |objects| == |reader.emitted|
    requires ParseStream(reader.history, reader.isDouble) == Trace(reader.emitted, reader.err)
    modifies ac, ac.replies, ac.invalid, ac.replies.repr, ac.invalid.repr, reader, reader.rstack, reader.slots
    ensures ac.Valid() && ac.View() == P.Handle(old(ac.View()), event, ac.walk)
    ensures fresh(ac.replies.repr - old(ac.replies.repr)) && fresh(ac.invalid.repr - old(ac.invalid.repr))
    ensures event.ReadReady? ==> event.connecting.Established?
    ensures reader.Valid() && !reader.control.Finished? && R.AllRep(objects', reader.emitted, reader.built)
    ensures |objects'| == |reader.emitted| && reader.emitted == old(reader.emitted) + Brought(event)
    ensures reader.history == old(reader.history) + if h.Arrives? then h.chunk else []
    ensures forall a :: a in reader.slots ==> a in old(reader.slots) || fresh(a)
    ensures ParseStream(reader.history, reader.isDouble) == Trace(reader.emitted, reader.err)
  {
    hide CallbackList.Valid, P.Walks, GoodPlan, P.Handle, ParseStream, R.RedisReader.Valid, R.AllRep, P.Closing;
    objects' := objects;
    if h.Arrives? {
      objects' := Arrive(reader, h.chunk, spare, objects);
      var replies := ReadTrees(objects', |objects|, reader.emitted, reader.built);
      event := P.ReadReady(P.Established, P.Replies(replies, reader.err.Some?));
    } else {
      event := h.event;
    }
    ac.Handle(event);
  }

  method Arrive(reader: R.RedisReader, chunk: Bytes, spare: nat, objects: seq<ReplyObject?>) returns (objects': seq<ReplyObject?>)
    requires reader.Valid() && !reader.control.Finished? && R.AllRep(objects, reader.emitted, reader.built)
    modifies reader, reader.rstack, reader.slots
    ensures reader.Valid() && !reader.control.Finished? && reader.history == old(reader.history) + chunk
    ensures forall a :: a in reader.slots ==> a in old(reader.slots) || fresh(a)
    ensures R.AllRep(objects', reader.emitted, reader.built) && |objects'| == |reader.emitted|
    ensures old(reader.emitted) <= reader.emitted
    ensures ParseStream(reader.history, reader.isDouble) == Trace(reader.emitted, reader.err)
  {
    hide R.RedisReader.Valid, ParseStream;
    objects' := R.Receive(reader, chunk, spare, objects);
  }

  /** One thing that happens, as one more event of the run. */
  method OneMore(ac: AsyncContext, reader: R.RedisReader, objects: seq<ReplyObject?>, h: Happening, spare: nat,
                 ghost start: P.State, ghost events: seq<P.Event>)
    returns (objects': seq<ReplyObject?>, ghost events': seq<P.Event>)
    requires InStep(ac, reader, objects, start, events) && !P.Ended(ac.View()) && Possible(h)
    modifies ac.Repr(), reader, reader.rstack, reader.slots
    ensures InStep(ac, reader, objects', start, events') && fresh(ac.Repr() - old(ac.Repr()))
    ensures reader.history == old(reader.history) + if h.Arrives? then h.chunk else []
    ensures forall a :: a in reader.slots ==> a in old(reader.slots) || fresh(a)
  {
    hide CallbackList.Valid, AsyncContext.Valid, P.Walks, GoodPlan, P.Handle, P.Run, ParseStream, R.RedisReader.Valid, R.AllRep,
      Incoming, Connects, Possible, Brought;
    var event;
    objects', event := Step(ac, reader, objects, h, spare);
    OneMoreEvent(start, events, event, ac.walk);
    events' := events + [event];
  }

  lemma {:induction false} StartOfRun(s: P.State, walk: P.Walk)
    requires P.Walks(walk) && !s.inCallback
    ensures P.Run(s, [], walk) == s && Incoming([]) == [] && Connects([])
  {
  }

  lemma {:induction false} OneMoreEvent(s: P.State, events: seq<P.Event>, e: P.Event, walk: P.Walk)
    requires P.Walks(walk) && !s.inCallback && Connects(events) && (e.ReadReady? ==> e.connecting.Established?)
    requires !P.Run(s, events, walk).inCallback && !P.Ended(P.Run(s, events, walk))
    ensures P.Run(s, events + [e], walk) == P.Handle(P.Run(s, events, walk), e, walk)
    ensures Connects(events + [e]) && Incoming(events + [e]) == Incoming(events) + Brought(e)
  {
    hide P.Handle, P.Walks;
    AsyncRuns.RunAppend(s, events, [e], walk);
    var b := P.Run(s, events, walk);
    assert P.Run(b, [e], walk) == P.Handle(b, e, walk) by {
      assert [e][1..] == [];
    }
    IncomingSnoc(events, e);
  }
}
