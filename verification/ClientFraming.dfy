/**
 The receive buffer of the chat client: when a write is refused, what the receiving thread hears, and
 how much room the buffer needs for that to be what was sent.
 */
module ClientFraming {
  import opened ByteStrings
  import opened Framing

  /** What Init was given. */
  datatype Config = Config(size: nat, header: nat, most: nat) {
    /** Init accepts it, and a header holds the 16-bit length of a frame that fits a signed short. */
    predicate Usable() {
      size >= 2 * most && 2 <= header <= most <= 0x7fff
    }
  }

  /** Write: refused if the bytes do not fit behind the write position; compacts when little space is left. */
  function Written(s: Linear, chunk: Bytes, c: Config): Option<Linear> {
    if c.size - s.WritePos() < |chunk| then None
    else
      var unread := s.unread + chunk;
      Some(Linear(if c.size - s.WritePos() - |chunk| < c.most then 0 else s.readPos, unread))
  }

  /** Each chunk is written, then every frame that is complete is read. */
  function Session(s: Linear, chunks: seq<Bytes>, c: Config): Outcome
    requires c.header >= 2
    decreases |chunks|
  {
    if chunks == [] then Received([], s)
    else
      match Written(s, chunks[0], c)
      case None => Refused
      case Some(s1) =>
        var (out, s2) := Drain(s1, c.header);
        var r := Session(s2, chunks[1..], c);
        if r.Refused? then Refused else Received(out + r.frames, r.buffer)
  }

  /** The chunks carry the beginning of a stream of frames; no chunk is longer than a read of the socket. */
  predicate Traffic(frames: seq<Bytes>, chunks: seq<Bytes>, c: Config, longest: nat) {
    && AreFrames(frames, c.header, c.most) && (forall i :: 0 <= i < |chunks| ==> |chunks[i]| <= longest)
    && Concat(chunks) <= Concat(frames)
  }

  // ----- What is delivered -----

  /** One chunk that is taken. */
  lemma {:induction false} ChunkExact(s: Linear, chunk: Bytes, later: Bytes, frames: seq<Bytes>, c: Config)
    requires c.Usable() && AreFrames(frames, c.header, c.most) && Written(s, chunk, c).Some?
    requires s.unread + (chunk + later) == Concat(frames)
    ensures Written(s, chunk, c).value.unread + later == Concat(frames)
    ensures var (out, end) := Drain(Written(s, chunk, c).value, c.header);
      && |out| <= |frames| && out == frames[..|out|] && end.unread + later == Concat(frames[|out|..])
      && (|out| < |frames| ==> |end.unread| < |frames[|out|]|) && |end.unread| < c.most
      && AreFrames(frames[|out|..], c.header, c.most)
  {
    hide Concat, Drain;
    var s1 := Written(s, chunk, c).value;
    assert s.unread + chunk + later == s.unread + (chunk + later);
    DrainExact(s1, later, frames, c.header, c.most);
    var out := Drain(s1, c.header).0;
    if |out| < |frames| {
      assert IsFrame(frames[|out|], c.header, c.most);
    }
    forall i | 0 <= i < |frames[|out|..]|
      ensures IsFrame(frames[|out|..][i], c.header, c.most)
    {
      assert frames[|out|..][i] == frames[|out| + i];
    }
  }

  /** As long as nothing is refused, the frames come out in order, and what is left is less than one. */
  lemma {:induction false} SessionExact(s: Linear, chunks: seq<Bytes>, frames: seq<Bytes>, tail: Bytes, c: Config)
    requires c.Usable() && AreFrames(frames, c.header, c.most) && Session(s, chunks, c).Received?
    requires s.unread + (Concat(chunks) + tail) == Concat(frames)
    requires frames != [] ==> |s.unread| < |frames[0]|
    ensures Delivers(Session(s, chunks, c), frames, tail)
    decreases |chunks|
  {
    hide Drain, Written, AreFrames, Delivers, Concat;
    if chunks == [] {
      NothingToDeliver(s, frames, tail);
    } else {
      var later := Concat(chunks[1..]) + tail;
      FirstChunk(chunks, tail);
      ChunkExact(s, chunks[0], later, frames, c);
      var (out, s2) := Drain(Written(s, chunks[0], c).value, c.header);
      SessionExact(s2, chunks[1..], frames[|out|..], tail, c);
      DeliversMore(out, Session(s2, chunks[1..], c), frames, tail);
    }
  }

  /** What holds before each write: a longest chunk fits, and what is unread is less than a frame. */
  predicate Ready(s: Linear, c: Config, longest: nat) {
    s.WritePos() + longest <= c.size && |s.unread| < c.most
  }

  /** No chunk is longer than a frame can be, and two of them fit beside a frame less one byte. */
  predicate Enough(c: Config, longest: nat) {
    longest <= c.most && c.size >= c.most - 1 + 2 * longest
  }

  /** With enough room no chunk is refused. */
  lemma {:induction false} EnoughTakes(s: Linear, chunks: seq<Bytes>, frames: seq<Bytes>, tail: Bytes, c: Config, longest: nat)
    requires c.Usable() && Enough(c, longest) && Ready(s, c, longest) && AreFrames(frames, c.header, c.most)
    requires forall i :: 0 <= i < |chunks| ==> |chunks[i]| <= longest
    requires s.unread + (Concat(chunks) + tail) == Concat(frames)
    ensures Session(s, chunks, c).Received?
    decreases |chunks|
  {
    hide Drain, AreFrames, Concat;
    if chunks != [] {
      FirstChunk(chunks, tail);
      ChunkExact(s, chunks[0], Concat(chunks[1..]) + tail, frames, c);
      var (out, s2) := Drain(Written(s, chunks[0], c).value, c.header);
      EnoughTakes(s2, chunks[1..], frames[|out|..], tail, c, longest);
    }
  }

  /** Delivery: exactly the sent frames, in order, up to the one that is still incomplete. */
  lemma {:induction false} Lossless(frames: seq<Bytes>, chunks: seq<Bytes>, c: Config, longest: nat)
    requires c.Usable() && Traffic(frames, chunks, c, longest)
    ensures Enough(c, longest) ==> Session(Linear(0, []), chunks, c).Received?
    ensures var r := Session(Linear(0, []), chunks, c);
      r.Received? ==>
        && |r.frames| <= |frames| && r.frames == frames[..|r.frames|]
        && Concat(r.frames) + r.buffer.unread == Concat(chunks)
        && (|r.frames| < |frames| ==> |r.buffer.unread| < |frames[|r.frames|]|)
        && (Concat(chunks) == Concat(frames) ==> r.frames == frames)
  {
    var sent, all, start := Concat(chunks), Concat(frames), Linear(0, []);
    var tail := all[|sent|..];
    assert start.unread + (sent + tail) == all;
    if frames != [] {
      FirstIsFrame(frames, c.header, c.most);
    }
    assert Enough(c, longest) ==> Ready(start, c, longest);
    hide Session, Concat, AreFrames;
    if Enough(c, longest) {
      EnoughTakes(start, chunks, frames, tail, c, longest);
    }
    if Session(start, chunks, c).Received? {
      SessionExact(start, chunks, frames, tail, c);
      NothingLost(Session(start, chunks, c), frames, sent, tail);
    }
  }

  // ----- Traffic that is refused -----

  /** The buffer after these bytes have been written one by one, and what became complete has been read. */
  function Filled(s: Linear, b: Bytes, c: Config): Linear
    requires c.header >= 2
    decreases |b|
  {
    if b == [] then s
    else
      match Written(s, [b[0]], c)
      case None => s
      case Some(s1) => Filled(Drain(s1, c.header).1, b[1..], c)
  }

  /** As long as a frame fits behind them, the bytes are taken and stay where they are. */
  lemma {:induction false} Fills(s: Linear, b: Bytes, rest: seq<Bytes>, c: Config)
    requires c.header >= 2 && s.WritePos() + |b| + c.most <= c.size
    ensures Filled(s, b, c).WritePos() == s.WritePos() + |b|
    ensures Session(s, Singles(b) + rest, c).Refused? <==> Session(Filled(s, b, c), rest, c).Refused?
    decreases |b|
  {
    hide Drain;
    var chunks := Singles(b) + rest;
    if b == [] {
      assert chunks == rest;
    } else {
      assert chunks[0] == [b[0]] && chunks[1..] == Singles(b[1..]) + rest;
      Fills(Drain(Written(s, [b[0]], c).value, c.header).1, b[1..], rest, c);
    }
  }

  /** The bytes of an incomplete frame stay unread. */
  lemma {:induction false} FillsUnread(s: Linear, b: Bytes, f: Bytes, c: Config)
    requires c.Usable() && IsFrame(f, c.header, c.most) && s.unread + b == f[..|f| - 1]
    requires s.WritePos() + |b| + c.most <= c.size
    ensures Filled(s, b, c) == Linear(s.readPos, f[..|f| - 1])
    decreases |b|
  {
    hide Drain;
    if b == [] {
      assert s.unread + b == s.unread;
    } else {
      var s1 := Written(s, [b[0]], c).value;
      assert s1.unread + b[1..] == s.unread + b by {
        assert b == [b[0]] + b[1..];
      }
      NotYet(s1, b[1..], f, c.header, c.most);
      FillsUnread(s1, b[1..], f, c);
    }
  }

  /** A chunk longer than a frame is refused once nothing but a frame's room is left. */
  lemma {:induction false} LongChunkRefused(all: Bytes, last: Bytes, c: Config)
    requires c.Usable() && |last| > c.most && |all| == c.size - c.most
    ensures Session(Linear(0, []), Singles(all) + [last], c) == Refused
  {
    Fills(Linear(0, []), all, [last], c);
  }

  /** Beside a frame less one byte, the second of two chunks is refused. */
  lemma {:induction false} SecondChunkRefused(f: Bytes, x: Bytes, y: Bytes, c: Config, longest: nat)
    requires c.Usable() && IsFrame(f, c.header, c.most) && |f| == c.most
    requires |x| == |y| == longest <= c.most && c.size < c.most - 1 + 2 * longest
    ensures Session(Linear(0, []), Singles(f[..|f| - 1]) + [x, y], c) == Refused
  {
    var s, b := Linear(0, []), f[..|f| - 1];
    assert s.unread + b == b;
    Fills(s, b, [x, y], c);
    FillsUnread(s, b, f, c);
    var s1 := Written(Linear(0, b), x, c).value;
    assert s1 == Linear(0, b + x);
    var s2 := Drain(s1, c.header).1;
    assert [x, y][1..] == [y];
    assert Session(s2, [y], c) == Refused;
  }

  ghost predicate NeverRefuses(c: Config, longest: nat)
    requires c.header >= 2
  {
    forall frames: seq<Bytes>, chunks: seq<Bytes> ::
      Traffic(frames, chunks, c, longest) ==> Session(Linear(0, []), chunks, c).Received?
  }

  /** The first bytes of a stream of copies of one frame, one by one, and then a chunk and perhaps another. */
  lemma {:induction false} CopiesTraffic(c: Config, k: nat, m: nat, n: nat, two: bool)
    returns (frames: seq<Bytes>, b: Bytes, x: Bytes, y: Bytes, chunks: seq<Bytes>)
    requires c.Usable() && n >= 1 && m + 2 * n <= k * c.most
    ensures |b| == m && |x| == |y| == n && b + x + y == Copies(FrameOf(c.most), k)[..m + 2 * n]
    ensures chunks == (if two then Singles(b) + [x, y] else Singles(b) + [x]) && Traffic(frames, chunks, c, n)
  {
    var f := FrameOf(c.most);
    hide Copies, Singles, Concat, FrameOf;
    frames := CopiesConcat(f, k);
    var all := Copies(f, k);
    b, x, y := all[..m], all[m..m + n], all[m + n..m + 2 * n];
    assert b + x == all[..m + n] && b + x + y == all[..m + 2 * n];
    SinglesConcat(b, x);
    chunks := Singles(b) + [x];
    if two {
      assert Singles(b) + [x, y] == chunks + [y];
      ConcatSnoc(chunks, y);
      chunks := Singles(b) + [x, y];
    }
    assert AreFrames(frames, c.header, c.most) by {
      FrameOfIs(c);
    }
  }

  lemma {:induction false} FrameOfIs(c: Config)
    requires c.Usable()
    ensures IsFrame(FrameOf(c.most), c.header, c.most)
  {
  }

  /** Without enough room, some traffic of full frames is refused. */
  lemma {:induction false} SomeTrafficRefused(c: Config, longest: nat) returns (frames: seq<Bytes>, chunks: seq<Bytes>)
    requires c.Usable() && longest >= 1 && !Enough(c, longest)
    ensures Traffic(frames, chunks, c, longest) && Session(Linear(0, []), chunks, c) == Refused
  {
    hide Session, Singles, Traffic;
    var m := if longest > c.most then c.size - c.most else c.most - 1;
    var k := m + 2 * longest + 1;
    Monotone(1, c.most, k);
    var b, x, y;
    frames, b, x, y, chunks := CopiesTraffic(c, k, m, longest, longest <= c.most);
    if longest > c.most {
      LongChunkRefused(b, x, c);
    } else {
      var f := FrameOf(c.most);
      FrameOfIs(c);
      assert b == (b + x + y)[..m] && f == Copies(f, k)[..c.most];
      assert b == f[..|f| - 1];
      SecondChunkRefused(f, x, y, c, longest);
    }
  }

  /**
   The capacity bound is exact: no traffic is refused if and only if no chunk is longer than a frame
   can be and two chunks fit beside a frame less one byte.
   */
  lemma {:induction false} CapacityIff(c: Config, longest: nat)
    requires c.Usable() && longest >= 1
    ensures NeverRefuses(c, longest) <==> Enough(c, longest)
  {
    if Enough(c, longest) {
      forall frames: seq<Bytes>, chunks: seq<Bytes> | Traffic(frames, chunks, c, longest)
        ensures Session(Linear(0, []), chunks, c).Received?
      {
        Lossless(frames, chunks, c, longest);
      }
    } else {
      var frames, chunks := SomeTrafficRefused(c, longest);
    }
  }

  // ----- The receiving thread -----

  /** What a read gives: nothing, a frame, or the exception for a negative length. */
  datatype Segment = Nothing | Frame(bytes: Bytes) | Throws

  /** BitConverter.ToInt16 of two bytes. */
  function ToInt16(low: byte, high: byte): (n: int)
    ensures -0x8000 <= n <= 0x7fff
    ensures n % 0x1_0000 == FrameLength([low, high])
  {
    var n: int := FrameLength([low, high]);
    if n > 0x7fff then n - 0x1_0000 else n
  }

  function Look(s: Linear, header: nat): (segment: Segment)
    requires header >= 2
    ensures segment.Frame? ==> |segment.bytes| <= |s.unread| && segment.bytes == s.unread[..|segment.bytes|]
  {
    if |s.unread| < header then Nothing
    else
      var n := ToInt16(s.unread[0], s.unread[1]);
      if |s.unread| < n then Nothing else if n < 0 then Throws else Frame(s.unread[..n])
  }

  /**
   What a read gives, by the bytes: the first two are a signed number, low byte first; a negative one
   throws, and otherwise there is a frame when there are a header and as many bytes.
   */
  lemma {:induction false} LookAt(s: Linear, header: nat)
    requires header >= 2
    ensures Look(s, header).Nothing? <==>
      || |s.unread| < header
      || (s.unread[1] < 128 && (var low: int, high: int := s.unread[0], s.unread[1]; |s.unread| < low + 256 * high))
    ensures Look(s, header) == Throws <==> |s.unread| >= header && s.unread[1] >= 128
    ensures Look(s, header).Frame? ==>
      && |s.unread| >= header && |Look(s, header).bytes| <= |s.unread|
      && (var low: int, high: int := s.unread[0], s.unread[1]; |Look(s, header).bytes| == low + 256 * high)
      && forall i :: 0 <= i < |Look(s, header).bytes| ==> Look(s, header).bytes[i] == s.unread[i]
  {
  }

  /** The packets made, the buffer left behind, and whether an exception has ended the thread. */
  datatype Heard = Heard(frames: seq<Bytes>, buffer: Linear, threw: bool)

  /** The inner loop: a frame shorter than its own header throws when its body is made. */
  function ReadLoop(s: Linear, header: nat): Heard
    requires header >= 2
    decreases |s.unread|
  {
    match Look(s, header)
    case Nothing => Heard([], s, false)
    case Throws => Heard([], s, true)
    case Frame(f) =>
      if f == [] then Heard([], s, false)
      else if |f| < header then Heard([], Skip(s, |f|), true)
      else
        var h := ReadLoop(Skip(s, |f|), header);
        h.(frames := [f] + h.frames)
  }

  /** The outer loop, which goes on as if nothing had happened when a write is refused. */
  function Listen(s: Linear, chunks: seq<Bytes>, c: Config): Heard
    requires c.header >= 2
    decreases |chunks|
  {
    if chunks == [] then Heard([], s, false)
    else
      var h := ReadLoop(match Written(s, chunks[0], c) case None => s case Some(s1) => s1, c.header);
      if h.threw then h
      else
        var r := Listen(h.buffer, chunks[1..], c);
        r.(frames := h.frames + r.frames)
  }

  /** A frame too short to hold its own header ends the thread, an empty one only the loop; any other is a packet. */
  lemma {:induction false} ReadLoopAt(s: Linear, header: nat)
    requires header >= 2 && Look(s, header).Frame?
    ensures var n := |Look(s, header).bytes|;
      var h, later := ReadLoop(s, header), ReadLoop(Linear(s.readPos + n, s.unread[n..]), header);
      && (n == 0 ==> h == Heard([], s, false))
      && (0 < n < header ==> h.threw && h.frames == [])
      && (n >= header ==> h == Heard([s.unread[..n]] + later.frames, later.buffer, later.threw))
  {
  }

  /** To a thread that has read all there is, a refused chunk is as if it had never been sent. */
  lemma {:induction false} RefusedIsSkipped(s: Linear, chunk: Bytes, later: seq<Bytes>, c: Config)
    requires c.header >= 2 && s.WritePos() + |chunk| > c.size && Look(s, c.header).Nothing?
    ensures Listen(s, [chunk] + later, c) == Listen(s, later, c)
  {
    assert ([chunk] + later)[0] == chunk && ([chunk] + later)[1..] == later;
    var r := Listen(s, later, c);
    assert [] + r.frames == r.frames;
  }

  /** An exception ends the thread: what arrives afterwards is not heard. */
  lemma {:induction false} ThrowEnds(s: Linear, chunk: Bytes, later: seq<Bytes>, c: Config)
    requires c.header >= 2 && s.WritePos() + |chunk| <= c.size && ReadLoop(Written(s, chunk, c).value, c.header).threw
    ensures Listen(s, [chunk] + later, c) == ReadLoop(Written(s, chunk, c).value, c.header)
  {
    assert ([chunk] + later)[0] == chunk;
  }

  /** On a stream of frames the inner loop reads what is complete, without an exception. */
  lemma {:induction false} ReadLoopDrains(s: Linear, more: Bytes, frames: seq<Bytes>, header: nat, most: nat)
    requires 2 <= header && most <= 0x7fff && AreFrames(frames, header, most) && s.unread + more == Concat(frames)
    ensures var (out, end) := Drain(s, header); ReadLoop(s, header) == Heard(out, end, false)
    decreases |frames|
  {
    hide AreFrames, Concat, IsFrame;
    if frames == [] {
      NoFrames(s, more, header);
    } else {
      var f := frames[0];
      FirstIsFrame(frames, header, most);
      RestAreFrames(frames, header, most);
      ConcatCons(frames);
      ReadsFirst(s, more, f, Concat(frames[1..]), header, most);
      LooksAlike(s, header, most);
      if |s.unread| >= |f| {
        assert |f| >= header by { FrameSize(f, header, most); }
        ReadLoopDrains(Skip(s, |f|), more, frames[1..], header, most);
      }
    }
  }

  lemma {:induction false} FrameSize(f: Bytes, header: nat, most: nat)
    requires IsFrame(f, header, most)
    ensures header <= |f| <= most
  {
  }

  /** A read of the client and one of the server agree on lengths that a signed short can hold. */
  lemma {:induction false} LooksAlike(s: Linear, header: nat, most: nat)
    requires header >= 2 && most <= 0x7fff && (|s.unread| >= 2 ==> FrameLength(s.unread) <= most)
    ensures Look(s, header) == match ReadFrame(s, header) case None => Nothing case Some(f) => Frame(f)
  {
  }

  /** A thread whose writes are all taken hears what the session delivers. */
  lemma {:induction false} TakenHeard(s: Linear, chunks: seq<Bytes>, frames: seq<Bytes>, c: Config)
    requires c.Usable() && AreFrames(frames, c.header, c.most) && s.unread + Concat(chunks) == Concat(frames)
    requires Session(s, chunks, c).Received?
    ensures var r := Session(s, chunks, c); Listen(s, chunks, c) == Heard(r.frames, r.buffer, false)
    decreases |chunks|
  {
    hide Drain, ReadLoop, Written, AreFrames, Concat;
    if chunks != [] {
      ConcatCons(chunks);
      ChunkExact(s, chunks[0], Concat(chunks[1..]), frames, c);
      var s1 := Written(s, chunks[0], c).value;
      ReadLoopDrains(s1, Concat(chunks[1..]), frames, c.header, c.most);
      var (out, s2) := Drain(s1, c.header);
      TakenHeard(s2, chunks[1..], frames[|out|..], c);
    }
  }

  /** No byte is heard twice, and after an exception some have not been heard. */
  lemma {:induction false} ReadLoopBytes(s: Linear, header: nat)
    requires header >= 2
    ensures var h := ReadLoop(s, header);
      && h.buffer.WritePos() == s.WritePos()
      && |Concat(h.frames)| + |h.buffer.unread| <= |s.unread| && (h.threw ==> |Concat(h.frames)| < |s.unread|)
    decreases |s.unread|
  {
    var look := Look(s, header);
    if look.Frame? && look.bytes != [] && |look.bytes| >= header {
      var f, h := look.bytes, ReadLoop(Skip(s, |look.bytes|), header);
      ReadLoopBytes(Skip(s, |f|), header);
      ConcatCons([f] + h.frames);
      assert ([f] + h.frames)[1..] == h.frames;
    }
  }

  lemma {:induction false} ListenBytes(s: Linear, chunks: seq<Bytes>, c: Config)
    requires c.header >= 2
    ensures |Concat(Listen(s, chunks, c).frames)| <= |s.unread| + |Concat(chunks)|
    decreases |chunks|
  {
    hide ReadLoop, Concat;
    if chunks == [] {
      assert Concat([]) == [] by { ConcatNothing(); }
    } else {
      ConcatCons(chunks);
      var s1 := match Written(s, chunks[0], c) case None => s case Some(w) => w;
      ReadLoopBytes(s1, c.header);
      var h := ReadLoop(s1, c.header);
      ListenBytes(h.buffer, chunks[1..], c);
      ConcatAppend(h.frames, Listen(h.buffer, chunks[1..], c).frames);
    }
  }

  lemma {:induction false} ConcatNothing()
    ensures Concat([]) == []
  {
  }

  /** After a refused write fewer bytes are heard than were sent. */
  lemma {:induction false} RefusedLoses(s: Linear, chunks: seq<Bytes>, frames: seq<Bytes>, c: Config)
    requires c.Usable() && AreFrames(frames, c.header, c.most) && s.unread + Concat(chunks) == Concat(frames)
    requires s.WritePos() <= c.size && Session(s, chunks, c).Refused?
    ensures |Concat(Listen(s, chunks, c).frames)| < |Concat(frames)|
    decreases |chunks|
  {
    hide Drain, ReadLoop, AreFrames, Concat;
    var later := Concat(chunks[1..]);
    ConcatCons(chunks);
    if Written(s, chunks[0], c) == None {
      ReadLoopBytes(s, c.header);
      var h := ReadLoop(s, c.header);
      ListenBytes(h.buffer, chunks[1..], c);
      ConcatAppend(h.frames, Listen(h.buffer, chunks[1..], c).frames);
    } else {
      ChunkExact(s, chunks[0], later, frames, c);
      var s1 := Written(s, chunks[0], c).value;
      ReadLoopDrains(s1, later, frames, c.header, c.most);
      var (out, s2) := Drain(s1, c.header);
      RefusedLoses(s2, chunks[1..], frames[|out|..], c);
      ConcatAppend(out, Listen(s2, chunks[1..], c).frames);
      assert frames == out + frames[|out|..];
      ConcatAppend(out, frames[|out|..]);
    }
  }

  /** The exact condition: the thread hears exactly the frames that were sent if and only if no write is refused. */
  lemma {:induction false} HeardIff(chunks: seq<Bytes>, frames: seq<Bytes>, c: Config)
    requires c.Usable() && AreFrames(frames, c.header, c.most) && Concat(chunks) == Concat(frames)
    ensures Listen(Linear(0, []), chunks, c).frames == frames <==> Session(Linear(0, []), chunks, c).Received?
  {
    var s := Linear(0, []);
    assert s.unread + Concat(chunks) == Concat(frames);
    hide Listen, Session, Concat, AreFrames;
    if Session(s, chunks, c).Received? {
      TakenHeard(s, chunks, frames, c);
      AllDelivered(chunks, frames, c);
    } else {
      RefusedLoses(s, chunks, frames, c);
    }
  }

  lemma {:induction false} AllDelivered(chunks: seq<Bytes>, frames: seq<Bytes>, c: Config)
    requires c.Usable() && AreFrames(frames, c.header, c.most) && Concat(chunks) == Concat(frames)
    requires Session(Linear(0, []), chunks, c).Received?
    ensures Session(Linear(0, []), chunks, c).frames == frames
  {
    var s, sent := Linear(0, []), Concat(chunks);
    assert s.unread + (sent + []) == sent && sent + [] == sent;
    if frames != [] {
      FirstIsFrame(frames, c.header, c.most);
    }
    hide Session, Concat, AreFrames;
    SessionExact(s, chunks, frames, [], c);
    NothingLost(Session(s, chunks, c), frames, sent, []);
  }

  /** Every complete stream of frames is heard as it was sent, in chunks up to that length. */
  ghost predicate HearsAll(c: Config, longest: nat)
    requires c.header >= 2
  {
    forall frames: seq<Bytes>, chunks: seq<Bytes> ::
      Traffic(frames, chunks, c, longest) && Concat(chunks) == Concat(frames)
      ==> Listen(Linear(0, []), chunks, c).frames == frames
  }

  /** What the buffer is for, and exactly when it does it. */
  lemma {:induction false} HearsAllIff(c: Config, longest: nat)
    requires c.Usable() && longest >= 1
    ensures HearsAll(c, longest) <==> Enough(c, longest)
  {
    hide Listen, Session, Concat;
    if Enough(c, longest) {
      forall frames: seq<Bytes>, chunks: seq<Bytes> | Traffic(frames, chunks, c, longest) && Concat(chunks) == Concat(frames)
        ensures Listen(Linear(0, []), chunks, c).frames == frames
      {
        Lossless(frames, chunks, c, longest);
        HeardIff(chunks, frames, c);
      }
    } else {
      var frames, chunks := SomeStreamMisheard(c, longest);
    }
  }

  lemma {:induction false} SomeStreamMisheard(c: Config, longest: nat) returns (frames: seq<Bytes>, chunks: seq<Bytes>)
    requires c.Usable() && longest >= 1 && !Enough(c, longest)
    ensures Traffic(frames, chunks, c, longest) && Concat(chunks) == Concat(frames)
    ensures Listen(Linear(0, []), chunks, c).frames != frames
  {
    hide Listen, Session, Concat, Singles;
    var first;
    frames, first := SomeTrafficRefused(c, longest);
    var rest := Concat(frames)[|Concat(first)|..];
    chunks := first + Singles(rest);
    SinglesConcat(rest, []);
    ConcatSnoc(Singles(rest), []);
    assert Concat(Singles(rest)) + [] == Concat(Singles(rest)) && rest + [] == rest;
    ConcatAppend(first, Singles(rest));
    RefusedStays(Linear(0, []), first, Singles(rest), c);
    HeardIff(chunks, frames, c);
  }

  lemma {:induction false} RefusedStays(s: Linear, chunks: seq<Bytes>, more: seq<Bytes>, c: Config)
    requires c.header >= 2 && Session(s, chunks, c).Refused?
    ensures Session(s, chunks + more, c).Refused?
    decreases |chunks|
  {
    hide Drain, Written;
    assert (chunks + more)[0] == chunks[0] && (chunks + more)[1..] == chunks[1..] + more;
    match Written(s, chunks[0], c)
    case None =>
    case Some(s1) => RefusedStays(Drain(s1, c.header).1, chunks[1..], more, c);
  }

  // ----- The client's own numbers -----

  /** What the client passes to Init. */
  const CLIENT := Config(8096 * 10, 5, 1024)

  /** The size of the buffer it reads the socket into. */
  const READ_BUFFER_SIZE := 2048

  /** A frame in a chunk of its own, and k - 1 more. */
  function Apart(f: Bytes, k: nat): seq<Bytes> {
    if k == 0 then [] else [f] + Apart(f, k - 1)
  }

  /** Frames that arrive apart are read at once; their room is not free again before the next compaction. */
  lemma {:induction false} ApartTaken(s: Linear, f: Bytes, k: nat, rest: seq<Bytes>, c: Config)
    requires c.Usable() && IsFrame(f, c.header, c.most) && s.unread == [] && s.readPos + k * |f| + c.most <= c.size
    ensures Session(s, Apart(f, k) + rest, c).Refused? <==> Session(Linear(s.readPos + k * |f|, []), rest, c).Refused?
    decreases k
  {
    hide IsFrame, Drain, Written;
    var chunks := Apart(f, k) + rest;
    if k == 0 {
      assert chunks == rest;
    } else {
      assert chunks[0] == f && chunks[1..] == Apart(f, k - 1) + rest;
      OneLess(k, |f|);
      var s2, n := Linear(s.readPos + |f|, []), (k - 1) * |f|;
      OneApart(s, f, c);
      ApartTaken(s2, f, k - 1, rest, c);
      assert s2.readPos + n == s.readPos + k * |f|;
    }
  }

  lemma {:induction false} OneApart(s: Linear, f: Bytes, c: Config)
    requires c.Usable() && IsFrame(f, c.header, c.most) && s.unread == [] && s.readPos + |f| + c.most <= c.size
    ensures Written(s, f, c).Some? && Drain(Written(s, f, c).value, c.header).1 == Linear(s.readPos + |f|, [])
  {
    hide IsFrame, Drain;
    var s1 := Written(s, f, c).value;
    assert s.unread + f == f && s1 == Linear(s.readPos, f);
    FrameDrained(s1, f, c);
  }

  lemma {:induction false} OneLess(k: nat, n: nat)
    requires k > 0
    ensures k * n == n + (k - 1) * n && (k - 1) * n >= 0
  {
  }

  lemma {:induction false} FrameDrained(s: Linear, f: Bytes, c: Config)
    requires c.Usable() && IsFrame(f, c.header, c.most) && s.unread == f
    ensures Drain(s, c.header).1 == Linear(s.readPos + |f|, [])
  {
    assert ReadFrame(s, c.header) == Some(f) by {
      assert f[..|f|] == f;
    }
    var r := Skip(s, |f|);
    assert r.unread == [];
    assert Drain(r, c.header) == ([], r);
  }

  lemma {:induction false} ApartConcat(f: Bytes, k: nat)
    ensures Concat(Apart(f, k)) == Copies(f, k) && forall i :: 0 <= i < |Apart(f, k)| ==> Apart(f, k)[i] == f
  {
    if k > 0 {
      ApartConcat(f, k - 1);
      ConcatCons(Apart(f, k));
      assert Apart(f, k)[1..] == Apart(f, k - 1);
    }
  }

  /**
   The client loses ordinary traffic: 78 frames of 1024 bytes, each read as it arrives, and then two of
   them in one read of the socket. The buffer is empty, but there is no room behind its write position.
   */
  lemma {:induction false} ClientRefuses()
    ensures var f := FrameOf(CLIENT.most);
      var frames, chunks := Apart(f, 80), Apart(f, 78) + [f + f];
      && Traffic(frames, chunks, CLIENT, READ_BUFFER_SIZE) && Concat(chunks) == Concat(frames)
      && Session(Linear(0, []), chunks, CLIENT) == Refused && Listen(Linear(0, []), chunks, CLIENT).frames != frames
  {
    hide Listen, Session;
    var f := FrameOf(CLIENT.most);
    ApartConcat(f, 80);
    ApartConcat(f, 78);
    ConcatSnoc(Apart(f, 78), f + f);
    CopiesSnoc(f, 78);
    CopiesSnoc(f, 79);
    assert Copies(f, 78) + (f + f) == Copies(f, 78) + f + f;
    ApartTaken(Linear(0, []), f, 78, [f + f], CLIENT);
    TwoRefused(f);
    HeardIff(Apart(f, 78) + [f + f], Apart(f, 80), CLIENT);
  }

  lemma {:induction false} TwoRefused(f: Bytes)
    requires |f| == CLIENT.most
    ensures Session(Linear(78 * |f|, []), [f + f], CLIENT) == Refused
  {
  }

  /** What the client could take: reads of the socket of at most one frame's size. */
  lemma {:induction false} ClientCapacity(longest: nat)
    requires longest >= 1
    ensures HearsAll(CLIENT, longest) <==> longest <= 1024
  {
    HearsAllIff(CLIENT, longest);
  }
}
