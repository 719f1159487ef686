/**
 The packet buffer of a connection on the chat server: what fits, what comes out, and when the
 unchecked copy of arriving bytes runs past the end.
 */
module ServerFraming {
  import opened ByteStrings
  import opened Framing

  const PACKET_DATA_BUFFER_SIZE := 8096
  const PACKET_HEADER_LENGTH := 5

  /** SetPacketData: compacts when the end of the buffer is reached, then copies the new bytes. */
  function Stored(s: Linear, chunk: Bytes): Linear {
    Linear(if s.WritePos() + |chunk| >= PACKET_DATA_BUFFER_SIZE then 0 else s.readPos, s.unread + chunk)
  }

  /** The copy of the new bytes ends behind the buffer. */
  predicate Overruns(s: Linear, chunk: Bytes) {
    Stored(s, chunk).WritePos() > PACKET_DATA_BUFFER_SIZE
  }

  /** Compaction saves every copy that can be saved: one overruns exactly when unread and new bytes do not fit together. */
  lemma {:induction false} OverrunIff(s: Linear, chunk: Bytes)
    ensures Overruns(s, chunk) <==> |s.unread| + |chunk| > PACKET_DATA_BUFFER_SIZE
  {
  }

  /** Stored bytes follow the unread ones, which move to the front only when the end of the buffer is reached. */
  lemma {:induction false} StoredAt(s: Linear, chunk: Bytes)
    ensures Stored(s, chunk).unread == s.unread + chunk
    ensures Stored(s, chunk).readPos == if s.readPos + |s.unread| + |chunk| < 8096 then s.readPos else 0
  {
  }

  /** What the server does with a connection's buffer, in any order. */
  datatype Step = SetPacketData(chunk: Bytes) | GetPacket

  /** The packets got, and the buffer at the end; Refused stands for a copy past the end. */
  function Serve(s: Linear, steps: seq<Step>): Outcome
    decreases |steps|
  {
    if steps == [] then Received([], s)
    else
      match steps[0]
      case SetPacketData(chunk) => if Overruns(s, chunk) then Refused else Serve(Stored(s, chunk), steps[1..])
      case GetPacket =>
        match ReadFrame(s, PACKET_HEADER_LENGTH)
        case None => Serve(s, steps[1..])
        case Some(f) =>
          var r := Serve(Skip(s, |f|), steps[1..]);
          if r.Refused? then Refused else Received([f] + r.frames, r.buffer)
  }

  /** The bytes stored by the steps. */
  function StoredBytes(steps: seq<Step>): Bytes {
    if steps == [] then []
    else (if steps[0].SetPacketData? then steps[0].chunk else []) + StoredBytes(steps[1..])
  }

  /**
   Whatever the order of storing and getting: as long as nothing overruns, the packets got are the
   first frames sent, in order, and nothing of the stream is lost.
   */
  lemma {:induction false} ServeExact(s: Linear, steps: seq<Step>, frames: seq<Bytes>, tail: Bytes)
    requires AreFrames(frames, PACKET_HEADER_LENGTH, 0xffff) && Serve(s, steps).Received?
    requires s.unread + (StoredBytes(steps) + tail) == Concat(frames)
    ensures var r := Serve(s, steps);
      && |r.frames| <= |frames| && r.frames == frames[..|r.frames|]
      && r.buffer.unread + tail == Concat(frames[|r.frames|..])
    decreases |steps|
  {
    hide AreFrames, IsFrame, ReadFrame, Concat;
    if steps == [] {
      assert StoredBytes(steps) + tail == tail;
      assert frames[0..] == frames;
    } else {
      var later := StoredBytes(steps[1..]) + tail;
      if steps[0].SetPacketData? {
        var chunk := steps[0].chunk;
        assert s.unread + (StoredBytes(steps) + tail) == s.unread + chunk + later;
        ServeExact(Stored(s, chunk), steps[1..], frames, tail);
      } else {
        assert StoredBytes(steps) + tail == later;
        GetExact(s, later, frames);
        if ReadFrame(s, PACKET_HEADER_LENGTH) == None {
          ServeExact(s, steps[1..], frames, tail);
        } else {
          RestAreFrames(frames, PACKET_HEADER_LENGTH, 0xffff);
          ServeExact(Skip(s, |frames[0]|), steps[1..], frames[1..], tail);
          var n := |Serve(Skip(s, |frames[0]|), steps[1..]).frames|;
          assert frames[..n + 1] == [frames[0]] + frames[1..][..n];
          assert frames[n + 1..] == frames[1..][n..];
        }
      }
    }
  }

  /** GetPacket gives the next frame exactly when all of it has arrived. */
  lemma {:induction false} GetExact(s: Linear, more: Bytes, frames: seq<Bytes>)
    requires AreFrames(frames, PACKET_HEADER_LENGTH, 0xffff) && s.unread + more == Concat(frames)
    ensures ReadFrame(s, PACKET_HEADER_LENGTH) ==
      if frames != [] && |s.unread| >= |frames[0]| then Some(frames[0]) else None
    ensures frames != [] && |s.unread| >= |frames[0]| ==> Skip(s, |frames[0]|).unread + more == Concat(frames[1..])
  {
    hide AreFrames, IsFrame, Concat;
    if frames == [] {
      NoFrames(s, more, PACKET_HEADER_LENGTH);
    } else {
      FirstIsFrame(frames, PACKET_HEADER_LENGTH, 0xffff);
      ConcatCons(frames);
      hide ReadFrame;
      ReadsFirst(s, more, frames[0], Concat(frames[1..]), PACKET_HEADER_LENGTH, 0xffff);
    }
  }

  /**
   What GetPacket gives, by the bytes: nothing with fewer than five bytes or fewer than the first two
   announce, low byte first; otherwise exactly as many as they announce, a header alone included.
   */
  lemma {:induction false} PacketAt(s: Linear)
    ensures |s.unread| < 5 ==> ReadFrame(s, PACKET_HEADER_LENGTH) == None
    ensures |s.unread| >= 5 ==>
      var low: int, high: int := s.unread[0], s.unread[1];
      var n := low + 256 * high;
      ReadFrame(s, PACKET_HEADER_LENGTH) == if |s.unread| < n then None else Some(s.unread[..n])
  {
  }

  /** A packet of at least five bytes that starts with its length is got as soon as its last byte has arrived. */
  lemma {:induction false} PacketGot(f: Bytes, more: Bytes, k: nat, readPos: nat)
    requires 5 <= |f| < 0x1_0000 && (var low: int, high: int := f[0], f[1]; low + 256 * high == |f|) && k < |f|
    ensures ReadFrame(Linear(readPos, f + more), PACKET_HEADER_LENGTH) == Some(f)
    ensures ReadFrame(Linear(readPos, f[..k]), PACKET_HEADER_LENGTH) == None
  {
    PacketAt(Linear(readPos, f + more));
    PacketAt(Linear(readPos, f[..k]));
    assert (f + more)[..|f|] == f;
  }

  /** As long as nothing overruns, the positions stay in order and inside the buffer. */
  lemma {:induction false} ServeInBounds(s: Linear, steps: seq<Step>)
    requires s.WritePos() <= PACKET_DATA_BUFFER_SIZE && Serve(s, steps).Received?
    ensures Serve(s, steps).buffer.readPos <= Serve(s, steps).buffer.WritePos() <= PACKET_DATA_BUFFER_SIZE
    decreases |steps|
  {
    hide ReadFrame;
    if steps != [] {
      if steps[0].SetPacketData? {
        ServeInBounds(Stored(s, steps[0].chunk), steps[1..]);
      } else if ReadFrame(s, PACKET_HEADER_LENGTH).Some? {
        ServeInBounds(Skip(s, |ReadFrame(s, PACKET_HEADER_LENGTH).value|), steps[1..]);
      } else {
        ServeInBounds(s, steps[1..]);
      }
    }
  }

  // ----- One packet got for every chunk stored -----

  /** The server's own rhythm, one packet got for a chunk stored, on chunks that each hold two packets. */
  function Rounds(f: Bytes, k: nat): seq<Step> {
    if k == 0 then [] else [SetPacketData(f + f), GetPacket] + Rounds(f, k - 1)
  }

  /** Ordinary packets overrun the buffer as soon as those left behind and two more do not fit. */
  lemma {:induction false} RoundsOverrunIff(s: Linear, f: Bytes, j: nat, k: nat)
    requires IsFrame(f, PACKET_HEADER_LENGTH, 0xffff) && s.unread == Copies(f, j)
    ensures Serve(s, Rounds(f, k)) == Refused <==> k > 0 && (j + k + 1) * |f| > PACKET_DATA_BUFFER_SIZE
    decreases k
  {
    hide Copies, IsFrame, ReadFrame;
    if k > 0 {
      CopiesSnoc(f, j);
      CopiesSnoc(f, j + 1);
      var s1 := Stored(s, f + f);
      assert s1.unread == Copies(f, j + 2) by {
        assert Copies(f, j) + (f + f) == Copies(f, j) + f + f;
      }
      assert (j + 2) * |f| <= (j + k + 1) * |f| by { Monotone(j + 2, j + k + 1, |f|); }
      if (j + 2) * |f| <= PACKET_DATA_BUFFER_SIZE {
        RoundGoesOn(s, s1, f, j, k);
        RoundsOverrunIff(Skip(s1, |f|), f, j + 1, k - 1);
      } else {
        RoundOverruns(s, f, k);
      }
    }
  }

  lemma {:induction false} RoundOverruns(s: Linear, f: Bytes, k: nat)
    requires k > 0 && |s.unread| + 2 * |f| > PACKET_DATA_BUFFER_SIZE
    ensures Serve(s, Rounds(f, k)) == Refused
  {
    assert Rounds(f, k)[0] == SetPacketData(f + f);
  }

  lemma {:induction false} RoundGoesOn(s: Linear, s1: Linear, f: Bytes, j: nat, k: nat)
    requires k > 0 && IsFrame(f, PACKET_HEADER_LENGTH, 0xffff) && |s.unread| + 2 * |f| <= PACKET_DATA_BUFFER_SIZE
    requires s1 == Stored(s, f + f) && s1.unread == Copies(f, j + 2)
    ensures Skip(s1, |f|).unread == Copies(f, j + 1)
    ensures Serve(s, Rounds(f, k)).Refused? <==> Serve(Skip(s1, |f|), Rounds(f, k - 1)).Refused?
  {
    var steps, rest := Rounds(f, k), Rounds(f, k - 1);
    assert steps[0] == SetPacketData(f + f) && steps[1..] == [GetPacket] + rest;
    assert s1.unread == f + Copies(f, j + 1);
    ReadsFirst(s1, [], f, Copies(f, j + 1), PACKET_HEADER_LENGTH, 0xffff);
    assert s1.unread + [] == s1.unread && s1.unread[|f|..] == Copies(f, j + 1);
    assert ([GetPacket] + rest)[0] == GetPacket && ([GetPacket] + rest)[1..] == rest;
    hide ReadFrame;
    assert Serve(s, steps) == Serve(s1, [GetPacket] + rest);
  }

  /** What fits into one receive of the server. */
  const MAX_SOCKBUF := 256

  /** Full receives of two packets of 128 bytes, with one packet got after each: the 63rd overruns the buffer. */
  lemma {:induction false} SmallPacketsOverrun()
    ensures var f := FrameOf(128);
      && |f + f| == MAX_SOCKBUF
      && Serve(Linear(0, []), Rounds(f, 63)) == Refused && Serve(Linear(0, []), Rounds(f, 62)).Received?
  {
    hide Serve, Rounds;
    RoundsOverrunIff(Linear(0, []), FrameOf(128), 0, 63);
    RoundsOverrunIff(Linear(0, []), FrameOf(128), 0, 62);
  }

  // ----- All packets got after every chunk -----

  /** Each chunk is stored, then every packet that is complete is got. */
  function DrainedSession(s: Linear, chunks: seq<Bytes>): Outcome
    decreases |chunks|
  {
    if chunks == [] then Received([], s)
    else if Overruns(s, chunks[0]) then Refused
    else
      var (out, s1) := Drain(Stored(s, chunks[0]), PACKET_HEADER_LENGTH);
      var r := DrainedSession(s1, chunks[1..]);
      if r.Refused? then Refused else Received(out + r.frames, r.buffer)
  }

  /** The chunks carry the beginning of a stream of packets; limits on both sizes. */
  predicate ServerTraffic(frames: seq<Bytes>, chunks: seq<Bytes>, most: nat, longest: nat) {
    && AreFrames(frames, PACKET_HEADER_LENGTH, most) && (forall i :: 0 <= i < |chunks| ==> |chunks[i]| <= longest)
    && Concat(chunks) <= Concat(frames)
  }

  /** With room for a chunk beside all but one byte of a packet, nothing overruns and the packets come out in order. */
  lemma {:induction false} DrainedExact(s: Linear, chunks: seq<Bytes>, frames: seq<Bytes>, tail: Bytes, most: nat, longest: nat)
    requires PACKET_HEADER_LENGTH <= most < 0x1_0000 && most - 1 + longest <= PACKET_DATA_BUFFER_SIZE
    requires AreFrames(frames, PACKET_HEADER_LENGTH, most) && (forall i :: 0 <= i < |chunks| ==> |chunks[i]| <= longest)
    requires s.unread + (Concat(chunks) + tail) == Concat(frames)
    requires |s.unread| < most && (frames != [] ==> |s.unread| < |frames[0]|)
    ensures Delivers(DrainedSession(s, chunks), frames, tail)
    decreases |chunks|
  {
    hide Drain, Stored, Overruns, AreFrames, Delivers, Concat;
    if chunks == [] {
      NothingToDeliver(s, frames, tail);
    } else {
      var later := Concat(chunks[1..]) + tail;
      FirstChunk(chunks, tail);
      OverrunIff(s, chunks[0]);
      StoredExact(s, chunks[0], later, frames, most);
      var (out, s1) := Drain(Stored(s, chunks[0]), PACKET_HEADER_LENGTH);
      DrainedExact(s1, chunks[1..], frames[|out|..], tail, most, longest);
      DeliversMore(out, DrainedSession(s1, chunks[1..]), frames, tail);
    }
  }

  lemma {:induction false} StoredExact(s: Linear, chunk: Bytes, later: Bytes, frames: seq<Bytes>, most: nat)
    requires PACKET_HEADER_LENGTH <= most < 0x1_0000 && AreFrames(frames, PACKET_HEADER_LENGTH, most)
    requires s.unread + (chunk + later) == Concat(frames)
    ensures var (out, end) := Drain(Stored(s, chunk), PACKET_HEADER_LENGTH);
      && |out| <= |frames| && out == frames[..|out|] && end.unread + later == Concat(frames[|out|..])
      && (|out| < |frames| ==> |end.unread| < |frames[|out|]|) && |end.unread| < most
      && AreFrames(frames[|out|..], PACKET_HEADER_LENGTH, most)
  {
    hide Concat, Drain;
    var s1 := Stored(s, chunk);
    assert s.unread + chunk + later == s.unread + (chunk + later);
    DrainExact(s1, later, frames, PACKET_HEADER_LENGTH, most);
    var out := Drain(s1, PACKET_HEADER_LENGTH).0;
    if |out| < |frames| {
      assert IsFrame(frames[|out|], PACKET_HEADER_LENGTH, most);
    }
    forall i | 0 <= i < |frames[|out|..]|
      ensures IsFrame(frames[|out|..][i], PACKET_HEADER_LENGTH, most)
    {
      assert frames[|out|..][i] == frames[|out| + i];
    }
  }

  ghost predicate NeverOverruns(most: nat, longest: nat) {
    forall frames: seq<Bytes>, chunks: seq<Bytes> ::
      ServerTraffic(frames, chunks, most, longest) ==> DrainedSession(Linear(0, []), chunks).Received?
  }

  /** All but the last byte of a packet, byte by byte, and then a chunk that does not fit beside it. */
  lemma {:induction false} SinglesOverrun(s: Linear, b: Bytes, last: Bytes, f: Bytes, most: nat)
    requires PACKET_HEADER_LENGTH <= most < 0x1_0000 && IsFrame(f, PACKET_HEADER_LENGTH, most)
    requires s.unread + b == f[..|f| - 1] && |f| - 1 + |last| > PACKET_DATA_BUFFER_SIZE
    ensures DrainedSession(s, Singles(b) + [last]) == Refused
    decreases |b|
  {
    var chunks := Singles(b) + [last];
    if b == [] {
      assert chunks == [last] && |s.unread + b| == |s.unread|;
      OverrunIff(s, last);
    } else {
      assert chunks[0] == [b[0]] && chunks[1..] == Singles(b[1..]) + [last];
      if !Overruns(s, chunks[0]) {
        var s1 := Stored(s, chunks[0]);
        assert s1.unread + b[1..] == s.unread + b by {
          assert b == [b[0]] + b[1..];
        }
        NotYet(s1, b[1..], f, PACKET_HEADER_LENGTH, most);
        SinglesOverrun(s1, b[1..], last, f, most);
      }
    }
  }

  /**
   The server's capacity bound is exact: drained after every chunk, no traffic overruns the buffer if
   and only if a chunk fits beside all but one byte of a packet.
   */
  lemma {:induction false} ServerCapacityIff(most: nat, longest: nat)
    requires PACKET_HEADER_LENGTH <= most < 0x1_0000 && longest >= 1
    ensures NeverOverruns(most, longest) <==> most - 1 + longest <= PACKET_DATA_BUFFER_SIZE
  {
    if most - 1 + longest <= PACKET_DATA_BUFFER_SIZE {
      forall frames: seq<Bytes>, chunks: seq<Bytes> | ServerTraffic(frames, chunks, most, longest)
        ensures DrainedSession(Linear(0, []), chunks).Received?
      {
        DrainedFits(frames, chunks, most, longest);
      }
    } else {
      var frames, chunks := SomeTrafficOverruns(most, longest);
    }
  }

  /** Got in full after every receive, packets of up to 7841 bytes are safe on the server, and no longer ones. */
  lemma {:induction false} ServerSafe(most: nat)
    requires PACKET_HEADER_LENGTH <= most < 0x1_0000
    ensures NeverOverruns(most, MAX_SOCKBUF) <==> most <= 7841
  {
    ServerCapacityIff(most, MAX_SOCKBUF);
  }

  lemma {:induction false} DrainedFits(frames: seq<Bytes>, chunks: seq<Bytes>, most: nat, longest: nat)
    requires PACKET_HEADER_LENGTH <= most < 0x1_0000 && most - 1 + longest <= PACKET_DATA_BUFFER_SIZE
    requires ServerTraffic(frames, chunks, most, longest)
    ensures DrainedSession(Linear(0, []), chunks).Received?
  {
    var tail := Concat(frames)[|Concat(chunks)|..];
    assert [] + (Concat(chunks) + tail) == Concat(frames);
    if frames != [] {
      FirstIsFrame(frames, PACKET_HEADER_LENGTH, most);
    }
    hide DrainedSession, Concat, AreFrames;
    DrainedExact(Linear(0, []), chunks, frames, tail, most, longest);
  }

  lemma {:induction false} SomeTrafficOverruns(most: nat, longest: nat) returns (frames: seq<Bytes>, chunks: seq<Bytes>)
    requires PACKET_HEADER_LENGTH <= most < 0x1_0000 && longest >= 1 && most - 1 + longest > PACKET_DATA_BUFFER_SIZE
    ensures ServerTraffic(frames, chunks, most, longest) && DrainedSession(Linear(0, []), chunks) == Refused
  {
    var f := FrameOf(most);
    frames := CopiesConcat(f, longest + 1);
    var all := Copies(f, longest + 1);
    assert all == f + Copies(f, longest);
    assert |all| >= most + longest by { Monotone(1, most, longest); }
    var b, last := f[..most - 1], all[most - 1..most - 1 + longest];
    chunks := Singles(b) + [last];
    SinglesConcat(b, last);
    assert all[..most - 1] == b && b + last == all[..most - 1 + longest];
    assert [] + b == b;
    SinglesOverrun(Linear(0, []), b, last, f, most);
  }
}
