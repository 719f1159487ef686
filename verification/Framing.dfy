/**
 Cutting a byte stream into frames that start with their own length, in a linear buffer that is
 compacted now and then: the receive buffer of the chat client and the one of the chat server.
 */
module Framing {
  import opened ByteStrings

  /** The little-endian 16-bit length at the front of a frame. */
  function FrameLength(b: Bytes): (n: nat)
    requires |b| >= 2
    ensures n < 0x1_0000
  {
    var low: int, high: int := b[0], b[1];
    low + 256 * high
  }

  /** A frame of at least `least` and at most `most` bytes that starts with its own length. */
  predicate IsFrame(f: Bytes, least: nat, most: nat) {
    2 <= least <= |f| <= most && FrameLength(f) == |f|
  }

  predicate AreFrames(frames: seq<Bytes>, least: nat, most: nat) {
    forall i :: 0 <= i < |frames| ==> IsFrame(frames[i], least, most)
  }

  /** The contents of a linear buffer: the unread bytes, and the position of the first of them. */
  datatype Linear = Linear(readPos: nat, unread: Bytes) {
    function WritePos(): nat {
      readPos + |unread|
    }
  }

  /** Reading one frame: there must be a header's worth of bytes, and as many as it says. */
  function ReadFrame(s: Linear, least: nat): (f: Option<Bytes>)
    requires least >= 2
    ensures f.Some? ==> |f.value| <= |s.unread| && f.value == s.unread[..|f.value|]
  {
    if |s.unread| < least || |s.unread| < FrameLength(s.unread) then None
    else Some(s.unread[..FrameLength(s.unread)])
  }

  function Skip(s: Linear, n: nat): Linear
    requires n <= |s.unread|
  {
    Linear(s.readPos + n, s.unread[n..])
  }

  /** All the frames that can be read until there is none or an empty one, and the buffer left behind. */
  function Drain(s: Linear, least: nat): (r: (seq<Bytes>, Linear))
    requires least >= 2
    ensures r.1.WritePos() == s.WritePos() && |r.1.unread| <= |s.unread|
    decreases |s.unread|
  {
    var f := ReadFrame(s, least);
    if f == None || f.value == [] then ([], s)
    else
      var (rest, end) := Drain(Skip(s, |f.value|), least);
      ([f.value] + rest, end)
  }

  lemma {:induction false} FirstIsFrame(frames: seq<Bytes>, least: nat, most: nat)
    requires frames != [] && AreFrames(frames, least, most)
    ensures IsFrame(frames[0], least, most)
  {
  }

  lemma {:induction false} RestAreFrames(frames: seq<Bytes>, least: nat, most: nat)
    requires frames != [] && AreFrames(frames, least, most)
    ensures AreFrames(frames[1..], least, most)
  {
    hide IsFrame;
  }

  /**
   Draining a buffer whose bytes start a stream of frames: the frames come out in order, and what
   stays is less than the next frame.
   */
  lemma {:induction false} DrainExact(s: Linear, more: Bytes, frames: seq<Bytes>, least: nat, most: nat)
    requires 2 <= least && most < 0x1_0000 && AreFrames(frames, least, most) && s.unread + more == Concat(frames)
    ensures var (out, end) := Drain(s, least);
      && |out| <= |frames| && out == frames[..|out|] && end.unread + more == Concat(frames[|out|..])
      && (if |out| < |frames| then |end.unread| < |frames[|out|]| else end.unread == [] && more == [])
    decreases |frames|
  {
    hide AreFrames, IsFrame, ReadFrame, Concat;
    if frames == [] {
      NoFrames(s, more, least);
    } else {
      var f, rest := frames[0], Concat(frames[1..]);
      FirstIsFrame(frames, least, most);
      RestAreFrames(frames, least, most);
      ConcatCons(frames);
      ReadsFirst(s, more, f, rest, least, most);
      if |s.unread| >= |f| {
        DrainExact(Skip(s, |f|), more, frames[1..], least, most);
        var n := |Drain(Skip(s, |f|), least).0|;
        assert frames[..n + 1] == [f] + frames[1..][..n];
        assert frames[n + 1..] == frames[1..][n..];
      } else {
        assert frames[0..] == frames;
      }
    }
  }

  lemma {:induction false} NoFrames(s: Linear, more: Bytes, least: nat)
    requires s.unread + more == Concat([]) && least >= 2
    ensures s.unread == [] && more == [] && Drain(s, least) == ([], s) && ReadFrame(s, least) == None
  {
    assert |s.unread + more| == 0;
  }

  lemma {:induction false} ConcatCons(parts: seq<Bytes>)
    requires parts != []
    ensures Concat(parts) == parts[0] + Concat(parts[1..])
  {
  }

  /** The first frame of the stream is read once all of it is there, and not before. */
  lemma {:induction false} ReadsFirst(s: Linear, more: Bytes, f: Bytes, rest: Bytes, least: nat, most: nat)
    requires 2 <= least && most < 0x1_0000 && IsFrame(f, least, most) && s.unread + more == f + rest
    ensures ReadFrame(s, least) == if |s.unread| >= |f| then Some(f) else None
    ensures |s.unread| >= |f| ==> s.unread[|f|..] + more == rest
    ensures |f| >= 2 && (|s.unread| >= 2 ==> FrameLength(s.unread) <= most)
  {
    PrefixOf(s.unread, more, f, rest);
    if |s.unread| >= 2 {
      assert s.unread[0] == (s.unread + more)[0] == f[0] && s.unread[1] == (s.unread + more)[1] == f[1];
      assert FrameLength(s.unread) == FrameLength(f);
    }
  }

  /** Two ways of cutting one string in two. */
  lemma {:induction false} PrefixOf(a: Bytes, more: Bytes, f: Bytes, rest: Bytes)
    requires a + more == f + rest
    ensures |a| >= |f| ==> a[..|f|] == f && a[|f|..] + more == rest
    ensures |a| < |f| ==> a == f[..|a|]
  {
    var whole := a + more;
    assert forall i :: 0 <= i < |a| ==> whole[i] == a[i];
    assert forall i :: 0 <= i < |f| ==> whole[i] == f[i];
    if |a| >= |f| {
      assert a[|f|..] + more == whole[|f|..];
      assert rest == whole[|f|..];
    }
  }

  /** An incomplete packet stays in the buffer. */
  lemma {:induction false} NotYet(s: Linear, more: Bytes, f: Bytes, least: nat, most: nat)
    requires 2 <= least <= most < 0x1_0000 && IsFrame(f, least, most)
    requires s.unread + more == f[..|f| - 1]
    ensures Drain(s, least) == ([], s)
  {
    var z := f[|f| - 1..];
    assert s.unread + (more + z) == f + [] by {
      assert s.unread + (more + z) == s.unread + more + z;
    }
    assert |s.unread + more| == |f| - 1;
    ReadsFirst(s, more + z, f, [], least, most);
  }

  // ----- What a session of storing and reading delivers -----

  datatype Outcome = Refused | Received(frames: seq<Bytes>, buffer: Linear)

  /** The session delivered the first frames; the rest of the stream is unread or still to come. */
  predicate Delivers(r: Outcome, frames: seq<Bytes>, tail: Bytes) {
    && r.Received? && |r.frames| <= |frames| && r.frames == frames[..|r.frames|]
    && r.buffer.unread + tail == Concat(frames[|r.frames|..])
    && (|r.frames| < |frames| ==> |r.buffer.unread| < |frames[|r.frames|]|)
  }

  /** Some frames delivered first, and then some more. */
  lemma {:induction false} DeliversMore(out: seq<Bytes>, r: Outcome, frames: seq<Bytes>, tail: Bytes)
    requires |out| <= |frames| && out == frames[..|out|] && Delivers(r, frames[|out|..], tail)
    ensures r.Received? && Delivers(Received(out + r.frames, r.buffer), frames, tail)
  {
    hide Concat;
    SliceTwice(frames, |out|, |r.frames|);
  }

  lemma {:induction false} NothingToDeliver(s: Linear, frames: seq<Bytes>, tail: Bytes)
    requires s.unread + (Concat([]) + tail) == Concat(frames) && (frames != [] ==> |s.unread| < |frames[0]|)
    ensures Delivers(Received([], s), frames, tail)
  {
    assert Concat([]) + tail == tail;
    assert frames[0..] == frames;
  }

  lemma {:induction false} FirstChunk(chunks: seq<Bytes>, tail: Bytes)
    requires chunks != []
    ensures Concat(chunks) + tail == chunks[0] + (Concat(chunks[1..]) + tail)
  {
  }

  lemma {:induction false} SliceTwice<T>(s: seq<T>, i: nat, j: nat)
    requires i + j <= |s|
    ensures s[..i + j] == s[..i] + s[i..][..j] && s[i + j..] == s[i..][j..]
  {
  }

  lemma {:induction false} NothingLost(r: Outcome, frames: seq<Bytes>, sent: Bytes, tail: Bytes)
    requires Delivers(r, frames, tail) && sent + tail == Concat(frames)
    ensures r.Received? && |r.frames| <= |frames| && r.frames == frames[..|r.frames|]
    ensures |r.frames| < |frames| ==> |r.buffer.unread| < |frames[|r.frames|]|
    ensures Concat(r.frames) + r.buffer.unread == sent && (sent == Concat(frames) ==> r.frames == frames)
  {
    hide Concat;
    var k := |r.frames|;
    assert frames == frames[..k] + frames[k..];
    ConcatAppend(frames[..k], frames[k..]);
    assert Concat(r.frames) + r.buffer.unread + tail == Concat(r.frames) + (r.buffer.unread + tail);
    SameTail(Concat(r.frames) + r.buffer.unread, sent, tail);
    if k < |frames| {
      FirstIsShorter(frames, k);
    }
  }

  lemma {:induction false} FirstIsShorter(frames: seq<Bytes>, k: nat)
    requires k < |frames|
    ensures |frames[k]| <= |Concat(frames[k..])|
  {
  }

  lemma {:induction false} SameTail(a: Bytes, b: Bytes, tail: Bytes)
    requires a + tail == b + tail
    ensures a == b
  {
    assert |a| == |b|;
    assert (a + tail)[..|a|] == a && (b + tail)[..|b|] == b;
  }

  lemma {:induction false} ConcatAppend(a: seq<Bytes>, b: seq<Bytes>)
    ensures Concat(a + b) == Concat(a) + Concat(b)
  {
    if a == [] {
      assert a + b == b;
    } else {
      assert (a + b)[1..] == a[1..] + b;
      ConcatAppend(a[1..], b);
    }
  }

  // ----- Some traffic -----

  /** A frame of n bytes: its length and zeros. */
  function FrameOf(n: nat): (f: Bytes)
    requires 2 <= n < 0x1_0000
    ensures |f| == n && FrameLength(f) == n
  {
    [n % 256, n / 256] + seq(n - 2, _ => 0)
  }

  function Copies(f: Bytes, k: nat): (r: Bytes)
    ensures |r| == k * |f|
  {
    if k == 0 then [] else f + Copies(f, k - 1)
  }

  lemma {:induction false} CopiesSnoc(f: Bytes, k: nat)
    ensures Copies(f, k) + f == Copies(f, k + 1)
  {
    if k > 0 {
      CopiesSnoc(f, k - 1);
      assert Copies(f, k) + f == f + (Copies(f, k - 1) + f);
    }
  }

  lemma {:induction false} CopiesConcat(f: Bytes, k: nat) returns (frames: seq<Bytes>)
    ensures Concat(frames) == Copies(f, k) && forall i :: 0 <= i < |frames| ==> frames[i] == f
  {
    if k == 0 {
      frames := [];
    } else {
      var rest := CopiesConcat(f, k - 1);
      frames := [f] + rest;
      assert frames[1..] == rest;
    }
  }

  /** A string as chunks of one byte. */
  function Singles(b: Bytes): seq<Bytes> {
    if b == [] then [] else [[b[0]]] + Singles(b[1..])
  }

  lemma {:induction false} SinglesConcat(b: Bytes, last: Bytes)
    ensures Concat(Singles(b) + [last]) == b + last
    ensures forall i :: 0 <= i < |Singles(b)| ==> |Singles(b)[i]| == 1
  {
    hide Concat;
    if b == [] {
      assert Singles(b) + [last] == [last];
      ConcatOne(last);
      assert [] + last == last;
    } else {
      var first, rest := [b[0]], b[1..];
      SinglesConcat(rest, last);
      ConcatCons(Singles(b) + [last]);
      assert (Singles(b) + [last])[1..] == Singles(rest) + [last];
      assert b == first + rest && first + (rest + last) == first + rest + last;
    }
  }

  lemma {:induction false} ConcatOne(b: Bytes)
    ensures Concat([b]) == b
  {
    assert Concat([]) == [];
  }

  lemma {:induction false} Monotone(a: nat, b: nat, n: nat)
    requires a <= b
    ensures a * n <= b * n
  {
  }
}
