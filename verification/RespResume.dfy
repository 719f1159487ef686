/**
 What is left to do after part of a reply has been read, and how each step of the
 reader changes it. A step never changes what the remaining bytes will mean.
 */
module RespResume {
  import opened ByteStrings
  import opened Decimal
  import opened RespGrammar

  /** An open aggregate: its type, its number of slots, and the elements completed so far. */
  datatype Frame = Frame(kind: Kind, count: nat, read: seq<Reply>)

  /**
   Running: inside the given open aggregates, with the type of the current item if its
   type byte was consumed. Finished: the root reply is complete. Failed: error state.
   */
  datatype Control =
    | Running(frames: seq<Frame>, current: Option<Kind>)
    | Finished(reply: Reply)
    | Failed(error: ErrorKind)

  const IDLE := Running([], None)

  predicate FramesOk(frames: seq<Frame>) {
    |frames| <= MAX_DEPTH
    && forall i :: 0 <= i < |frames| ==>
      frames[i].kind.IsAggregate() && |frames[i].read| < frames[i].count <= INT_MAX
  }

  predicate ControlOk(c: Control) {
    c.Running? ==>
      FramesOk(c.frames) && (c.current.Some? && c.current.value.IsAggregate() ==> |c.frames| < MAX_DEPTH)
  }

  function DropLast<T>(s: seq<T>): seq<T>
    requires s != []
  {
    s[..|s| - 1]
  }

  function Last<T>(s: seq<T>): T
    requires s != []
  {
    s[|s| - 1]
  }

  /** The outcome of the root reply once the innermost value has outcome `o` on the bytes `t`. */
  function Unwind(frames: seq<Frame>, o: Outcome, t: Bytes, isDouble: DoubleTest): (r: Outcome)
    requires FramesOk(frames) && (o.Done? ==> o.used <= |t|)
    ensures r.Done? ==> r.used <= |t|
    decreases |frames|
  {
    if frames == [] || !o.Done? then o
    else
      var f := Last(frames);
      var elements := ParseElements(f.kind, f.count, f.read + [o.reply], t[o.used..], |frames|, isDouble);
      Unwind(DropLast(frames), Shift(o.used, elements), t, isDouble)
  }

  /** The outcome of the root reply when `t` is all that remains to be read. */
  function Resume(c: Control, t: Bytes, isDouble: DoubleTest): (r: Outcome)
    requires ControlOk(c)
    ensures r.Done? ==> r.used <= |t|
  {
    match c
    case Failed(e) => Fail(e)
    case Finished(r) => Done(r, 0)
    case Running(frames, None) => Unwind(frames, ParseValue(t, |frames|, isDouble), t, isDouble)
    case Running(frames, Some(k)) => Unwind(frames, ParseBody(k, t, |frames|, isDouble), t, isDouble)
  }

  /** The state after a value completes: full aggregates complete with it. */
  function Complete(frames: seq<Frame>, v: Reply): (c: Control)
    requires FramesOk(frames)
    ensures ControlOk(c)
    ensures c.Finished? || (c.Running? && 1 <= |c.frames| <= |frames|)
    decreases |frames|
  {
    if frames == [] then Finished(v)
    else
      var f := Last(frames);
      if |f.read| + 1 == f.count then Complete(DropLast(frames), Wrap(f.kind, f.read + [v]))
      else Running(DropLast(frames) + [Frame(f.kind, f.count, f.read + [v])], None)
  }

  /**
   Reading the bytes `k` turned state `c` into `c'`: whatever follows, the root reply comes
   out the same, |k| bytes later.
   */
  ghost predicate Steps(c: Control, k: Bytes, c': Control, isDouble: DoubleTest)
    requires ControlOk(c) && ControlOk(c')
  {
    forall t: Bytes :: Resume(c, k + t, isDouble) == Shift(|k|, Resume(c', t, isDouble))
  }

  lemma {:induction false} StepsNothing(c: Control, isDouble: DoubleTest)
    requires ControlOk(c)
    ensures Steps(c, [], c, isDouble)
  {
    forall t: Bytes ensures Resume(c, [] + t, isDouble) == Shift(0, Resume(c, t, isDouble)) {
      assert [] + t == t;
    }
  }

  lemma {:induction false} StepsTrans(c: Control, k: Bytes, c': Control, k': Bytes, c'': Control, isDouble: DoubleTest)
    requires ControlOk(c) && ControlOk(c') && ControlOk(c'')
    requires Steps(c, k, c', isDouble) && Steps(c', k', c'', isDouble)
    ensures Steps(c, k + k', c'', isDouble)
  {
    hide Resume;
    forall t: Bytes
      ensures Resume(c, k + k' + t, isDouble) == Shift(|k + k'|, Resume(c'', t, isDouble))
    {
      assert k + k' + t == k + (k' + t);
      assert Resume(c, k + (k' + t), isDouble) == Shift(|k|, Resume(c', k' + t, isDouble));
    }
  }

  lemma {:induction false} UnwindShift(frames: seq<Frame>, a: Bytes, o: Outcome, t: Bytes, isDouble: DoubleTest)
    requires FramesOk(frames) && (o.Done? ==> o.used <= |t|)
    ensures Unwind(frames, Shift(|a|, o), a + t, isDouble) == Shift(|a|, Unwind(frames, o, t, isDouble))
    decreases |frames|
  {
    if frames != [] && o.Done? {
      var f := Last(frames);
      assert (a + t)[o.used + |a|..] == t[o.used..];
      var elements := ParseElements(f.kind, f.count, f.read + [o.reply], t[o.used..], |frames|, isDouble);
      UnwindShift(DropLast(frames), a, Shift(o.used, elements), t, isDouble);
      assert Shift(|a|, Shift(o.used, elements)) == Shift(o.used + |a|, elements);
    }
  }

  /** Completing a value and then going on is the same as resuming from the completed state. */
  lemma {:induction false} CompleteResumes(frames: seq<Frame>, v: Reply, t: Bytes, isDouble: DoubleTest)
    requires FramesOk(frames)
    ensures Unwind(frames, Done(v, 0), t, isDouble) == Resume(Complete(frames, v), t, isDouble)
    decreases |frames|
  {
    if frames != [] {
      var f := Last(frames);
      assert t[0..] == t;
      if |f.read| + 1 == f.count {
        CompleteResumes(DropLast(frames), Wrap(f.kind, f.read + [v]), t, isDouble);
      } else {
        hide ParseElements, ParseValue, Resume;
        var g := Frame(f.kind, f.count, f.read + [v]);
        var frames' := DropLast(frames) + [g];
        assert DropLast(frames') == DropLast(frames) && Last(frames') == g;
        NextElement(frames', t, isDouble);
      }
    }
  }

  /** Waiting for the next element of the innermost aggregate. */
  lemma {:induction false} NextElement(frames: seq<Frame>, t: Bytes, isDouble: DoubleTest)
    requires FramesOk(frames) && frames != []
    ensures var f := Last(frames);
      Resume(Running(frames, None), t, isDouble)
      == Unwind(DropLast(frames), ParseElements(f.kind, f.count, f.read, t, |frames|, isDouble), t, isDouble)
  {
    var f := Last(frames);
    var o := ParseValue(t, |frames|, isDouble);
    if !o.Done? {
      assert ParseElements(f.kind, f.count, f.read, t, |frames|, isDouble) == o;
    }
  }

  /** The line at hand decides a body whatever follows. */
  lemma {:induction false} BodyOfLine(k: Kind, line: Bytes, t: Bytes, depth: nat, isDouble: DoubleTest)
    requires FindCRLF(line + CRLF) == Some(|line|)
    requires k.IsAggregate() ==> depth != MAX_DEPTH
    ensures ParseBody(k, line + CRLF + t, depth, isDouble) == ParseRest(k, line, t, depth, isDouble)
  {
    FindCRLFPrefix(line + CRLF, |line|, t);
    var s := line + CRLF + t;
    assert s[..|line|] == line && s[|line| + 2..] == t;
  }

  /** A type byte only selects the type of the current item. */
  lemma {:induction false} TypeStep(frames: seq<Frame>, b: byte, isDouble: DoubleTest)
    requires ControlOk(Running(frames, None))
    requires KindOf(b).Some? && ControlOk(Running(frames, KindOf(b)))
    ensures Steps(Running(frames, None), [b], Running(frames, KindOf(b)), isDouble)
  {
    forall t: Bytes
      ensures Resume(Running(frames, None), [b] + t, isDouble)
           == Shift(1, Resume(Running(frames, KindOf(b)), t, isDouble))
    {
      assert ([b] + t)[1..] == t;
      UnwindShift(frames, [b], ParseBody(KindOf(b).value, t, |frames|, isDouble), t, isDouble);
    }
  }

  /** An unknown type byte, or an aggregate inside eight others, is an error at once. */
  lemma {:induction false} BadTypeStep(frames: seq<Frame>, b: byte, isDouble: DoubleTest)
    requires ControlOk(Running(frames, None))
    requires KindOf(b).None? || (KindOf(b).value.IsAggregate() && |frames| == MAX_DEPTH)
    ensures Steps(Running(frames, None), [b], Failed(Protocol), isDouble)
  {
    forall t: Bytes
      ensures Resume(Running(frames, None), [b] + t, isDouble) == Fail(Protocol)
    {
      BadTypeFails([b] + t, |frames|, isDouble);
    }
  }

  lemma {:induction false} BadTypeFails(s: Bytes, depth: nat, isDouble: DoubleTest)
    requires s != [] && (KindOf(s[0]).None? || (KindOf(s[0]).value.IsAggregate() && depth == MAX_DEPTH))
    ensures ParseValue(s, depth, isDouble) == Fail(Protocol)
  {
  }

  /** A value that ends exactly at the end of the bytes `k`, seen from the root. */
  lemma {:induction false} CompleteAt(frames: seq<Frame>, k: Bytes, v: Reply, t: Bytes, isDouble: DoubleTest)
    requires FramesOk(frames)
    ensures Unwind(frames, Done(v, |k|), k + t, isDouble) == Shift(|k|, Resume(Complete(frames, v), t, isDouble))
  {
    UnwindShift(frames, k, Done(v, 0), t, isDouble);
    CompleteResumes(frames, v, t, isDouble);
  }

  lemma {:induction false} ResumeBody(frames: seq<Frame>, kind: Kind, s: Bytes, isDouble: DoubleTest)
    requires ControlOk(Running(frames, Some(kind)))
    ensures Resume(Running(frames, Some(kind)), s, isDouble)
         == Unwind(frames, ParseBody(kind, s, |frames|, isDouble), s, isDouble)
  {
  }

  lemma {:induction false} FailAt(frames: seq<Frame>, k: nat, s: Bytes, e: ErrorKind, t: Bytes, isDouble: DoubleTest)
    requires FramesOk(frames)
    ensures Unwind(frames, Fail(e), s, isDouble) == Shift(k, Resume(Failed(e), t, isDouble))
  {
  }

  /** Where a line item goes. */
  function AfterLine(frames: seq<Frame>, kind: Kind, line: Bytes, isDouble: DoubleTest): (c: Control)
    requires FramesOk(frames) && !kind.IsAggregate() && kind != KString
    ensures ControlOk(c)
    ensures c.Running? ==> c.frames != []
  {
    match LineReply(kind, line, isDouble)
    case Some(v) => Complete(frames, v)
    case None => Failed(Protocol)
  }

  lemma {:induction false} LineStep(frames: seq<Frame>, kind: Kind, line: Bytes, isDouble: DoubleTest)
    requires FramesOk(frames) && !kind.IsAggregate() && kind != KString
    requires FindCRLF(line + CRLF) == Some(|line|)
    ensures Steps(Running(frames, Some(kind)), line + CRLF, AfterLine(frames, kind, line, isDouble), isDouble)
  {
    var c, c' := Running(frames, Some(kind)), AfterLine(frames, kind, line, isDouble);
    forall t: Bytes
      ensures Resume(c, line + CRLF + t, isDouble) == Shift(|line + CRLF|, Resume(c', t, isDouble))
    {
      LineAt(frames, kind, line, t, isDouble);
    }
  }

  lemma {:induction false} LineAt(frames: seq<Frame>, kind: Kind, line: Bytes, t: Bytes, isDouble: DoubleTest)
    requires FramesOk(frames) && !kind.IsAggregate() && kind != KString
    requires FindCRLF(line + CRLF) == Some(|line|)
    ensures Resume(Running(frames, Some(kind)), line + CRLF + t, isDouble)
         == Shift(|line + CRLF|, Resume(AfterLine(frames, kind, line, isDouble), t, isDouble))
  {
    BodyOfLine(kind, line, t, |frames|, isDouble);
    match LineReply(kind, line, isDouble)
    case Some(v) => CompleteAt(frames, line + CRLF, v, t, isDouble);
    case None =>
  }

  /** Where a complete bulk item goes; `rest` holds the body and the two bytes after it. */
  function AfterBulk(frames: seq<Frame>, line: Bytes, rest: Bytes): (c: Control)
    requires FramesOk(frames) && !BulkRest(line, rest).More?
    ensures ControlOk(c)
    ensures c.Running? ==> c.frames != []
  {
    match BulkRest(line, rest)
    case Done(v, _) => Complete(frames, v)
    case Fail(e) => Failed(e)
  }

  lemma {:induction false} BulkStep(frames: seq<Frame>, line: Bytes, rest: Bytes, isDouble: DoubleTest)
    requires FramesOk(frames) && !BulkRest(line, rest).More?
    requires BulkRest(line, rest).Done? ==> BulkRest(line, rest).used == |rest|
    requires FindCRLF(line + CRLF) == Some(|line|)
    ensures Steps(Running(frames, Some(KString)), line + CRLF + rest, AfterBulk(frames, line, rest), isDouble)
  {
    var c, c' := Running(frames, Some(KString)), AfterBulk(frames, line, rest);
    var k := line + CRLF + rest;
    forall t: Bytes
      ensures Resume(c, k + t, isDouble) == Shift(|k|, Resume(c', t, isDouble))
    {
      BulkAt(frames, line, rest, t, isDouble);
    }
  }

  lemma {:induction false} BulkAt(frames: seq<Frame>, line: Bytes, rest: Bytes, t: Bytes, isDouble: DoubleTest)
    requires FramesOk(frames) && !BulkRest(line, rest).More?
    requires BulkRest(line, rest).Done? ==> BulkRest(line, rest).used == |rest|
    requires FindCRLF(line + CRLF) == Some(|line|)
    ensures Resume(Running(frames, Some(KString)), line + CRLF + rest + t, isDouble)
         == Shift(|line + CRLF + rest|, Resume(AfterBulk(frames, line, rest), t, isDouble))
  {
    BulkRestPrefix(line, rest, t);
    assert line + CRLF + rest + t == line + CRLF + (rest + t);
    BodyOfLine(KString, line, rest + t, |frames|, isDouble);
    ResumeBody(frames, KString, line + CRLF + rest + t, isDouble);
    match BulkRest(line, rest)
    case Done(v, used) => CompleteAt(frames, line + CRLF + rest, v, t, isDouble);
    case Fail(e) => FailAt(frames, |line + CRLF + rest|, line + CRLF + rest + t, e, t, isDouble);
  }

  lemma {:induction false} BulkRestPrefix(line: Bytes, rest: Bytes, t: Bytes)
    requires !BulkRest(line, rest).More?
    ensures BulkRest(line, rest + t) == BulkRest(line, rest)
  {
    match BulkRest(line, rest)
    case Done(v, used) => assert used >= 2 ==> (rest + t)[..used - 2] == rest[..used - 2];
    case Fail(e) =>
  }

  /** A header line whose body is not complete leaves the item undecided. */
  lemma {:induction false} BulkWaits(frames: seq<Frame>, s: Bytes, n: nat, isDouble: DoubleTest)
    requires FramesOk(frames) && FindCRLF(s) == Some(n)
    requires BulkRest(s[..n], s[n + 2..]) == More
    ensures Resume(Running(frames, Some(KString)), s, isDouble) == More
  {
    ResumeBody(frames, KString, s, isDouble);
    assert ParseRest(KString, s[..n], s[n + 2..], |frames|, isDouble) == More;
  }

  /** An item without its line end is undecided. */
  lemma {:induction false} LineWaits(frames: seq<Frame>, kind: Kind, s: Bytes, isDouble: DoubleTest)
    requires ControlOk(Running(frames, Some(kind))) && FindCRLF(s) == None
    ensures Resume(Running(frames, Some(kind)), s, isDouble) == More
  {
  }

  /** The bytes of a complete bulk item at the start of `s`, `size` of them after the header line. */
  lemma {:induction false} BulkPrefixStep(frames: seq<Frame>, s: Bytes, n: nat, size: nat, isDouble: DoubleTest)
    requires FramesOk(frames) && FindCRLF(s) == Some(n)
    requires var o := BulkRest(s[..n], s[n + 2..]); !o.More? && size == (if o.Done? then o.used else 0)
    ensures n + 2 + size <= |s|
    ensures Steps(Running(frames, Some(KString)), s[..n + 2 + size], AfterBulk(frames, s[..n], s[n + 2..]), isDouble)
  {
    FindCRLFLine(s, n);
    var line, rest := s[..n], s[n + 2..];
    assert size >= 2 ==> rest[..size][..size - 2] == rest[..size - 2];
    assert BulkRest(line, rest[..size]) == BulkRest(line, rest);
    BulkStep(frames, line, rest[..size], isDouble);
    assert s[..n + 2 + size] == line + CRLF + rest[..size];
  }

  /** Where the header of an aggregate goes. */
  function AfterHeader(frames: seq<Frame>, kind: Kind, line: Bytes): (c: Control)
    requires FramesOk(frames) && kind.IsAggregate() && |frames| < MAX_DEPTH
    ensures ControlOk(c)
    ensures c.Running? ==> c.frames != []
  {
    match ParseLL(line)
    case None => Failed(Protocol)
    case Some(n) =>
      if n < -1 then Failed(Protocol)
      else if n == -1 then Complete(frames, Nil)
      else if SlotCount(kind, n) > INT_MAX then Failed(OutOfMemory)
      else if n == 0 then Complete(frames, Wrap(kind, []))
      else Running(frames + [Frame(kind, SlotCount(kind, n), [])], None)
  }

  lemma {:induction false} HeaderStep(frames: seq<Frame>, kind: Kind, line: Bytes, isDouble: DoubleTest)
    requires FramesOk(frames) && kind.IsAggregate() && |frames| < MAX_DEPTH
    requires FindCRLF(line + CRLF) == Some(|line|)
    ensures Steps(Running(frames, Some(kind)), line + CRLF, AfterHeader(frames, kind, line), isDouble)
  {
    var c, c' := Running(frames, Some(kind)), AfterHeader(frames, kind, line);
    forall t: Bytes
      ensures Resume(c, line + CRLF + t, isDouble) == Shift(|line + CRLF|, Resume(c', t, isDouble))
    {
      HeaderAt(frames, kind, line, t, isDouble);
    }
  }

  lemma {:induction false} HeaderAt(frames: seq<Frame>, kind: Kind, line: Bytes, t: Bytes, isDouble: DoubleTest)
    requires FramesOk(frames) && kind.IsAggregate() && |frames| < MAX_DEPTH
    requires FindCRLF(line + CRLF) == Some(|line|)
    ensures Resume(Running(frames, Some(kind)), line + CRLF + t, isDouble)
         == Shift(|line| + 2, Resume(AfterHeader(frames, kind, line), t, isDouble))
  {
    var k := line + CRLF;
    BodyOfLine(kind, line, t, |frames|, isDouble);
    ResumeBody(frames, kind, k + t, isDouble);
    FailAt(frames, |k|, k + t, Protocol, t, isDouble);
    FailAt(frames, |k|, k + t, OutOfMemory, t, isDouble);
    match ParseLL(line)
    case None =>
    case Some(n) =>
      if n == -1 {
        CompleteAt(frames, k, Nil, t, isDouble);
      } else if n == 0 {
        CompleteAt(frames, k, Wrap(kind, []), t, isDouble);
      } else if 0 < n && SlotCount(kind, n) <= INT_MAX {
        OpenAt(frames, kind, SlotCount(kind, n), k, t, isDouble);
      }
  }

  /** The header of a non-empty aggregate opens a frame. */
  lemma {:induction false} OpenAt(frames: seq<Frame>, kind: Kind, count: nat, k: Bytes, t: Bytes, isDouble: DoubleTest)
    requires FramesOk(frames) && kind.IsAggregate() && |frames| < MAX_DEPTH && 0 < count <= INT_MAX
    requires ParseBody(kind, k + t, |frames|, isDouble)
          == Shift(|k|, ParseElements(kind, count, [], t, |frames| + 1, isDouble))
    ensures Resume(Running(frames, Some(kind)), k + t, isDouble)
         == Shift(|k|, Resume(Running(frames + [Frame(kind, count, [])], None), t, isDouble))
  {
    var frames' := frames + [Frame(kind, count, [])];
    NextElement(frames', t, isDouble);
    assert DropLast(frames') == frames;
    UnwindShift(frames, k, ParseElements(kind, count, [], t, |frames| + 1, isDouble), t, isDouble);
  }

  /** With no bytes left, a reply under way is undecided. */
  lemma {:induction false} EmptyWaits(c: Control, isDouble: DoubleTest)
    requires ControlOk(c) && c.Running?
    ensures Resume(c, [], isDouble) == More
  {
    if c.current.Some? {
      LineWaits(c.frames, c.current.value, [], isDouble);
    }
  }

  lemma {:induction false} UnwindUses(frames: seq<Frame>, o: Outcome, t: Bytes, isDouble: DoubleTest)
    requires FramesOk(frames) && (o.Done? ==> o.used <= |t|)
    ensures var r := Unwind(frames, o, t, isDouble); r.Done? ==> o.Done? && o.used <= r.used
    decreases |frames|
  {
    if frames != [] && o.Done? {
      var f := Last(frames);
      var elements := ParseElements(f.kind, f.count, f.read + [o.reply], t[o.used..], |frames|, isDouble);
      UnwindUses(DropLast(frames), Shift(o.used, elements), t, isDouble);
    }
  }

  /** A reply under way takes at least one more byte. */
  lemma {:induction false} ResumeUses(c: Control, t: Bytes, isDouble: DoubleTest)
    requires ControlOk(c) && c.Running?
    ensures var r := Resume(c, t, isDouble); r.Done? ==> r.used >= 1
  {
    match c.current
    case None => UnwindUses(c.frames, ParseValue(t, |c.frames|, isDouble), t, isDouble);
    case Some(k) =>
      var o := ParseBody(k, t, |c.frames|, isDouble);
      UnwindUses(c.frames, o, t, isDouble);
  }
}
