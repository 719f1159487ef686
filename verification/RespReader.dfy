/**
 The incremental reader of read.c: a buffer with a cursor, a stack of nine read tasks,
 and a reply tree under construction.
 */
module RespReader {
  import opened ByteStrings
  import opened Decimal
  import opened RespGrammar
  import opened RespResume
  import opened ReplyObjects

  type Slots = seq<array<ReplyObject?>>

  /** The index in its parent of the item being read inside `frames`. */
  function ChildIndex(frames: seq<Frame>): int {
    if frames == [] then -1 else |Last(frames).read|
  }

  /** Task i holds the i-th open aggregate, filled as far as it has been read. */
  ghost predicate TaskOk(rstack: array<ReadTask>, frames: seq<Frame>, open: seq<ReplyObject>, slots: Slots,
                         built: set<array<ReplyObject?>>, i: nat)
    requires rstack.Length == 9 && i < |frames| == |open| == |slots| <= MAX_DEPTH
    reads rstack, slots, built
  {
    var f := frames[i];
    && rstack[i] == ReadTask(Some(f.kind), f.count, ChildIndex(frames[..i]), open[i], i - 1)
    && open[i].kind == f.kind && open[i].elements == f.count && open[i].element == slots[i]
    && slots[i].Length == f.count && |f.read| < f.count
    && slots[i] !in built
    && (forall j :: 0 <= j < |f.read| ==> Rep(slots[i][j], f.read[j], built))
    && (i + 1 < |frames| ==> slots[i][|f.read|] == open[i + 1])
  }

  ghost predicate StackOk(rstack: array<ReadTask>, frames: seq<Frame>, open: seq<ReplyObject>, slots: Slots,
                          built: set<array<ReplyObject?>>)
    reads rstack, slots, built
  {
    && rstack.Length == 9 && FramesOk(frames) && |frames| == |open| == |slots|
    && (forall i :: 0 <= i < |frames| ==> TaskOk(rstack, frames, open, slots, built, i))
    && (forall i, j :: 0 <= i < j < |slots| ==> slots[i] != slots[j])
  }

  /** The value `v`, held by `o`, has just been stored as the next element of the innermost aggregate. */
  ghost predicate Stored(frames: seq<Frame>, slots: Slots, o: ReplyObject?)
    requires FramesOk(frames) && |frames| == |slots|
    reads slots
  {
    frames != [] ==> |Last(frames).read| < Last(slots).Length && Last(slots)[|Last(frames).read|] == o
  }

  /** Closing a full aggregate makes its object complete and stores it in the next one out. */
  lemma {:induction false} CloseFrame(rstack: array<ReadTask>, frames: seq<Frame>, open: seq<ReplyObject>, slots: Slots,
                                      built: set<array<ReplyObject?>>, o: ReplyObject?, v: Reply)
    requires StackOk(rstack, frames, open, slots, built) && frames != []
    requires Stored(frames, slots, o) && Rep(o, v, built)
    requires |Last(frames).read| + 1 == Last(frames).count
    ensures var built' := built + {Last(slots)};
      && StackOk(rstack, DropLast(frames), DropLast(open), DropLast(slots), built')
      && Stored(DropLast(frames), DropLast(slots), Last(open))
      && Rep(Last(open), Wrap(Last(frames).kind, Last(frames).read + [v]), built')
  {
    var built' := built + {Last(slots)};
    var n := |frames| - 1;
    assert TaskOk(rstack, frames, open, slots, built, n);
    forall i | 0 <= i < n
      ensures TaskOk(rstack, DropLast(frames), DropLast(open), DropLast(slots), built', i)
    {
      assert TaskOk(rstack, frames, open, slots, built, i);
      assert DropLast(frames)[..i] == frames[..i];
      forall j | 0 <= j < |frames[i].read|
        ensures Rep(slots[i][j], frames[i].read[j], built')
      {
        RepGrows(slots[i][j], frames[i].read[j], built, built');
      }
    }
    var es := Last(frames).read + [v];
    forall j | 0 <= j < |es|
      ensures Rep(Last(slots)[j], es[j], built')
    {
      RepGrows(Last(slots)[j], es[j], built, built');
    }
    if n > 0 {
      assert TaskOk(rstack, frames, open, slots, built, n - 1);
    }
  }

  /** Storing an element that does not fill its aggregate. */
  lemma {:induction false} ExtendFrame(rstack: array<ReadTask>, frames: seq<Frame>, open: seq<ReplyObject>, slots: Slots,
                                       built: set<array<ReplyObject?>>, o: ReplyObject?, v: Reply)
    requires StackOk(rstack, frames, open, slots, built) && frames != []
    requires Stored(frames, slots, o) && Rep(o, v, built)
    requires |Last(frames).read| + 1 < Last(frames).count
    ensures var f := Last(frames);
      StackOk(rstack, DropLast(frames) + [Frame(f.kind, f.count, f.read + [v])], open, slots, built)
  {
    var f := Last(frames);
    var frames' := DropLast(frames) + [Frame(f.kind, f.count, f.read + [v])];
    forall i | 0 <= i < |frames|
      ensures TaskOk(rstack, frames', open, slots, built, i)
    {
      assert TaskOk(rstack, frames, open, slots, built, i);
      assert frames'[..i] == frames[..i];
    }
  }

  /** What the bytes still to come will add to the replies already handed out. */
  function Continue(c: Control, t: Bytes, isDouble: DoubleTest): Trace
    requires ControlOk(c)
  {
    match Resume(c, t, isDouble)
    case Done(v, used) => Before([v], ParseStream(t[used..], isDouble))
    case More => Trace([], None)
    case Fail(e) => Trace([], Some(e))
  }

  /** Having consumed `consumed` and handed out `emitted`, state `c` is on course for the stream's replies. */
  ghost predicate OnCourse(consumed: Bytes, emitted: seq<Reply>, c: Control, isDouble: DoubleTest)
    requires ControlOk(c)
  {
    forall t: Bytes :: ParseStream(consumed + t, isDouble) == Before(emitted, Continue(c, t, isDouble))
  }

  lemma {:induction false} OnCourseStart(isDouble: DoubleTest)
    ensures OnCourse([], [], IDLE, isDouble)
  {
    forall t: Bytes
      ensures ParseStream([] + t, isDouble) == Before([], Continue(IDLE, t, isDouble))
    {
      assert [] + t == t;
    }
  }

  lemma {:induction false} OnCourseStep(consumed: Bytes, emitted: seq<Reply>, c: Control, k: Bytes, c': Control, isDouble: DoubleTest)
    requires ControlOk(c) && ControlOk(c')
    requires OnCourse(consumed, emitted, c, isDouble) && Steps(c, k, c', isDouble)
    ensures OnCourse(consumed + k, emitted, c', isDouble)
  {
    hide Resume, ParseStream;
    forall t: Bytes
      ensures ParseStream(consumed + k + t, isDouble) == Before(emitted, Continue(c', t, isDouble))
    {
      assert consumed + k + t == consumed + (k + t);
      assert Continue(c, k + t, isDouble) == Continue(c', t, isDouble) by {
        var o := Resume(c', t, isDouble);
        assert Resume(c, k + t, isDouble) == Shift(|k|, o);
        assert o.Done? ==> (k + t)[o.used + |k|..] == t[o.used..];
      }
    }
  }

  lemma {:induction false} OnCourseEmit(consumed: Bytes, emitted: seq<Reply>, v: Reply, isDouble: DoubleTest)
    requires OnCourse(consumed, emitted, Finished(v), isDouble)
    ensures OnCourse(consumed, emitted + [v], IDLE, isDouble)
  {
    forall t: Bytes
      ensures ParseStream(consumed + t, isDouble) == Before(emitted + [v], Continue(IDLE, t, isDouble))
    {
      assert t[0..] == t;
      var rest := ParseStream(t, isDouble);
      assert Continue(IDLE, t, isDouble) == rest;
      assert emitted + ([v] + rest.replies) == emitted + [v] + rest.replies;
    }
  }

  /** Which of the builder functions to call. */
  datatype Build = Line(text: Bytes) | BulkString(text: Bytes) | NilValue | Elements(count: nat)

  lemma {:induction false} ResumeSettled(c: Control, t: Bytes, isDouble: DoubleTest)
    requires ControlOk(c)
    ensures c.Failed? ==> Resume(c, t, isDouble) == Fail(c.error)
    ensures c.Finished? ==> Resume(c, t, isDouble) == Done(c.reply, 0)
  {
  }

  lemma {:induction false} StepsAt(c: Control, k: Bytes, c': Control, s: Bytes, isDouble: DoubleTest)
    requires ControlOk(c) && ControlOk(c') && k <= s && Steps(c, k, c', isDouble)
    ensures Resume(c, s, isDouble) == Shift(|k|, Resume(c', s[|k|..], isDouble))
  {
    assert s == k + s[|k|..];
  }

  /** Where the items processed lead: to the outcome of the reply, or to a state that waits. */
  lemma {:induction false} Advanced(c: Control, k: Bytes, c': Control, s: Bytes, isDouble: DoubleTest)
    requires ControlOk(c) && ControlOk(c') && k <= s && Steps(c, k, c', isDouble)
    requires c'.Running? ==> Resume(c', s[|k|..], isDouble) == More
    ensures match Resume(c, s, isDouble)
      case Done(v, used) => c' == Finished(v) && used == |k|
      case More => c'.Running?
      case Fail(e) => c' == Failed(e)
  {
    hide Resume, Steps, ControlOk;
    StepsAt(c, k, c', s, isDouble);
    ResumeSettled(c', s[|k|..], isDouble);
  }

  /** The leaf value that a builder call makes. */
  function LeafOf(what: Build): Reply
    requires what.NilValue? || what.BulkString?
  {
    if what.NilValue? then Nil else Bulk(what.text)
  }

  /** What a bulk item in the buffer amounts to, with the number of bytes it takes. */
  datatype BulkScan = Incomplete | Malformed(bytelen: nat) | Ready(what: Build, bytelen: nat)

  class RedisReader {
    var err: Option<ErrorKind>
    var buf: Bytes
    var pos: nat
    var len: nat
    const rstack: array<ReadTask>
    var ridx: int
    var reply: ReplyObject?
    const isDouble: DoubleTest

    /** The state as the grammar sees it, and the objects that realize it. */
    ghost var control: Control
    ghost var open: seq<ReplyObject>
    ghost var slots: Slots
    ghost var built: set<array<ReplyObject?>>

    /** All bytes offered, the part of them consumed, and the replies handed out. */
    ghost var history: Bytes
    ghost var consumed: Bytes
    ghost var emitted: seq<Reply>

    ghost predicate Coupled()
      reads this, rstack, slots, built
    {
      && rstack.Length == 9 && len == |buf| && pos <= len && ControlOk(control)
      && match control
         case Failed(e) => err == Some(e) && ridx == -1 && buf == [] && reply == null && open == [] && slots == []
         case Finished(v) => err == None && ridx == -1 && Rep(reply, v, built) && open == [] && slots == []
         case Running(frames, current) =>
           && err == None && StackOk(rstack, frames, open, slots, built)
           && (ridx == |frames| || (ridx == -1 && frames == [] && current == None))
           && (ridx >= 0 ==> AtItem(frames) && rstack[ridx].kind == current)
           && reply == (if frames == [] then null else open[0])
    }

    /** The top task is the next child of the innermost aggregate. */
    ghost predicate AtItem(frames: seq<Frame>)
      requires rstack.Length == 9
      reads this, rstack
    {
      ridx == |frames| < 9 && rstack[ridx].parent == ridx - 1 && rstack[ridx].idx == ChildIndex(frames)
    }

    ghost predicate Valid()
      reads this, rstack, slots, built
    {
      && Coupled()
      && OnCourse(consumed, emitted, control, isDouble)
      && (history == consumed + buf[pos..] || (control.Failed? && consumed <= history))
    }

    ghost function Rest(): Bytes
      requires pos <= |buf|
      reads this
    {
      buf[pos..]
    }

    /** redisReaderCreateWithFunctions, with the default reply builders. */
    constructor (isDouble: DoubleTest)
      ensures Valid() && control == IDLE && Rest() == []
      ensures history == [] && emitted == [] && slots == [] && fresh(rstack) && this.isDouble == isDouble
    {
      err, buf, pos, len := None, [], 0, 0;
      rstack := new ReadTask[9](_ => ReadTask(None, -1, 0, null, -1));
      ridx, reply := -1, null;
      this.isDouble := isDouble;
      control, open, slots, built := IDLE, [], [], {};
      history, consumed, emitted := [], [], [];
      new;
      OnCourseStart(isDouble);
    }

    /** __redisReaderSetError. */
    method SetError(e: ErrorKind)
      requires rstack.Length == 9
      modifies this`reply, this`buf, this`pos, this`len, this`ridx, this`err, this`control, this`open, this`slots
      ensures Coupled() && control == Failed(e) && slots == []
    {
      reply := null;
      buf, pos, len := [], 0, 0;
      ridx := -1;
      err := Some(e);
      control, open, slots := Failed(e), [], [];
    }

    /** seekNewline. */
    static method SeekNewline(s: Bytes) returns (r: int)
      ensures match FindCRLF(s) case Some(n) => r == n case None => r == -1
    {
      var pos, last := 0, |s| - 1;
      while pos < last
        invariant 0 <= pos && (pos <= last || pos == 0)
        invariant forall i :: 0 <= i < pos && i < last ==> !(s[i] == CR && s[i + 1] == LF)
      {
        while pos < last && s[pos] != CR
          invariant 0 <= pos <= last
          invariant forall i :: 0 <= i < pos ==> !(s[i] == CR && s[i + 1] == LF)
        {
          pos := pos + 1;
        }
        if pos == last {
          return -1;
        } else if s[pos + 1] == LF {
          return pos;
        } else {
          pos := pos + 1;
        }
      }
      return -1;
    }

    /** readLine. */
    method ReadLine() returns (line: Option<Bytes>)
      requires len == |buf| && pos <= len
      modifies this`pos
      ensures pos <= len
      ensures line == None ==> pos == old(pos) && FindCRLF(Rest()) == None
      ensures line.Some? ==> old(Rest()) == line.value + CRLF + Rest()
      ensures line.Some? ==> FindCRLF(line.value + CRLF) == Some(|line.value|)
    {
      assert buf[pos..len] == buf[pos..] == Rest();
      var s := SeekNewline(buf[pos..len]);
      if s == -1 {
        return None;
      }
      FindCRLFLine(buf[pos..], s);
      line := Some(buf[pos..][..s]);
      pos := pos + s + 2;
    }

    /** The tail of moveToNextTask: reset the top task for the next element. */
    method NextSibling(ghost frames: seq<Frame>)
      requires StackOk(rstack, frames, open, slots, built) && frames != []
      requires ridx == |frames| && rstack[ridx].parent == ridx - 1 && rstack[ridx].idx + 1 == ChildIndex(frames)
      modifies rstack
      ensures StackOk(rstack, frames, open, slots, built) && AtItem(frames) && rstack[ridx].kind == None
    {
      rstack[ridx] := rstack[ridx].(kind := None, elements := -1, idx := rstack[ridx].idx + 1);
      forall i | 0 <= i < |frames|
        ensures TaskOk(rstack, frames, open, slots, built, i)
      {
        assert old(TaskOk(rstack, frames, open, slots, built, i));
      }
    }

    /** The other branch of moveToNextTask: the innermost aggregate is full, and is now itself a stored value. */
    method PopTask(ghost frames: seq<Frame>, ghost o: ReplyObject?, ghost v: Reply)
      requires StackOk(rstack, frames, open, slots, built) && AtItem(frames) && frames != []
      requires Stored(frames, slots, o) && Rep(o, v, built)
      requires |Last(frames).read| + 1 == Last(frames).count
      modifies this`ridx, this`open, this`slots, this`built
      ensures ridx == old(ridx) - 1
      ensures open == DropLast(old(open)) && slots == DropLast(old(slots)) && old(built) <= built
      ensures StackOk(rstack, DropLast(frames), open, slots, built) && AtItem(DropLast(frames))
      ensures Stored(DropLast(frames), slots, Last(old(open)))
      ensures Rep(Last(old(open)), Wrap(Last(frames).kind, Last(frames).read + [v]), built)
    {
      CloseFrame(rstack, frames, open, slots, built, o, v);
      assert TaskOk(rstack, frames, open, slots, built, ridx - 1);
      assert DropLast(frames) == frames[..ridx - 1];
      built := built + {Last(slots)};
      open, slots := DropLast(open), DropLast(slots);
      ridx := ridx - 1;
    }

    /** moveToNextTask, after the value `v` was stored through the object `o`. */
    method MoveToNextTask(ghost frames: seq<Frame>, ghost o: ReplyObject?, ghost v: Reply)
      requires StackOk(rstack, frames, open, slots, built) && AtItem(frames)
      requires Stored(frames, slots, o) && Rep(o, v, built)
      modifies this`ridx, this`open, this`slots, this`built, rstack
      ensures old(built) <= built
      ensures match Complete(frames, v)
        case Finished(w) =>
          ridx == -1 && open == [] && slots == [] && Rep(if frames == [] then o else old(open)[0], w, built)
        case Running(frames', current) =>
          && StackOk(rstack, frames', open, slots, built) && AtItem(frames') && rstack[ridx].kind == current
          && |frames'| <= |old(open)| && open == old(open)[..|frames'|] && slots == old(slots)[..|frames'|]
        case Failed(_) => false
    {
      hide Rep;
      ghost var fs, w, child := frames, v, o;
      while ridx >= 0
        invariant StackOk(rstack, fs, open, slots, built) && AtItem(fs)
        invariant Stored(fs, slots, child) && Rep(child, w, built)
        invariant Complete(fs, w) == Complete(frames, v)
        invariant |fs| <= |frames| && open == old(open)[..|fs|] && slots == old(slots)[..|fs|]
        invariant old(built) <= built
        invariant fs == [] ==> child == (if frames == [] then o else old(open)[0])
        decreases ridx
      {
        if ridx == 0 {
          ridx := ridx - 1;
          return;
        }
        assert TaskOk(rstack, fs, open, slots, built, ridx - 1);
        if rstack[ridx].idx == rstack[ridx - 1].elements - 1 {
          assert DropLast(fs) == fs[..ridx - 1];
          ghost var done := Wrap(Last(fs).kind, Last(fs).read + [w]);
          ghost var closed := Last(open);
          PopTask(fs, child, w);
          fs, child, w := DropLast(fs), closed, done;
        } else {
          ExtendFrame(rstack, fs, open, slots, built, child, w);
          ghost var fs' := DropLast(fs) + [Frame(Last(fs).kind, Last(fs).count, Last(fs).read + [w])];
          NextSibling(fs');
          assert Complete(fs, w) == Running(fs', None);
          return;
        }
      }
    }

    /** Sets the reply if `obj` is the root object, then moves to the next task. */
    method Place(ghost frames: seq<Frame>, ghost current: Option<Kind>, obj: ReplyObject, ghost v: Reply)
      requires Coupled0(frames) && control == Running(frames, current)
      requires Stored(frames, slots, obj) && Rep(obj, v, built)
      modifies this`ridx, this`reply, this`open, this`slots, this`built, this`control, rstack
      ensures Coupled() && control == Complete(frames, v)
      ensures old(built) <= built
      ensures forall a :: a in slots ==> a in old(slots)
    {
      hide Resume, Steps, Rep, ParseStream, Stored, Continue, TaskOk;
      if ridx == 0 {
        reply := obj;
      }
      MoveToNextTask(frames, obj, v);
      control := Complete(frames, v);
    }

    /** Inside `frames`, at an item, with a consistent buffer and stack. */
    ghost predicate Coupled0(frames: seq<Frame>)
      reads this, rstack, slots, built
    {
      && rstack.Length == 9 && len == |buf| && pos <= len && err == None
      && StackOk(rstack, frames, open, slots, built) && AtItem(frames)
      && reply == (if frames == [] then null else open[0])
    }

    /** The object for a complete line, stored in its parent; null when the text does not fit the type. */
    method LineObject(cur: ReadTask, parent: ReplyObject?, text: Bytes) returns (obj: ReplyObject?)
      requires cur.kind.Some? && !cur.kind.value.IsAggregate() && cur.kind.value != KString
      requires parent != null ==>
        parent.kind.IsAggregate() && parent.element != null && 0 <= cur.idx < parent.element.Length
      modifies if parent != null && parent.element != null then {parent.element} else {}
      ensures match LineReply(cur.kind.value, text, isDouble)
        case None => obj == null
        case Some(v) => obj != null && fresh(obj) && Rep(obj, v, {})
      ensures obj == null && parent != null ==> parent.element[..] == old(parent.element[..])
      ensures obj != null && parent != null ==> parent.element[..] == old(parent.element[..])[cur.idx := obj]
    {
      if cur.kind == Some(KInteger) {
        var v := String2ll(text);
        if v == None {
          return null;
        }
        obj := CreateInteger(cur, parent, v.value);
      } else if cur.kind == Some(KDouble) {
        if |text| > MAX_DOUBLE || !isDouble(text) {
          return null;
        }
        obj := CreateDouble(cur, parent, text);
      } else if cur.kind == Some(KNil) {
        obj := CreateNil(cur, parent);
      } else if cur.kind == Some(KBool) {
        obj := CreateBool(cur, parent, text != [] && (text[0] == 't' as int || text[0] == 'T' as int));
      } else {
        obj := CreateString(cur, parent, text);
      }
    }

    /** The object, stored in its parent if it has one; null when the text of a line does not fit the type. */
    method Make(cur: ReadTask, parent: ReplyObject?, what: Build) returns (obj: ReplyObject?)
      requires cur.kind.Some?
      requires what.Line? ==> !cur.kind.value.IsAggregate() && cur.kind.value != KString
      requires what.BulkString? ==> cur.kind.value == KString
      requires parent != null ==>
        parent.kind.IsAggregate() && parent.element != null && 0 <= cur.idx < parent.element.Length
      modifies if parent != null && parent.element != null then {parent.element} else {}
      ensures obj != null ==> fresh(obj)
      ensures match what
        case Line(text) =>
          (match LineReply(cur.kind.value, text, isDouble)
           case None => obj == null
           case Some(v) => Rep(obj, v, {}))
        case BulkString(text) => Rep(obj, Bulk(text), {})
        case NilValue => Rep(obj, Nil, {})
        case Elements(count) =>
          && obj != null && obj.kind == cur.kind.value && obj.elements == count
          && (if count == 0 then obj.element == null
              else obj.element != null && fresh(obj.element) && obj.element.Length == count)
      ensures parent != null ==>
        parent.element[..] == if obj == null then old(parent.element[..]) else old(parent.element[..])[cur.idx := obj]
    {
      hide Resume, Steps, ParseStream, LineReply;
      match what {
        case Line(text) => obj := LineObject(cur, parent, text);
        case BulkString(text) => obj := CreateString(cur, parent, text);
        case NilValue => obj := CreateNil(cur, parent);
        case Elements(count) => obj := CreateArray(cur, parent, count);
      }
    }

    /** One call through the table of builder functions: it only writes the next element of the parent. */
    method Create(ghost frames: seq<Frame>, what: Build) returns (obj: ReplyObject?)
      requires Coupled0(frames) && rstack[ridx].kind.Some?
      requires what.Line? ==> !rstack[ridx].kind.value.IsAggregate() && rstack[ridx].kind.value != KString
      requires what.BulkString? ==> rstack[ridx].kind.value == KString
      modifies slots
      ensures Coupled0(frames)
      ensures obj != null ==> fresh(obj) && Stored(frames, slots, obj)
      ensures match what
        case Line(text) =>
          (match LineReply(rstack[ridx].kind.value, text, isDouble)
           case None => obj == null
           case Some(v) => Rep(obj, v, built))
        case BulkString(text) => Rep(obj, Bulk(text), built)
        case NilValue => Rep(obj, Nil, built)
        case Elements(count) =>
          && obj != null && obj.kind == rstack[ridx].kind.value && obj.elements == count
          && (if count == 0 then obj.element == null
              else obj.element != null && fresh(obj.element) && obj.element.Length == count)
    {
      hide Resume, Steps, ParseStream, LineReply;
      var cur := rstack[ridx];
      var parent: ReplyObject? := if cur.parent < 0 then null else rstack[cur.parent].obj;
      assert frames != [] ==> TaskOk(rstack, frames, open, slots, built, ridx - 1);
      obj := Make(cur, parent, what);
      forall i | 0 <= i < |frames|
        ensures TaskOk(rstack, frames, open, slots, built, i)
      {
        assert old(TaskOk(rstack, frames, open, slots, built, i));
        assert forall j :: 0 <= j < |frames[i].read| ==> slots[i][..][j] == old(slots[i][..])[j];
      }
      if frames != [] && obj != null {
        assert Last(slots)[|Last(frames).read|] == Last(slots)[..][|Last(frames).read|];
      }
    }

    /** The part of processLineItem that follows readLine. */
    method FinishLine(ghost frames: seq<Frame>, ghost kind: Kind, line: Bytes) returns (ok: bool)
      requires Coupled() && control == Running(frames, Some(kind)) && ridx >= 0
      requires !kind.IsAggregate() && kind != KString
      modifies this, rstack, slots
      ensures Coupled() && control == AfterLine(frames, kind, line, isDouble) && ok == !control.Failed?
      ensures ok ==> buf == old(buf) && pos == old(pos)
      ensures Unrecorded(old(history), old(consumed), old(emitted), old(built))
      ensures forall a :: a in slots ==> a in old(slots)
    {
      var obj := Create(frames, Line(line));
      if obj == null {
        SetError(Protocol);
        return false;
      }
      Place(frames, Some(kind), obj, LineReply(kind, line, isDouble).value);
      return true;
    }

    /** Handling an item records nothing and keeps every object completed before. */
    ghost predicate Unrecorded(history0: Bytes, consumed0: Bytes, emitted0: seq<Reply>, built0: set<array<ReplyObject?>>)
      reads this
    {
      history == history0 && consumed == consumed0 && emitted == emitted0 && built0 <= built
    }

    /** processLineItem. */
    method ProcessLineItem(ghost frames: seq<Frame>, ghost kind: Kind) returns (ok: bool, ghost k: Bytes)
      requires Coupled() && control == Running(frames, Some(kind)) && ridx >= 0
      requires !kind.IsAggregate() && kind != KString
      modifies this, rstack, slots
      ensures Coupled() && Progress(old(control), old(Rest()), ok, k)
      ensures Unrecorded(old(history), old(consumed), old(emitted), old(built))
      ensures forall a :: a in slots ==> a in old(slots)
    {
      hide Resume, Steps, StackOk, Rep, AfterLine;
      var line := ReadLine();
      if line == None {
        StepsNothing(control, isDouble);
        LineWaits(frames, kind, Rest(), isDouble);
        return false, [];
      }
      k := line.value + CRLF;
      LineStep(frames, kind, line.value, isDouble);
      ok := FinishLine(frames, kind, line.value);
    }

    /** The part of processBulkItem that builds an object and advances. */
    method FinishBulk(ghost frames: seq<Frame>, what: Build, bytelen: nat, ghost v: Reply)
      requires Coupled() && control == Running(frames, Some(KString)) && ridx >= 0
      requires what.NilValue? || what.BulkString?
      requires v == LeafOf(what)
      requires pos + bytelen <= len
      modifies this, rstack, slots
      ensures Coupled() && control == Complete(frames, v)
      ensures buf == old(buf) && pos == old(pos) + bytelen
      ensures Unrecorded(old(history), old(consumed), old(emitted), old(built))
      ensures forall a :: a in slots ==> a in old(slots)
    {
      hide Resume, Steps, StackOk, ParseStream, Complete;
      var obj := Create(frames, what);
      pos := pos + bytelen;
      Place(frames, Some(KString), obj, v);
    }

    /** The decisions of processBulkItem: is the item complete, and with which object. */
    static method ScanBulk(s: Bytes, isDouble: DoubleTest) returns (scan: BulkScan)
      ensures scan.Incomplete? ==>
        forall frames :: FramesOk(frames) ==> Resume(Running(frames, Some(KString)), s, isDouble) == More
      ensures !scan.Incomplete? ==> scan.bytelen <= |s| && scan.bytelen > 0
      ensures scan.Malformed? ==> forall frames :: FramesOk(frames) ==>
        Steps(Running(frames, Some(KString)), s[..scan.bytelen], Failed(Protocol), isDouble)
      ensures scan.Ready? ==> (scan.what.NilValue? || scan.what.BulkString?) && forall frames :: FramesOk(frames) ==>
        Steps(Running(frames, Some(KString)), s[..scan.bytelen], Complete(frames, LeafOf(scan.what)), isDouble)
    {
      hide Resume, Steps, Complete;
      var p := SeekNewline(s);
      if p == -1 {
        forall frames | FramesOk(frames) ensures Resume(Running(frames, Some(KString)), s, isDouble) == More {
          LineWaits(frames, KString, s, isDouble);
        }
        return Incomplete;
      }
      var bytelen := p + 2;
      var n := String2ll(s[..p]);
      if n == None || n.value < -1 {
        forall frames | FramesOk(frames)
          ensures Steps(Running(frames, Some(KString)), s[..bytelen], Failed(Protocol), isDouble)
        {
          BulkPrefixStep(frames, s, p, 0, isDouble);
        }
        return Malformed(bytelen);
      }
      var what := NilValue;
      if n.value != -1 {
        bytelen := bytelen + n.value + 2;
        if bytelen > |s| {
          forall frames | FramesOk(frames) ensures Resume(Running(frames, Some(KString)), s, isDouble) == More {
            BulkWaits(frames, s, p, isDouble);
          }
          return Incomplete;
        }
        what := BulkString(s[p + 2..][..n.value]);
      }
      forall frames | FramesOk(frames)
        ensures Steps(Running(frames, Some(KString)), s[..bytelen], Complete(frames, LeafOf(what)), isDouble)
      {
        BulkPrefixStep(frames, s, p, bytelen - p - 2, isDouble);
      }
      return Ready(what, bytelen);
    }

    /** processBulkItem. */
    method ProcessBulkItem(ghost frames: seq<Frame>) returns (ok: bool, ghost k: Bytes)
      requires Coupled() && control == Running(frames, Some(KString)) && ridx >= 0
      modifies this, rstack, slots
      ensures Coupled() && Progress(old(control), old(Rest()), ok, k)
      ensures Unrecorded(old(history), old(consumed), old(emitted), old(built))
      ensures forall a :: a in slots ==> a in old(slots)
    {
      hide StackOk, AtItem, Complete, Rep, Resume, Steps;
      ghost var rest := Rest();
      assert buf[pos..len] == rest && FramesOk(frames);
      var scan := ScanBulk(buf[pos..len], isDouble);
      match scan {
        case Incomplete =>
          StepsNothing(control, isDouble);
          assert Resume(Running(frames, Some(KString)), rest, isDouble) == More;
          assert rest[0..] == rest;
          return false, [];
        case Malformed(bytelen) =>
          SetError(Protocol);
          return false, rest[..bytelen];
        case Ready(what, bytelen) =>
          FinishBulk(frames, what, bytelen, LeafOf(what));
          return true, rest[..bytelen];
      }
    }

    /** The nil and empty cases of processAggregateItem. */
    method FinishEmpty(ghost frames: seq<Frame>, ghost kind: Kind, what: Build, ghost v: Reply)
      requires Coupled() && control == Running(frames, Some(kind)) && ridx >= 0 && kind.IsAggregate()
      requires (what == NilValue && v == Nil) || (what == Elements(0) && v == RespGrammar.Wrap(kind, []))
      modifies this, rstack, slots
      ensures Coupled() && control == Complete(frames, v)
      ensures buf == old(buf) && pos == old(pos)
      ensures Unrecorded(old(history), old(consumed), old(emitted), old(built))
      ensures forall a :: a in slots ==> a in old(slots)
    {
      var obj := Create(frames, what);
      Place(frames, Some(kind), obj, v);
    }

    /** The case of processAggregateItem that pushes a task for the first element of `obj`. */
    method PushTask(ghost frames: seq<Frame>, ghost kind: Kind, elements: nat, obj: ReplyObject)
      requires Coupled0(frames) && control == Running(frames, Some(kind)) && |frames| < MAX_DEPTH
      requires kind.IsAggregate() && rstack[ridx].kind == Some(kind) && 0 < elements <= INT_MAX
      requires Stored(frames, slots, obj) && obj.kind == kind && obj.elements == elements
      requires obj.element != null && obj.element.Length == elements && obj.element !in slots && obj.element !in built
      modifies this`ridx, this`reply, this`open, this`slots, this`control, rstack
      ensures Coupled() && control == Running(frames + [Frame(kind, elements, [])], None)
      ensures slots == old(slots) + [obj.element]
    {
      hide Rep, Kind.IsAggregate;
      var root := ridx == 0;
      ghost var frames' := frames + [Frame(kind, elements, [])];
      rstack[ridx] := rstack[ridx].(elements := elements, obj := obj);
      ridx := ridx + 1;
      rstack[ridx] := ReadTask(None, -1, 0, null, ridx - 1);
      if root {
        reply := obj;
      }
      open, slots := open + [obj], slots + [obj.element];
      control := Running(frames', None);
      forall i | 0 <= i < |frames'|
        ensures TaskOk(rstack, frames', open, slots, built, i)
      {
        assert frames'[..i] == frames[..i];
        if i < |frames| {
          assert old(TaskOk(rstack, frames, open, slots, built, i));
        }
      }
    }

    /** The part of processAggregateItem that follows readLine. */
    method FinishHeader(ghost frames: seq<Frame>, kind: Kind, line: Bytes) returns (ok: bool)
      requires Coupled() && control == Running(frames, Some(kind)) && ridx >= 0 && kind.IsAggregate()
      modifies this, rstack, slots
      ensures Coupled() && control == AfterHeader(frames, kind, line) && ok == !control.Failed?
      ensures ok ==> buf == old(buf) && pos == old(pos)
      ensures Unrecorded(old(history), old(consumed), old(emitted), old(built))
      ensures forall a :: a in slots ==> a in old(slots) || fresh(a)
    {
      hide StackOk, AtItem, Complete, Rep;
      var n := String2ll(line);
      if n == None || n.value < -1 {
        SetError(Protocol);
        return false;
      }
      if n.value == -1 {
        FinishEmpty(frames, kind, NilValue, Nil);
      } else {
        var elements := n.value;
        if kind == KMap {
          elements := elements * 2;
        }
        if elements > INT_MAX {
          SetError(OutOfMemory);
          return false;
        }
        if elements > 0 {
          var obj := Create(frames, Elements(elements));
          PushTask(frames, kind, elements, obj);
        } else {
          FinishEmpty(frames, kind, Elements(0), RespGrammar.Wrap(kind, []));
        }
      }
      return true;
    }

    /** processAggregateItem, when the depth is not exceeded. */
    method ProcessAggregateItem(ghost frames: seq<Frame>, kind: Kind) returns (ok: bool, ghost k: Bytes)
      requires Coupled() && control == Running(frames, Some(kind)) && ridx >= 0 && kind.IsAggregate()
      modifies this, rstack, slots
      ensures Coupled() && Progress(old(control), old(Rest()), ok, k)
      ensures Unrecorded(old(history), old(consumed), old(emitted), old(built))
      ensures forall a :: a in slots ==> a in old(slots) || fresh(a)
    {
      hide Resume, Steps, StackOk, Rep, AfterHeader;
      var line := ReadLine();
      if line == None {
        StepsNothing(control, isDouble);
        LineWaits(frames, kind, Rest(), isDouble);
        return false, [];
      }
      k := line.value + CRLF;
      HeaderStep(frames, kind, line.value, isDouble);
      ok := FinishHeader(frames, kind, line.value);
    }

    /** One item further: which bytes were consumed, and what they did to the state. */
    ghost predicate Progress(c: Control, rest: Bytes, ok: bool, k: Bytes)
      requires ControlOk(c) && ControlOk(control) && pos <= |buf|
      reads this
    {
      && k <= rest && Steps(c, k, control, isDouble)
      && (control.Failed? || Rest() == rest[|k|..])
      && (ok ==> k != [] && !control.Failed?)
      && (control.Running? ==> ridx >= 0)
      && (!ok ==> control.Failed? || (control.Running? && Resume(control, Rest(), isDouble) == More))
    }

    /** The type of the item at hand is known now. */
    method SetKind(ghost frames: seq<Frame>, kind: Option<Kind>)
      requires Coupled() && control == Running(frames, None) && ridx >= 0 && kind.Some?
      requires kind.value.IsAggregate() ==> |frames| < MAX_DEPTH
      modifies this`control, rstack
      ensures Coupled() && control == Running(frames, kind)
    {
      hide Resume, Steps, Rep;
      rstack[ridx] := rstack[ridx].(kind := kind);
      control := Running(frames, kind);
      forall i | 0 <= i < |frames|
        ensures TaskOk(rstack, frames, open, slots, built, i)
      {
        assert old(TaskOk(rstack, frames, open, slots, built, i));
      }
    }

    /** The first half of processItem: the type byte, and the depth check that an aggregate starts with. */
    method ReadType(ghost frames: seq<Frame>) returns (ok: bool, ghost k: Bytes)
      requires Coupled() && control == Running(frames, None) && ridx >= 0
      modifies this, rstack
      ensures Coupled() && Progress(old(control), old(Rest()), ok, k)
      ensures Unrecorded(old(history), old(consumed), old(emitted), old(built))
      ensures slots == old(slots) || slots == []
      ensures ok ==> control.Running? && control.current.Some? && ridx >= 0
    {
      hide Resume, Steps, Rep, ParseStream, Continue, OnCourse;
      if len - pos < 1 {
        StepsNothing(control, isDouble);
        EmptyWaits(control, isDouble);
        assert Rest() == [];
        return false, [];
      }
      var b := buf[pos];
      k := [b];
      assert Rest()[..1] == [b];
      pos := pos + 1;
      var kind := KindOf(b);
      if kind == None {
        BadTypeStep(frames, b, isDouble);
        SetError(Protocol);
        return false, k;
      }
      if kind.value.IsAggregate() && ridx == MAX_DEPTH {
        BadTypeStep(frames, b, isDouble);
        rstack[ridx] := rstack[ridx].(kind := kind);
        SetError(Protocol);
        return false, k;
      }
      TypeStep(frames, b, isDouble);
      SetKind(frames, kind);
      return true, k;
    }

    /** The second half of processItem: the typed item. */
    method ProcessTyped() returns (ok: bool, ghost k: Bytes)
      requires Coupled() && control.Running? && control.current.Some? && ridx >= 0
      modifies this, rstack, slots
      ensures Coupled() && Progress(old(control), old(Rest()), ok, k)
      ensures Unrecorded(old(history), old(consumed), old(emitted), old(built))
      ensures forall a :: a in slots ==> a in old(slots) || fresh(a)
    {
      hide Resume, Steps, StackOk, Rep;
      ghost var frames := control.frames;
      var kind := rstack[ridx].kind.value;
      if kind.IsAggregate() {
        ok, k := ProcessAggregateItem(frames, kind);
      } else if kind == KString {
        ok, k := ProcessBulkItem(frames);
      } else {
        ok, k := ProcessLineItem(frames, kind);
      }
    }

    /** processItem. */
    method ProcessItem() returns (ok: bool, ghost k: Bytes)
      requires Coupled() && control.Running? && ridx >= 0
      modifies this, rstack, slots
      ensures Coupled() && Progress(old(control), old(Rest()), ok, k)
      ensures Unrecorded(old(history), old(consumed), old(emitted), old(built))
      ensures forall a :: a in slots ==> a in old(slots) || fresh(a)
    {
      hide Resume, Steps, StackOk, Rep;
      ghost var c, rest := control, Rest();
      StepsNothing(control, isDouble);
      ok, k := true, [];
      if rstack[ridx].kind == None {
        ok, k := ReadType(control.frames);
        if !ok {
          return;
        }
      }
      ghost var c', k' := control, k;
      ok, k := ProcessTyped();
      StepsTrans(c, k', c', k, control, isDouble);
      k := k' + k;
      assert k <= rest;
    }

    /** After `k` of the bytes `rest` the state `c` has become this one. */
    ghost predicate Reached(c: Control, rest: Bytes, k: Bytes)
      requires ControlOk(c) && ControlOk(control) && pos <= |buf|
      reads this
    {
      k <= rest && Steps(c, k, control, isDouble) && (control.Failed? || Rest() == rest[|k|..])
    }

    /** One turn of the loop of redisReaderGetReply. */
    method NextItem(ghost c: Control, ghost rest: Bytes, ghost k: Bytes) returns (ok: bool, ghost k': Bytes)
      requires Coupled() && control.Running? && ridx >= 0 && ControlOk(c) && Reached(c, rest, k)
      modifies this, rstack, slots
      ensures Coupled() && Reached(c, rest, k') && |k| <= |k'|
      ensures ok ==> |k| < |k'| && !control.Failed? && (control.Running? <==> ridx >= 0)
      ensures !ok && control.Running? ==> ridx >= 0 && Resume(control, Rest(), isDouble) == More
      ensures Unrecorded(old(history), old(consumed), old(emitted), old(built))
      ensures forall a :: a in slots ==> a in old(slots) || fresh(a)
    {
      hide Resume, Steps, StackOk, Rep, AtItem, Coupled0;
      ghost var c', read := control, [];
      ok, read := ProcessItem();
      StepsTrans(c, k, c', read, control, isDouble);
      k' := k + read;
    }

    /** The loop of redisReaderGetReply. */
    method ProcessItems() returns (ghost k: Bytes)
      requires Coupled() && control.Running? && ridx >= 0
      modifies this, rstack, slots
      ensures Coupled() && k <= old(Rest()) && Steps(old(control), k, control, isDouble)
      ensures control.Failed? || Rest() == old(Rest())[|k|..]
      ensures control.Running? ==> ridx >= 0 && Resume(control, Rest(), isDouble) == More
      ensures Unrecorded(old(history), old(consumed), old(emitted), old(built))
      ensures forall a :: a in slots ==> a in old(slots) || fresh(a)
    {
      hide Resume, Steps, StackOk, Rep, AtItem, Coupled0;
      StepsNothing(control, isDouble);
      ghost var c, rest := control, Rest();
      k := [];
      var ok := true;
      while ok && ridx >= 0
        invariant Coupled() && Reached(c, rest, k)
        invariant ok ==> !control.Failed? && (control.Running? <==> ridx >= 0)
        invariant !ok && control.Running? ==> ridx >= 0 && Resume(control, Rest(), isDouble) == More
        invariant Unrecorded(old(history), old(consumed), old(emitted), old(built))
        invariant forall a :: a in slots ==> a in old(slots) || fresh(a)
        decreases ok, |rest| - |k|
      {
        assert forall i :: 0 <= i < |slots| ==> slots[i] in slots;
        ok, k := NextItem(c, rest, k);
      }
    }

    /** The copying part of redisReaderFeed. */
    method Append(data: Bytes, spare: nat, maxbuf: nat)
      requires Coupled() && err == None
      modifies this`buf, this`pos, this`len
      ensures Coupled() && Rest() == old(Rest()) + data
    {
      hide StackOk, Rep, ControlOk;
      if |data| >= 1 {
        if len == 0 && maxbuf != 0 && spare > maxbuf {
          buf := [];
          pos := 0;
        }
        buf := buf + data;
        len := |buf|;
      }
      assert buf[pos..] == old(buf[pos..]) + data;
    }

    /** redisReaderFeed; `spare` is the free space of the buffer (sdsavail), `maxbuf` its limit. */
    method Feed(data: Bytes, spare: nat, maxbuf: nat) returns (ok: bool)
      requires Valid()
      modifies this`buf, this`pos, this`len, this`history
      ensures Valid() && history == old(history) + data
      ensures ok == !control.Failed?
      ensures Rest() == if ok then old(Rest()) + data else []
    {
      hide OnCourse, StackOk, Rep, ControlOk;
      if err != None {
        history := history + data;
        return false;
      }
      Append(data, spare, maxbuf);
      history := history + data;
      assert consumed + (old(buf[pos..]) + data) == consumed + old(buf[pos..]) + data;
      return true;
    }

    /** A reply begins: its root is the only task. */
    method PushRoot()
      requires Coupled() && control.Running? && ridx == -1
      modifies this`ridx, rstack
      ensures Coupled() && ridx == 0
    {
      rstack[0] := ReadTask(None, -1, -1, null, -1);
      ridx := 0;
    }

    /** Books the bytes `k` at the start of `rest` as consumed. */
    ghost method Account(c: Control, k: Bytes, rest: Bytes)
      requires Coupled() && ControlOk(c) && OnCourse(consumed, emitted, c, isDouble) && Steps(c, k, control, isDouble)
      requires history == consumed + rest && k <= rest
      requires control.Failed? || Rest() == rest[|k|..]
      modifies this`consumed
      ensures Valid()
    {
      hide Steps, StackOk, Rep, OnCourse, ControlOk;
      OnCourseStep(consumed, emitted, c, k, control, isDouble);
      assert consumed + k + rest[|k|..] == history;
      consumed := consumed + k;
    }

    /** The part of redisReaderGetReply that processes items, until the reply is settled or bytes are missing. */
    method Advance()
      requires Valid() && control.Running?
      modifies this, rstack, slots
      ensures Valid() && history == old(history) && emitted == old(emitted) && old(built) <= built
      ensures forall a :: a in slots ==> a in old(slots) || fresh(a)
      ensures control.Running? ==> ridx >= 0
      ensures match old(Resume(control, Rest(), isDouble))
        case Done(v, used) => control == Finished(v) && Rest() == old(Rest())[used..]
        case More => control.Running? && Resume(control, Rest(), isDouble) == More
        case Fail(e) => control == Failed(e)
    {
      hide Resume, Steps, StackOk, Rep, OnCourse, ControlOk, Continue, ParseStream, Coupled0;
      ghost var c, rest := control, Rest();
      if ridx == -1 {
        PushRoot();
      }
      assert Coupled() && control == c && ridx >= 0 && Rest() == rest;
      ghost var k := ProcessItems();
      assert ControlOk(control);
      Advanced(c, k, control, rest, isDouble);
      Account(c, k, rest);
    }

    /** Discards the consumed part of the buffer once it reaches 1024 bytes. */
    method Trim()
      requires Valid() && !control.Failed?
      modifies this`buf, this`pos, this`len
      ensures Valid() && Rest() == old(Rest())
      ensures pos == (if old(pos) >= 1024 then 0 else old(pos)) && len == pos + |Rest()|
    {
      hide OnCourse, StackOk, Rep;
      if pos >= 1024 {
        assert Range(buf, pos, -1) == buf[pos..];
        buf := Range(buf, pos, -1);
        pos := 0;
        len := |buf|;
        assert buf[0..] == buf;
      }
    }

    /** Hands out the reply when there is one. */
    method Emit() returns (r: ReplyObject?)
      requires Valid() && !control.Failed? && (control.Running? ==> ridx >= 0)
      modifies this`reply, this`control, this`emitted
      ensures Valid() && Rest() == old(Rest())
      ensures match old(control)
        case Finished(v) => r != null && Rep(r, v, built) && control == IDLE && emitted == old(emitted) + [v]
        case _ => r == null && control == old(control) && emitted == old(emitted)
    {
      hide OnCourse;
      r := null;
      if ridx == -1 {
        r := reply;
        OnCourseEmit(consumed, emitted, control.reply, isDouble);
        emitted := emitted + [control.reply];
        control := IDLE;
        reply := null;
      }
    }

    /** The end of redisReaderGetReply: the error, the reply, or neither yet. */
    method HandOut() returns (ok: bool, r: ReplyObject?)
      requires Valid() && (control.Running? ==> ridx >= 0)
      modifies this`buf, this`pos, this`len, this`reply, this`control, this`emitted
      ensures Valid() && ok == !old(control).Failed?
      ensures ok ==> Rest() == old(Rest())
      ensures match old(control)
        case Finished(v) => r != null && Rep(r, v, built) && control == IDLE && emitted == old(emitted) + [v]
        case _ => r == null && control == old(control) && emitted == old(emitted)
    {
      hide StackOk, Rep, OnCourse;
      if err != None {
        return false, null;
      }
      Trim();
      r := Emit();
      return true, r;
    }

    /** redisReaderGetReply. */
    method GetReply() returns (ok: bool, r: ReplyObject?)
      requires Valid() && !control.Finished?
      modifies this, rstack, slots
      ensures Valid() && !control.Finished?
      ensures history == old(history) && old(built) <= built
      ensures forall a :: a in slots ==> a in old(slots) || fresh(a)
      ensures match old(Resume(control, Rest(), isDouble))
        case Done(v, used) =>
          && ok && r != null && Rep(r, v, built) && emitted == old(emitted) + [v]
          && control == IDLE && Rest() == old(Rest())[used..]
        case More =>
          && ok && r == null && emitted == old(emitted) && control.Running?
          && Resume(control, Rest(), isDouble) == More
        case Fail(e) =>
          && !ok && r == null && emitted == old(emitted) && control == Failed(e)
    {
      hide Resume, Steps, StackOk, Rep, OnCourse, Continue, ParseStream;
      ResumeSettled(control, Rest(), isDouble);
      if err != None {
        return false, null;
      }
      if len == 0 {
        EmptyWaits(control, isDouble);
        return true, null;
      }
      Advance();
      ok, r := HandOut();
    }
  }

  /** Once nothing more can be read, what was handed out is the outcome of the whole stream. */
  lemma {:induction false} Settled(consumed: Bytes, emitted: seq<Reply>, c: Control, rest: Bytes, isDouble: DoubleTest)
    requires ControlOk(c) && OnCourse(consumed, emitted, c, isDouble)
    requires c.Failed? || (c.Running? && Resume(c, rest, isDouble) == More)
    ensures ParseStream(consumed + rest, isDouble) == Trace(emitted, if c.Failed? then Some(c.error) else None)
  {
    var t := Continue(c, rest, isDouble);
    assert t == Trace([], if c.Failed? then Some(c.error) else None);
    assert emitted + [] == emitted;
  }

  /** Vectors still being filled are not part of any complete object. */
  lemma {:induction false} SlotsApart(reader: RedisReader)
    requires reader.Coupled()
    ensures forall a :: a in reader.slots ==> a !in reader.built
  {
    match reader.control
    case Running(frames, _) =>
      forall i | 0 <= i < |reader.slots|
        ensures reader.slots[i] !in reader.built
      {
        assert TaskOk(reader.rstack, frames, reader.open, reader.slots, reader.built, i);
      }
    case _ =>
  }

  /** The objects stand for the replies. */
  ghost predicate AllRep(objects: seq<ReplyObject?>, values: seq<Reply>, fp: set<array<ReplyObject?>>)
    reads fp
  {
    |objects| == |values| && forall i :: 0 <= i < |objects| ==> Rep(objects[i], values[i], fp)
  }

  lemma {:induction false} AllRepGrows(objects: seq<ReplyObject?>, values: seq<Reply>, fp: set<array<ReplyObject?>>, fp': set<array<ReplyObject?>>)
    requires AllRep(objects, values, fp) && fp <= fp'
    ensures AllRep(objects, values, fp')
  {
    forall i | 0 <= i < |objects|
      ensures Rep(objects[i], values[i], fp')
    {
      RepGrows(objects[i], values[i], fp, fp');
    }
  }

  /** What is known of a reader between two calls: a reply uses bytes, and open vectors belong to none. */
  lemma {:induction false} BeforeReply(reader: RedisReader)
    requires reader.Valid() && !reader.control.Finished?
    ensures reader.pos <= |reader.buf| && ControlOk(reader.control)
    ensures forall a :: a in reader.slots ==> a !in reader.built
    ensures var r := Resume(reader.control, reader.Rest(), reader.isDouble); r.Done? ==> 1 <= r.used <= |reader.Rest()|
  {
    hide StackOk, Resume, Rep, OnCourse;
    SlotsApart(reader);
    ResumeSettled(reader.control, reader.Rest(), reader.isDouble);
    if reader.control.Running? {
      ResumeUses(reader.control, reader.Rest(), reader.isDouble);
    }
  }

  /** One call of GetReply, and what it means for the replies collected before. */
  method Next(reader: RedisReader, objects: seq<ReplyObject?>) returns (more: bool, objects': seq<ReplyObject?>)
    requires reader.Valid() && !reader.control.Finished?
    requires AllRep(objects, reader.emitted, reader.built)
    modifies reader, reader.rstack, reader.slots
    ensures reader.Valid() && !reader.control.Finished? && reader.history == old(reader.history)
    ensures forall a :: a in reader.slots ==> a in old(reader.slots) || fresh(a)
    ensures AllRep(objects', reader.emitted, reader.built)
    ensures old(reader.emitted) <= reader.emitted && objects <= objects'
    ensures if more then |reader.Rest()| < old(|reader.Rest()|)
            else ParseStream(reader.history, reader.isDouble) == Trace(reader.emitted, reader.err)
  {
    hide RedisReader.Valid, RedisReader.Coupled, StackOk, Resume, Rep, OnCourse, ControlOk, ParseStream, AllRep;
    BeforeReply(reader);
    ghost var built, emitted := reader.built, reader.emitted;
    var ok, r := reader.GetReply();
    AllRepGrows(objects, emitted, built, reader.built);
    if !ok || r == null {
      Conclude(reader);
      return false, objects;
    }
    AllRepSnoc(objects, emitted, r, reader.emitted[|emitted|], reader.built);
    return true, objects + [r];
  }

  lemma {:induction false} AllRepSnoc(objects: seq<ReplyObject?>, values: seq<Reply>, r: ReplyObject, v: Reply,
                                      fp: set<array<ReplyObject?>>)
    requires AllRep(objects, values, fp) && Rep(r, v, fp)
    ensures AllRep(objects + [r], values + [v], fp)
  {
    hide Rep;
  }

  /** A reader with nothing more to hand out has handed out the whole stream's replies. */
  lemma {:induction false} Conclude(reader: RedisReader)
    requires reader.Valid()
    requires reader.control.Failed?
      || (reader.control.Running? && Resume(reader.control, reader.Rest(), reader.isDouble) == More)
    ensures ParseStream(reader.history, reader.isDouble) == Trace(reader.emitted, reader.err)
  {
    var rest := reader.history[|reader.consumed|..];
    assert reader.history == reader.consumed + rest;
    assert reader.control.Running? ==> rest == reader.Rest();
    Settled(reader.consumed, reader.emitted, reader.control, rest, reader.isDouble);
  }

  /** Calls GetReply until no reply or an error. */
  method Drain(reader: RedisReader, objects: seq<ReplyObject?>) returns (objects': seq<ReplyObject?>)
    requires reader.Valid() && !reader.control.Finished?
    requires AllRep(objects, reader.emitted, reader.built)
    modifies reader, reader.rstack, reader.slots
    ensures reader.Valid() && !reader.control.Finished? && reader.history == old(reader.history)
    ensures forall a :: a in reader.slots ==> a in old(reader.slots) || fresh(a)
    ensures AllRep(objects', reader.emitted, reader.built)
    ensures old(reader.emitted) <= reader.emitted && objects <= objects'
    ensures ParseStream(reader.history, reader.isDouble) == Trace(reader.emitted, reader.err)
  {
    hide StackOk, Resume, Rep, OnCourse, ControlOk, AllRep;
    objects' := objects;
    var more := true;
    while more
      invariant forall a :: a in reader.slots ==> a in old(reader.slots) || fresh(a)
      invariant reader.Valid() && !reader.control.Finished? && reader.history == old(reader.history)
      invariant AllRep(objects', reader.emitted, reader.built)
      invariant old(reader.emitted) <= reader.emitted && objects <= objects'
      invariant !more ==> ParseStream(reader.history, reader.isDouble) == Trace(reader.emitted, reader.err)
      decreases more, |reader.Rest()|
    {
      assert forall k :: 0 <= k < |reader.slots| ==> reader.slots[k] in reader.slots;
      more, objects' := Next(reader, objects');
    }
  }

  /** Feeds one chunk and takes out what it completes. */
  method Receive(reader: RedisReader, chunk: Bytes, spare: nat, objects: seq<ReplyObject?>) returns (objects': seq<ReplyObject?>)
    requires reader.Valid() && !reader.control.Finished?
    requires AllRep(objects, reader.emitted, reader.built)
    modifies reader, reader.rstack, reader.slots
    ensures reader.Valid() && !reader.control.Finished? && reader.history == old(reader.history) + chunk
    ensures forall a :: a in reader.slots ==> a in old(reader.slots) || fresh(a)
    ensures AllRep(objects', reader.emitted, reader.built)
    ensures old(reader.emitted) <= reader.emitted && objects <= objects'
    ensures ParseStream(reader.history, reader.isDouble) == Trace(reader.emitted, reader.err)
  {
    hide RedisReader.Valid, StackOk, Resume, Rep, OnCourse, ControlOk, AllRep, ParseStream;
    var ok := reader.Feed(chunk, spare, 1024 * 16);
    objects' := Drain(reader, objects);
  }

  /** A reader on which nothing has arrived yet. */
  method Begin(isDouble: DoubleTest) returns (reader: RedisReader)
    ensures fresh(reader) && fresh(reader.rstack) && reader.slots == []
    ensures reader.Valid() && !reader.control.Finished? && reader.isDouble == isDouble
    ensures reader.history == [] && reader.emitted == [] && AllRep([], [], reader.built)
    ensures ParseStream([], isDouble) == Trace([], reader.err)
  {
    hide StackOk, Resume, Rep, OnCourse, ControlOk, ParseStream;
    reader := new RedisReader(isDouble);
    EmptyWaits(reader.control, isDouble);
    Conclude(reader);
  }

  /** Reads a stream that arrives in chunks: feed one, then call GetReply until no reply or an error. */
  method ReadChunks(chunks: seq<Bytes>, spare: nat, isDouble: DoubleTest)
    returns (reader: RedisReader, objects: seq<ReplyObject?>)
    ensures fresh(reader) && reader.Valid()
    ensures Trace(reader.emitted, reader.err) == ParseStream(Concat(chunks), isDouble)
    ensures AllRep(objects, ParseStream(Concat(chunks), isDouble).replies, reader.built)
  {
    hide RedisReader.Valid, StackOk, Resume, Rep, OnCourse, ControlOk, ParseStream, AllRep;
    reader := Begin(isDouble);
    objects := [];
    assert chunks[..0] == [];
    for i := 0 to |chunks|
      invariant fresh(reader) && fresh(reader.rstack) && forall a :: a in reader.slots ==> fresh(a)
      invariant reader.Valid() && !reader.control.Finished? && reader.isDouble == isDouble
      invariant reader.history == Concat(chunks[..i])
      invariant AllRep(objects, reader.emitted, reader.built)
      invariant ParseStream(reader.history, isDouble) == Trace(reader.emitted, reader.err)
    {
      ConcatSnoc(chunks[..i], chunks[i]);
      assert chunks[..i + 1] == chunks[..i] + [chunks[i]];
      assert forall k :: 0 <= k < |reader.slots| ==> reader.slots[k] in reader.slots;
      objects := Receive(reader, chunks[i], spare, objects);
    }
    assert chunks[..|chunks|] == chunks;
  }
}
