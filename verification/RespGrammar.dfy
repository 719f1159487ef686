/**
 The replies a Redis server can send and their grammar as a recursive-descent parser:
 the reference that the incremental reader of read.c is compared with.
 */
module RespGrammar {
  import opened ByteStrings
  import opened Decimal

  /** The item types that a type byte selects. */
  datatype Kind =
    | KString | KArray | KInteger | KNil | KStatus | KError | KDouble | KBool | KMap | KSet
  {
    predicate IsAggregate() {
      KArray? || KMap? || KSet?
    }
  }

  /**
   A reply tree. The elements of a map alternate keys and values. A double is
   kept as its protocol text, from which its numeric value is derived.
   */
  datatype Reply =
    | Status(text: Bytes)
    | Error(text: Bytes)
    | Integer(number: int)
    | Double(text: Bytes)
    | Nil
    | Bool(flag: bool)
    | Bulk(text: Bytes)
    | Array(elements: seq<Reply>)
    | Map(elements: seq<Reply>)
    | Set(elements: seq<Reply>)

  datatype ErrorKind = Protocol | OutOfMemory

  /** Complete with a number of bytes used, undecided, or in error. */
  datatype Outcome =
    | Done(reply: Reply, used: nat)
    | More
    | Fail(error: ErrorKind)

  /** Whether the C library reads a text as a double (true) or rejects it. */
  type DoubleTest = Bytes -> bool

  /** Aggregates inside eight others are refused. */
  const MAX_DEPTH := 8

  /** The longest double text, its terminator excluded. */
  const MAX_DOUBLE := 325

  function KindOf(b: byte): Option<Kind> {
    if b == MINUS then Some(KError)
    else if b == PLUS then Some(KStatus)
    else if b == COLON then Some(KInteger)
    else if b == COMMA then Some(KDouble)
    else if b == UNDERSCORE then Some(KNil)
    else if b == DOLLAR then Some(KString)
    else if b == STAR then Some(KArray)
    else if b == PERCENT then Some(KMap)
    else if b == TILDE then Some(KSet)
    else if b == HASH then Some(KBool)
    else None
  }

  /** The position of the first line end. */
  function FindCRLF(s: Bytes): (r: Option<nat>)
    ensures r.Some? ==> r.value + 1 < |s| && s[r.value] == CR && s[r.value + 1] == LF
    ensures forall i :: 0 <= i < |s| - 1 && s[i] == CR && s[i + 1] == LF ==> r.Some? && r.value <= i
  {
    if |s| < 2 then None
    else if s[0] == CR && s[1] == LF then Some(0)
    else
      var r := FindCRLF(s[1..]);
      assert forall i :: 0 < i < |s| - 1 && s[i] == CR && s[i + 1] == LF ==>
        s[1..][i - 1] == CR && s[1..][i] == LF;
      if r.Some? then Some(r.value + 1) else None
  }

  function Shift(k: nat, o: Outcome): Outcome {
    if o.Done? then Done(o.reply, o.used + k) else o
  }

  /** The reply a complete line stands for; None when the text does not fit the type. */
  function LineReply(k: Kind, text: Bytes, isDouble: DoubleTest): Option<Reply>
    requires !k.IsAggregate() && k != KString
  {
    match k
    case KInteger => (match ParseLL(text) case Some(v) => Some(Integer(v)) case None => None)
    case KDouble => if |text| <= MAX_DOUBLE && isDouble(text) then Some(Double(text)) else None
    case KNil => Some(Nil)
    case KBool => Some(Bool(text != [] && (text[0] == 't' as int || text[0] == 'T' as int)))
    case KError => Some(Error(text))
    case _ => Some(Status(text))
  }

  function Wrap(k: Kind, elements: seq<Reply>): Reply
    requires k.IsAggregate()
  {
    match k
    case KArray => Array(elements)
    case KMap => Map(elements)
    case _ => Set(elements)
  }

  /** The number of element slots of an aggregate with announced size n. */
  function SlotCount(k: Kind, n: nat): nat {
    if k == KMap then 2 * n else n
  }

  /** One value inside `depth` open aggregates. */
  function ParseValue(s: Bytes, depth: nat, isDouble: DoubleTest): (o: Outcome)
    ensures o.Done? ==> 1 <= o.used <= |s|
    decreases |s|, 0
  {
    if s == [] then More
    else match KindOf(s[0])
      case None => Fail(Protocol)
      case Some(k) => Shift(1, ParseBody(k, s[1..], depth, isDouble))
  }

  /** The rest of a value once its type byte has been read. */
  function ParseBody(k: Kind, s: Bytes, depth: nat, isDouble: DoubleTest): (o: Outcome)
    ensures o.Done? ==> 2 <= o.used <= |s|
    decreases |s|, 2
  {
    if k.IsAggregate() && depth == MAX_DEPTH then Fail(Protocol)
    else match FindCRLF(s)
      case None => More
      case Some(n) => ParseRest(k, s[..n], s[n + 2..], depth, isDouble)
  }

  /** What a header line and the bytes after it stand for. `used` counts the line end too. */
  function ParseRest(k: Kind, line: Bytes, s: Bytes, depth: nat, isDouble: DoubleTest): (o: Outcome)
    ensures o.Done? ==> 2 <= o.used <= |line| + 2 + |s|
    decreases |line| + 2 + |s|, 1
  {
    if k == KString then Shift(|line| + 2, BulkRest(line, s))
    else if !k.IsAggregate() then
      match LineReply(k, line, isDouble)
      case None => Fail(Protocol)
      case Some(r) => Done(r, |line| + 2)
    else
      match ParseLL(line)
      case None => Fail(Protocol)
      case Some(n) =>
        if n < -1 then Fail(Protocol)
        else if n == -1 then Done(Nil, |line| + 2)
        else if SlotCount(k, n) > INT_MAX then Fail(OutOfMemory)
        else Shift(|line| + 2, ParseElements(k, SlotCount(k, n), [], s, depth + 1, isDouble))
  }

  /** The body of a bulk string; the two bytes that end it are counted, not inspected. */
  function BulkRest(line: Bytes, s: Bytes): (o: Outcome)
    ensures o.Done? ==> o.used <= |s|
  {
    match ParseLL(line)
    case None => Fail(Protocol)
    case Some(n) =>
      if n < -1 then Fail(Protocol)
      else if n == -1 then Done(Nil, 0)
      else if n + 2 <= |s| then Done(Bulk(s[..n]), n + 2)
      else More
  }

  /** The elements of an aggregate, given those already read. */
  function ParseElements(k: Kind, count: nat, read: seq<Reply>, s: Bytes, depth: nat, isDouble: DoubleTest): (o: Outcome)
    requires k.IsAggregate() && |read| <= count
    ensures o.Done? ==> o.used <= |s|
    decreases |s|, 1, count - |read|
  {
    if |read| == count then Done(Wrap(k, read), 0)
    else
      match ParseValue(s, depth, isDouble)
      case Done(r, used) => Shift(used, ParseElements(k, count, read + [r], s[used..], depth, isDouble))
      case More => More
      case Fail(e) => Fail(e)
  }

  /** All replies of a byte stream, up to the first error or the first incomplete reply. */
  datatype Trace = Trace(replies: seq<Reply>, failure: Option<ErrorKind>)

  function ParseStream(s: Bytes, isDouble: DoubleTest): Trace
    decreases |s|
  {
    match ParseValue(s, 0, isDouble)
    case Done(r, used) => Before([r], ParseStream(s[used..], isDouble))
    case More => Trace([], None)
    case Fail(e) => Trace([], Some(e))
  }

  function Before(replies: seq<Reply>, t: Trace): Trace {
    Trace(replies + t.replies, t.failure)
  }

  /** A line end stays the first one whatever follows it. */
  lemma {:induction false} FindCRLFPrefix(s: Bytes, n: nat, t: Bytes)
    requires FindCRLF(s) == Some(n)
    ensures FindCRLF(s + t) == Some(n)
  {
    var r := FindCRLF(s + t);
    assert (s + t)[n] == CR && (s + t)[n + 1] == LF;
    assert r.Some? && r.value <= n;
    assert s[r.value] == CR && s[r.value + 1] == LF;
  }

  /** A text without line end is found again in front of one. */
  lemma {:induction false} FindCRLFExact(text: Bytes, t: Bytes)
    requires FindCRLF(text) == None
    ensures FindCRLF(text + CRLF + t) == Some(|text|)
  {
    var s := text + CRLF + t;
    assert s[|text|] == CR && s[|text| + 1] == LF;
    assert forall i :: 0 <= i < |text| ==> s[i] == text[i];
  }

  /** The line in front of the first line end has no earlier one. */
  lemma {:induction false} FindCRLFLine(s: Bytes, n: nat)
    requires FindCRLF(s) == Some(n)
    ensures FindCRLF(s[..n] + CRLF) == Some(n)
    ensures s == s[..n] + CRLF + s[n + 2..]
  {
    var line := s[..n] + CRLF;
    assert line == s[..n + 2];
    assert line[n] == CR && line[n + 1] == LF;
    var m := FindCRLF(line).value;
    assert s[m] == CR && s[m + 1] == LF;
  }
}
