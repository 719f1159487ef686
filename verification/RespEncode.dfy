/**
 The RESP encoding of a reply, and that the grammar reads it back: for every printable reply
 exactly when its aggregates nest no deeper than the reader's stack allows.
 */
module RespEncode {
  import opened ByteStrings
  import opened Decimal
  import opened RespGrammar
  import opened ReplyObjects
  import opened RespReader

  /** A header line: type byte, number, line end. */
  function Header(b: byte, n: nat): Bytes {
    [b] + Digits(n) + CRLF
  }

  function Encode(v: Reply): Bytes
    decreases v, 1
  {
    match v
    case Status(text) => [PLUS] + text + CRLF
    case Error(text) => [MINUS] + text + CRLF
    case Integer(n) => [COLON] + IntText(n) + CRLF
    case Double(text) => [COMMA] + text + CRLF
    case Nil => [UNDERSCORE] + [] + CRLF
    case Bool(flag) => [HASH] + [if flag then 't' as int else 'f' as int] + CRLF
    case Bulk(text) => Header(DOLLAR, |text|) + text + CRLF
    case Array(es) => Header(STAR, |es|) + EncodeAll(es)
    case Map(es) => Header(PERCENT, |es| / 2) + EncodeAll(es)
    case Set(es) => Header(TILDE, |es|) + EncodeAll(es)
  }

  function EncodeAll(vs: seq<Reply>): Bytes
    decreases vs, 0
  {
    if vs == [] then [] else Encode(vs[0]) + EncodeAll(vs[1..])
  }

  /** The replies that a line-oriented protocol can carry at all. */
  predicate Printable(v: Reply, isDouble: DoubleTest)
    decreases v
  {
    match v
    case Status(text) => FindCRLF(text) == None
    case Error(text) => FindCRLF(text) == None
    case Integer(n) => InLongLong(n)
    case Double(text) => FindCRLF(text) == None && |text| <= MAX_DOUBLE && isDouble(text)
    case Nil => true
    case Bool(_) => true
    case Bulk(text) => |text| <= LLONG_MAX
    case Array(es) => |es| <= INT_MAX && forall i :: 0 <= i < |es| ==> Printable(es[i], isDouble)
    case Map(es) => |es| <= INT_MAX && |es| % 2 == 0 && forall i :: 0 <= i < |es| ==> Printable(es[i], isDouble)
    case Set(es) => |es| <= INT_MAX && forall i :: 0 <= i < |es| ==> Printable(es[i], isDouble)
  }

  /** The largest number of aggregates around and including any aggregate of v. */
  function Nesting(v: Reply): nat
    decreases v, 1
  {
    if v.Array? || v.Map? || v.Set? then 1 + NestingAll(v.elements) else 0
  }

  function NestingAll(vs: seq<Reply>): nat
    decreases vs, 0
  {
    if vs == [] then 0
    else
      var first, rest := Nesting(vs[0]), NestingAll(vs[1..]);
      if first >= rest then first else rest
  }

  /** A line in front of anything is read as that line. */
  lemma {:induction false} ReadsLine(k: Kind, line: Bytes, t: Bytes, depth: nat, isDouble: DoubleTest)
    requires FindCRLF(line) == None && (k.IsAggregate() ==> depth != MAX_DEPTH)
    ensures ParseBody(k, line + CRLF + t, depth, isDouble) == ParseRest(k, line, t, depth, isDouble)
  {
    FindCRLFExact(line, t);
    var s := line + CRLF + t;
    assert s[..|line|] == line && s[|line| + 2..] == t;
  }

  lemma {:induction false} ReadsTyped(b: byte, s: Bytes, depth: nat, isDouble: DoubleTest)
    requires KindOf(b).Some?
    ensures ParseValue([b] + s, depth, isDouble) == Shift(1, ParseBody(KindOf(b).value, s, depth, isDouble))
  {
    assert ([b] + s)[1..] == s;
  }

  lemma {:induction false} NumberHasNoLineEnd(n: int)
    ensures FindCRLF(IntText(n)) == None
  {
    IntTextBytes(n);
  }

  /** A line item of a non-aggregate type other than a bulk string. */
  lemma {:induction false} ReadsLineItem(b: byte, line: Bytes, v: Reply, suffix: Bytes, depth: nat, isDouble: DoubleTest)
    requires KindOf(b).Some? && !KindOf(b).value.IsAggregate() && KindOf(b).value != KString
    requires FindCRLF(line) == None && LineReply(KindOf(b).value, line, isDouble) == Some(v)
    ensures ParseValue([b] + line + CRLF + suffix, depth, isDouble) == Done(v, |line| + 3)
  {
    assert [b] + line + CRLF + suffix == [b] + (line + CRLF + suffix);
    ReadsTyped(b, line + CRLF + suffix, depth, isDouble);
    ReadsLine(KindOf(b).value, line, suffix, depth, isDouble);
  }

  lemma {:induction false} ReadsBulk(text: Bytes, suffix: Bytes, depth: nat, isDouble: DoubleTest)
    requires |text| <= LLONG_MAX
    ensures ParseValue(Header(DOLLAR, |text|) + text + CRLF + suffix, depth, isDouble)
         == Done(Bulk(text), |Header(DOLLAR, |text|) + text + CRLF|)
  {
    var line := IntText(|text|);
    NumberHasNoLineEnd(|text|);
    ParseLLOfIntText(|text|);
    var t := text + CRLF + suffix;
    assert Header(DOLLAR, |text|) + text + CRLF + suffix == [DOLLAR] + (line + CRLF + t);
    ReadsTyped(DOLLAR, line + CRLF + t, depth, isDouble);
    ReadsLine(KString, line, t, depth, isDouble);
    assert t[..|text|] == text;
  }

  /** The header of an aggregate leads to its elements. */
  lemma {:induction false} ReadsHeader(b: byte, n: nat, t: Bytes, depth: nat, isDouble: DoubleTest)
    requires KindOf(b).Some? && KindOf(b).value.IsAggregate() && depth < MAX_DEPTH
    requires SlotCount(KindOf(b).value, n) <= INT_MAX
    ensures ParseValue(Header(b, n) + t, depth, isDouble)
         == Shift(|Header(b, n)|, ParseElements(KindOf(b).value, SlotCount(KindOf(b).value, n), [], t, depth + 1, isDouble))
  {
    var k, line := KindOf(b).value, IntText(n);
    NumberHasNoLineEnd(n);
    ParseLLOfIntText(n);
    assert Header(b, n) + t == [b] + (line + CRLF + t);
    ReadsTyped(b, line + CRLF + t, depth, isDouble);
    ReadsLine(k, line, t, depth, isDouble);
    hide ParseElements;
    assert |Header(b, n)| == |line| + 3;
  }

  /** Parsing the encoding of a printable reply, with anything after it, gives the reply and leaves the rest. */
  lemma {:induction false} RoundTrip(v: Reply, suffix: Bytes, depth: nat, isDouble: DoubleTest)
    requires Printable(v, isDouble) && depth + Nesting(v) <= MAX_DEPTH
    ensures ParseValue(Encode(v) + suffix, depth, isDouble) == Done(v, |Encode(v)|)
    decreases v, 1
  {
    hide ParseValue, FindCRLF, Digits, IntText, ParseLL;
    match v
    case Array(es) => RoundTripAggregate(STAR, |es|, es, suffix, depth, isDouble);
    case Map(es) => RoundTripAggregate(PERCENT, |es| / 2, es, suffix, depth, isDouble);
    case Set(es) => RoundTripAggregate(TILDE, |es|, es, suffix, depth, isDouble);
    case _ => RoundTripLeaf(v, suffix, depth, isDouble);
  }

  lemma {:induction false} RoundTripLeaf(v: Reply, suffix: Bytes, depth: nat, isDouble: DoubleTest)
    requires Printable(v, isDouble) && !v.Array? && !v.Map? && !v.Set?
    ensures ParseValue(Encode(v) + suffix, depth, isDouble) == Done(v, |Encode(v)|)
  {
    hide ParseValue, Digits, ParseLL;
    match v
    case Status(text) => ReadsLineItem(PLUS, text, v, suffix, depth, isDouble);
    case Error(text) => ReadsLineItem(MINUS, text, v, suffix, depth, isDouble);
    case Integer(n) =>
      NumberHasNoLineEnd(n);
      ParseLLOfIntText(n);
      ReadsLineItem(COLON, IntText(n), v, suffix, depth, isDouble);
    case Double(text) => ReadsLineItem(COMMA, text, v, suffix, depth, isDouble);
    case Nil => ReadsLineItem(UNDERSCORE, [], v, suffix, depth, isDouble);
    case Bool(flag) => ReadsLineItem(HASH, [if flag then 't' as int else 'f' as int], v, suffix, depth, isDouble);
    case Bulk(text) => ReadsBulk(text, suffix, depth, isDouble);
  }

  lemma {:induction false} RoundTripAggregate(b: byte, n: nat, es: seq<Reply>, suffix: Bytes, depth: nat, isDouble: DoubleTest)
    requires KindOf(b).Some? && KindOf(b).value.IsAggregate() && SlotCount(KindOf(b).value, n) == |es| <= INT_MAX
    requires forall i :: 0 <= i < |es| ==> Printable(es[i], isDouble)
    requires depth + 1 + NestingAll(es) <= MAX_DEPTH
    ensures ParseValue(Header(b, n) + EncodeAll(es) + suffix, depth, isDouble)
         == Done(Wrap(KindOf(b).value, es), |Header(b, n) + EncodeAll(es)|)
    decreases es, 1
  {
    hide ParseValue, ParseElements, Nesting, EncodeAll, Header, Wrap;
    assert Header(b, n) + EncodeAll(es) + suffix == Header(b, n) + (EncodeAll(es) + suffix);
    ReadsHeader(b, n, EncodeAll(es) + suffix, depth, isDouble);
    RoundTripElements(KindOf(b).value, |es|, [], es, suffix, depth + 1, isDouble);
    assert [] + es == es;
  }

  lemma {:induction false} RoundTripElements(k: Kind, count: nat, read: seq<Reply>, es: seq<Reply>, suffix: Bytes,
                                             depth: nat, isDouble: DoubleTest)
    requires k.IsAggregate() && |read| + |es| == count
    requires forall i :: 0 <= i < |es| ==> Printable(es[i], isDouble)
    requires depth + NestingAll(es) <= MAX_DEPTH
    ensures ParseElements(k, count, read, EncodeAll(es) + suffix, depth, isDouble)
         == Done(Wrap(k, read + es), |EncodeAll(es)|)
    decreases es, 0
  {
    hide Encode, ParseValue, Nesting;
    if es == [] {
      assert read + es == read;
    } else {
      var rest := EncodeAll(es[1..]) + suffix;
      assert EncodeAll(es) + suffix == Encode(es[0]) + rest;
      RoundTrip(es[0], rest, depth, isDouble);
      assert (Encode(es[0]) + rest)[|Encode(es[0])|..] == rest;
      RoundTripElements(k, count, read + [es[0]], es[1..], suffix, depth, isDouble);
      assert read + [es[0]] + es[1..] == read + es;
    }
  }

  /** A printable reply that nests deeper is refused, whatever surrounds the offending aggregate. */
  lemma {:induction false} TooDeepFails(v: Reply, suffix: Bytes, depth: nat, isDouble: DoubleTest)
    requires Printable(v, isDouble) && depth <= MAX_DEPTH < depth + Nesting(v)
    ensures ParseValue(Encode(v) + suffix, depth, isDouble) == Fail(Protocol)
    decreases v, 1
  {
    hide ParseValue, FindCRLF, Digits, IntText, ParseLL;
    match v
    case Array(es) => TooDeepAggregate(STAR, |es|, es, suffix, depth, isDouble);
    case Map(es) => TooDeepAggregate(PERCENT, |es| / 2, es, suffix, depth, isDouble);
    case Set(es) => TooDeepAggregate(TILDE, |es|, es, suffix, depth, isDouble);
  }

  lemma {:induction false} TooDeepAggregate(b: byte, n: nat, es: seq<Reply>, suffix: Bytes, depth: nat, isDouble: DoubleTest)
    requires KindOf(b).Some? && KindOf(b).value.IsAggregate() && SlotCount(KindOf(b).value, n) == |es| <= INT_MAX
    requires forall i :: 0 <= i < |es| ==> Printable(es[i], isDouble)
    requires depth <= MAX_DEPTH < depth + 1 + NestingAll(es)
    ensures ParseValue(Header(b, n) + EncodeAll(es) + suffix, depth, isDouble) == Fail(Protocol)
    decreases es, 1
  {
    hide ParseValue, ParseElements, EncodeAll, Digits, NestingAll, FindCRLF, ParseRest;
    var t := EncodeAll(es) + suffix;
    assert Header(b, n) + EncodeAll(es) + suffix == Header(b, n) + t;
    if depth == MAX_DEPTH {
      assert Header(b, n) + t == [b] + (Digits(n) + CRLF + t);
      ReadsTyped(b, Digits(n) + CRLF + t, depth, isDouble);
    } else {
      ReadsHeader(b, n, t, depth, isDouble);
      TooDeepElements(KindOf(b).value, |es|, [], es, suffix, depth + 1, isDouble);
    }
  }

  lemma {:induction false} TooDeepElements(k: Kind, count: nat, read: seq<Reply>, es: seq<Reply>, suffix: Bytes,
                                           depth: nat, isDouble: DoubleTest)
    requires k.IsAggregate() && |read| + |es| == count
    requires forall i :: 0 <= i < |es| ==> Printable(es[i], isDouble)
    requires depth <= MAX_DEPTH < depth + NestingAll(es)
    ensures ParseElements(k, count, read, EncodeAll(es) + suffix, depth, isDouble) == Fail(Protocol)
    decreases es, 0
  {
    hide Encode, ParseValue, Nesting;
    var rest := EncodeAll(es[1..]) + suffix;
    assert EncodeAll(es) + suffix == Encode(es[0]) + rest;
    if depth + Nesting(es[0]) > MAX_DEPTH {
      TooDeepFails(es[0], rest, depth, isDouble);
    } else {
      RoundTrip(es[0], rest, depth, isDouble);
      assert (Encode(es[0]) + rest)[|Encode(es[0])|..] == rest;
      TooDeepElements(k, count, read + [es[0]], es[1..], suffix, depth, isDouble);
    }
  }

  /** The exact condition: a printable reply survives printing and parsing iff it nests at most eight aggregates. */
  lemma {:induction false} RoundTripIff(v: Reply, suffix: Bytes, isDouble: DoubleTest)
    requires Printable(v, isDouble)
    ensures ParseValue(Encode(v) + suffix, 0, isDouble) == Done(v, |Encode(v)|) <==> Nesting(v) <= MAX_DEPTH
  {
    if Nesting(v) <= MAX_DEPTH {
      RoundTrip(v, suffix, 0, isDouble);
    } else {
      TooDeepFails(v, suffix, 0, isDouble);
    }
  }

  /** A status line survives iff it holds no line end; otherwise it is cut at the first one. */
  lemma {:induction false} StatusRoundTripIff(text: Bytes, suffix: Bytes, depth: nat, isDouble: DoubleTest)
    ensures ParseValue(Encode(Status(text)) + suffix, depth, isDouble) == Done(Status(text), |text| + 3)
       <==> FindCRLF(text) == None
  {
    hide ParseValue, ParseBody, FindCRLF;
    var s := text + CRLF + suffix;
    assert Encode(Status(text)) + suffix == [PLUS] + s;
    ReadsTyped(PLUS, s, depth, isDouble);
    match FindCRLF(text)
    case None => ReadsLine(KStatus, text, suffix, depth, isDouble);
    case Some(n) => CutsStatus(text, n, suffix, depth, isDouble);
  }

  lemma {:induction false} CutsStatus(text: Bytes, n: nat, suffix: Bytes, depth: nat, isDouble: DoubleTest)
    requires FindCRLF(text) == Some(n)
    ensures ParseBody(KStatus, text + CRLF + suffix, depth, isDouble) == Done(Status(text[..n]), n + 2) && n < |text|
  {
    hide FindCRLF;
    var s := text + CRLF + suffix;
    FindCRLFPrefix(text, n, CRLF + suffix);
    assert s == text + (CRLF + suffix) && s[..n] == text[..n];
  }

  /** A whole stream of encoded replies is read back in order, up to a last incomplete one. */
  lemma {:induction false} StreamRoundTrip(vs: seq<Reply>, isDouble: DoubleTest)
    requires forall i :: 0 <= i < |vs| ==> Printable(vs[i], isDouble) && Nesting(vs[i]) <= MAX_DEPTH
    ensures ParseStream(EncodeAll(vs), isDouble) == Trace(vs, None)
  {
    if vs == [] {
    } else {
      var rest := EncodeAll(vs[1..]);
      RoundTrip(vs[0], rest, 0, isDouble);
      assert (Encode(vs[0]) + rest)[|Encode(vs[0])|..] == rest;
      StreamRoundTrip(vs[1..], isDouble);
      assert [vs[0]] + vs[1..] == vs;
    }
  }

  /** End to end: encoded replies, cut into chunks in any way, come out of the reader as objects for those replies. */
  method Transport(vs: seq<Reply>, chunks: seq<Bytes>, spare: nat, isDouble: DoubleTest)
    returns (reader: RedisReader, objects: seq<ReplyObject?>)
    requires forall i :: 0 <= i < |vs| ==> Printable(vs[i], isDouble) && Nesting(vs[i]) <= MAX_DEPTH
    requires Concat(chunks) == EncodeAll(vs)
    ensures fresh(reader) && reader.Valid() && reader.err == None
    ensures AllRep(objects, vs, reader.built)
  {
    hide *;
    StreamRoundTrip(vs, isDouble);
    reader, objects := ReadChunks(chunks, spare, isDouble);
  }
}
