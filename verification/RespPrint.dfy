/**
 Printing what the reader read. The reader is more lenient than the printer; the bytes of a value
 come back exactly when they pass the tests that the reader leaves out.
 */
module RespPrint {
  import opened ByteStrings
  import opened Decimal
  import opened RespGrammar
  import opened RespEncode

  const TRUE_TEXT: Bytes := ['t' as int]
  const FALSE_TEXT: Bytes := ['f' as int]

  function After(k: nat, n: Option<nat>): Option<nat> {
    if n.Some? then Some(k + n.value) else None
  }

  /**
   The length of the value in front of s if it is in printed form: bulk bodies end in a line end, no
   length is negative, the line of a null is empty and the line of a boolean is `t` or `f`.
   */
  function Printed(s: Bytes): (n: Option<nat>)
    ensures n.Some? ==> 1 <= n.value <= |s|
    decreases |s|, 0
  {
    if s == [] || KindOf(s[0]) == None then None
    else
      var t := s[1..];
      var n := FindCRLF(t);
      if n == None then None
      else After(n.value + 3, PrintedRest(KindOf(s[0]).value, t[..n.value], t[n.value + 2..]))
  }

  function PrintedRest(k: Kind, line: Bytes, s: Bytes): (n: Option<nat>)
    ensures n.Some? ==> n.value <= |s|
    decreases |s|, 2
  {
    if k == KNil then (if line == [] then Some(0) else None)
    else if k == KBool then (if line == TRUE_TEXT || line == FALSE_TEXT then Some(0) else None)
    else if k != KString && !k.IsAggregate() then Some(0)
    else
      var size := ParseLL(line);
      if size == None || size.value < 0 then None
      else if k.IsAggregate() then PrintedElements(SlotCount(k, size.value), s)
      else if size.value + 2 <= |s| && s[size.value..size.value + 2] == CRLF then Some(size.value + 2)
      else None
  }

  function PrintedElements(count: nat, s: Bytes): (n: Option<nat>)
    ensures n.Some? ==> n.value <= |s|
    decreases |s|, 1, count
  {
    if count == 0 then Some(0)
    else
      var n := Printed(s);
      if n == None then None else After(n.value, PrintedElements(count - 1, s[n.value..]))
  }

  predicate PrintedForm(s: Bytes) {
    Printed(s).Some?
  }

  // ----- What the reader yields can be printed -----

  lemma {:induction false} LineHasNoEnd(s: Bytes, n: nat)
    requires FindCRLF(s) == Some(n)
    ensures FindCRLF(s[..n]) == None
  {
    assert forall i :: 0 <= i < n ==> s[..n][i] == s[i];
  }

  lemma {:induction false} LinePrintable(k: Kind, line: Bytes, isDouble: DoubleTest)
    requires !k.IsAggregate() && k != KString && FindCRLF(line) == None && LineReply(k, line, isDouble).Some?
    ensures var v := LineReply(k, line, isDouble).value; Printable(v, isDouble) && Nesting(v) == 0
  {
    if k == KInteger {
      ParseLLMeansText(line, ParseLL(line).value);
    }
  }

  /** What the parser yields is printable and nests no deeper than it may. */
  lemma {:induction false} ParsedPrintable(s: Bytes, depth: nat, isDouble: DoubleTest)
    requires ParseValue(s, depth, isDouble).Done? && depth <= MAX_DEPTH
    ensures var v := ParseValue(s, depth, isDouble).reply; Printable(v, isDouble) && depth + Nesting(v) <= MAX_DEPTH
    decreases |s|, 0
  {
    var k, t := KindOf(s[0]).value, s[1..];
    var n := FindCRLF(t).value;
    LineHasNoEnd(t, n);
    RestPrintable(k, t[..n], t[n + 2..], depth, isDouble);
  }

  lemma {:induction false} RestPrintable(k: Kind, line: Bytes, s: Bytes, depth: nat, isDouble: DoubleTest)
    requires ParseRest(k, line, s, depth, isDouble).Done? && FindCRLF(line) == None
    requires depth <= MAX_DEPTH && (k.IsAggregate() ==> depth < MAX_DEPTH)
    ensures var v := ParseRest(k, line, s, depth, isDouble).reply; Printable(v, isDouble) && depth + Nesting(v) <= MAX_DEPTH
    decreases |s|, 2
  {
    if k == KString {
      ParseLLMeansText(line, ParseLL(line).value);
    } else if !k.IsAggregate() {
      LinePrintable(k, line, isDouble);
    } else if ParseLL(line).value >= 0 {
      AggregatePrintable(k, line, s, depth, isDouble);
    }
  }

  lemma {:induction false} AggregatePrintable(k: Kind, line: Bytes, s: Bytes, depth: nat, isDouble: DoubleTest)
    requires k.IsAggregate() && depth < MAX_DEPTH && ParseRest(k, line, s, depth, isDouble).Done? && ParseLL(line).value >= 0
    ensures var v := ParseRest(k, line, s, depth, isDouble).reply; Printable(v, isDouble) && depth + Nesting(v) <= MAX_DEPTH
    decreases |s|, 1, 0x1_0000_0000
  {
    hide ParseLL, ParseElements, Printable, Nesting, NestingAll;
    var n := ParseLL(line).value;
    var es := ElementsPrintable(k, SlotCount(k, n), [], s, depth + 1, isDouble);
    assert [] + es == es;
    WrapPrintable(k, n, es, isDouble);
  }

  lemma {:induction false} WrapPrintable(k: Kind, n: nat, es: seq<Reply>, isDouble: DoubleTest)
    requires k.IsAggregate() && |es| == SlotCount(k, n) <= INT_MAX
    requires forall i :: 0 <= i < |es| ==> Printable(es[i], isDouble)
    ensures Printable(Wrap(k, es), isDouble) && Nesting(Wrap(k, es)) == 1 + NestingAll(es)
  {
  }

  lemma {:induction false} ElementsPrintable(k: Kind, count: nat, read: seq<Reply>, s: Bytes, depth: nat, isDouble: DoubleTest)
    returns (es: seq<Reply>)
    requires k.IsAggregate() && |read| <= count && depth <= MAX_DEPTH
    requires ParseElements(k, count, read, s, depth, isDouble).Done?
    ensures ParseElements(k, count, read, s, depth, isDouble).reply == Wrap(k, read + es) && |read| + |es| == count
    ensures (forall i :: 0 <= i < |es| ==> Printable(es[i], isDouble)) && depth + NestingAll(es) <= MAX_DEPTH
    decreases |s|, 1, count - |read|
  {
    hide ParseValue, Printable, Nesting;
    if |read| == count {
      es := [];
      assert read + es == read;
    } else {
      var first := ParseValue(s, depth, isDouble);
      ParsedPrintable(s, depth, isDouble);
      var rest := ElementsPrintable(k, count, read + [first.reply], s[first.used..], depth, isDouble);
      es := [first.reply] + rest;
      assert read + [first.reply] + rest == read + es && es[1..] == rest;
    }
  }

  // ----- Printed form is what the printer prints -----

  lemma {:induction false} PrintedLine(b: byte, line: Bytes, t: Bytes)
    requires KindOf(b).Some? && FindCRLF(line) == None
    ensures Printed([b] + line + CRLF + t) == After(|line| + 3, PrintedRest(KindOf(b).value, line, t))
  {
    hide PrintedRest;
    var s := [b] + line + CRLF + t;
    FindCRLFExact(line, t);
    assert s[1..] == line + CRLF + t;
    assert s[1..][..|line|] == line && s[1..][|line| + 2..] == t;
  }

  lemma {:induction false} PrintedHeader(b: byte, n: nat, t: Bytes)
    requires KindOf(b).Some? && n <= LLONG_MAX
    ensures Printed(Header(b, n) + t) == After(|Header(b, n)|, PrintedRest(KindOf(b).value, Digits(n), t))
    ensures ParseLL(Digits(n)) == Some(n)
  {
    hide PrintedRest, Printed, ParseLL, Digits;
    ParseLLOfIntText(n);
    assert IntText(n) == Digits(n);
    NumberHasNoLineEnd(n);
    PrintedLine(b, Digits(n), t);
    assert Header(b, n) + t == [b] + Digits(n) + CRLF + t;
  }

  /** The printer's output is in printed form, to its last byte and whatever follows. */
  lemma {:induction false} EncodedIsPrinted(v: Reply, suffix: Bytes, isDouble: DoubleTest)
    requires Printable(v, isDouble)
    ensures Printed(Encode(v) + suffix) == Some(|Encode(v)|)
    decreases v, 1
  {
    hide Printed, Digits, ParseLL, FindCRLF;
    match v
    case Array(es) => AggregateIsPrinted(STAR, |es|, es, suffix, isDouble);
    case Map(es) => AggregateIsPrinted(PERCENT, |es| / 2, es, suffix, isDouble);
    case Set(es) => AggregateIsPrinted(TILDE, |es|, es, suffix, isDouble);
    case Bulk(text) =>
      PrintedHeader(DOLLAR, |text|, text + CRLF + suffix);
      assert (text + CRLF + suffix)[|text|..|text| + 2] == CRLF;
      assert Encode(v) + suffix == Header(DOLLAR, |text|) + (text + CRLF + suffix);
    case _ => LineIsPrinted(v, suffix, isDouble);
  }

  lemma {:induction false} LineIsPrinted(v: Reply, suffix: Bytes, isDouble: DoubleTest)
    requires Printable(v, isDouble) && !v.Array? && !v.Map? && !v.Set? && !v.Bulk?
    ensures Printed(Encode(v) + suffix) == Some(|Encode(v)|)
  {
    hide Printed, Digits, ParseLL;
    match v
    case Status(text) => PrintedLine(PLUS, text, suffix);
    case Error(text) => PrintedLine(MINUS, text, suffix);
    case Integer(n) =>
      NumberHasNoLineEnd(n);
      PrintedLine(COLON, IntText(n), suffix);
    case Double(text) => PrintedLine(COMMA, text, suffix);
    case Nil => PrintedLine(UNDERSCORE, [], suffix);
    case Bool(flag) => PrintedLine(HASH, if flag then TRUE_TEXT else FALSE_TEXT, suffix);
  }

  lemma {:induction false} AggregateIsPrinted(b: byte, n: nat, es: seq<Reply>, suffix: Bytes, isDouble: DoubleTest)
    requires KindOf(b).Some? && KindOf(b).value.IsAggregate() && SlotCount(KindOf(b).value, n) == |es| <= INT_MAX
    requires forall i :: 0 <= i < |es| ==> Printable(es[i], isDouble)
    ensures Printed(Header(b, n) + EncodeAll(es) + suffix) == Some(|Header(b, n) + EncodeAll(es)|)
    decreases es, 1
  {
    hide Printed, PrintedElements, Digits, ParseLL, EncodeAll, Header;
    PrintedHeader(b, n, EncodeAll(es) + suffix);
    ElementsArePrinted(es, suffix, isDouble);
    assert Header(b, n) + EncodeAll(es) + suffix == Header(b, n) + (EncodeAll(es) + suffix);
  }

  lemma {:induction false} ElementsArePrinted(es: seq<Reply>, suffix: Bytes, isDouble: DoubleTest)
    requires forall i :: 0 <= i < |es| ==> Printable(es[i], isDouble)
    ensures PrintedElements(|es|, EncodeAll(es) + suffix) == Some(|EncodeAll(es)|)
    decreases es, 0
  {
    hide Printed, Encode;
    if es != [] {
      var rest := EncodeAll(es[1..]) + suffix;
      assert EncodeAll(es) + suffix == Encode(es[0]) + rest;
      EncodedIsPrinted(es[0], rest, isDouble);
      assert (Encode(es[0]) + rest)[|Encode(es[0])|..] == rest;
      ElementsArePrinted(es[1..], suffix, isDouble);
    }
  }

  // ----- Bytes in printed form come back -----

  /** A value in printed form is printed as the very bytes it was read from. */
  lemma {:induction false} PrintedComesBack(s: Bytes, depth: nat, isDouble: DoubleTest)
    requires ParseValue(s, depth, isDouble).Done? && PrintedForm(s)
    ensures var o := ParseValue(s, depth, isDouble); Printed(s) == Some(o.used) && Encode(o.reply) == s[..o.used]
    decreases |s|, 0
  {
    hide Encode, ParseRest, PrintedRest;
    var k, t := KindOf(s[0]).value, s[1..];
    var n := FindCRLF(t).value;
    FindCRLFLine(t, n);
    RestComesBack(s[0], t[..n], t[n + 2..], depth, isDouble);
    var o := ParseRest(k, t[..n], t[n + 2..], depth, isDouble);
    assert s[..o.used + 1] == [s[0]] + t[..n] + CRLF + t[n + 2..][..o.used - n - 2];
  }

  lemma {:induction false} RestComesBack(b: byte, line: Bytes, s: Bytes, depth: nat, isDouble: DoubleTest)
    requires KindOf(b).Some? && ParseRest(KindOf(b).value, line, s, depth, isDouble).Done?
    requires PrintedRest(KindOf(b).value, line, s).Some?
    ensures var o := ParseRest(KindOf(b).value, line, s, depth, isDouble);
      && PrintedRest(KindOf(b).value, line, s) == Some(o.used - |line| - 2)
      && Encode(o.reply) == [b] + line + CRLF + s[..o.used - |line| - 2]
    decreases |s|, 2
  {
    var k, size := KindOf(b).value, ParseLL(line);
    if k == KString || k.IsAggregate() {
      SizeText(line, size.value);
    }
    if k == KString {
      BulkComesBack(line, s);
    } else if k.IsAggregate() {
      AggregateComesBack(b, line, s, depth, isDouble);
    } else {
      LineComesBack(b, line, isDouble);
      assert s[..0] == [];
    }
  }

  lemma {:induction false} SizeText(line: Bytes, n: int)
    requires ParseLL(line) == Some(n) && n >= 0
    ensures line == Digits(n) && n <= LLONG_MAX
  {
    ParseLLMeansText(line, n);
  }

  lemma {:induction false} BulkComesBack(line: Bytes, s: Bytes)
    requires ParseLL(line).Some? && 0 <= ParseLL(line).value && line == Digits(ParseLL(line).value)
    requires PrintedRest(KString, line, s).Some?
    ensures var n := ParseLL(line).value;
      && BulkRest(line, s) == Done(Bulk(s[..n]), n + 2) && PrintedRest(KString, line, s) == Some(n + 2)
      && Encode(Bulk(s[..n])) == [DOLLAR] + line + CRLF + s[..n + 2]
  {
    hide ParseLL, Digits;
    var n := ParseLL(line).value;
    assert s[..n + 2] == s[..n] + CRLF;
    assert Header(DOLLAR, n) + s[..n] + CRLF == [DOLLAR] + line + CRLF + (s[..n] + CRLF);
  }

  lemma {:induction false} LineComesBack(b: byte, line: Bytes, isDouble: DoubleTest)
    requires KindOf(b).Some? && !KindOf(b).value.IsAggregate() && KindOf(b).value != KString
    requires LineReply(KindOf(b).value, line, isDouble).Some? && PrintedRest(KindOf(b).value, line, []).Some?
    ensures Encode(LineReply(KindOf(b).value, line, isDouble).value) == [b] + line + CRLF
  {
    if KindOf(b) == Some(KInteger) {
      ParseLLMeansText(line, ParseLL(line).value);
    }
  }

  lemma {:induction false} AggregateComesBack(b: byte, line: Bytes, s: Bytes, depth: nat, isDouble: DoubleTest)
    requires KindOf(b).Some? && KindOf(b).value.IsAggregate() && ParseRest(KindOf(b).value, line, s, depth, isDouble).Done?
    requires PrintedRest(KindOf(b).value, line, s).Some? && line == Digits(ParseLL(line).value)
    ensures var o := ParseRest(KindOf(b).value, line, s, depth, isDouble);
      && PrintedRest(KindOf(b).value, line, s) == Some(o.used - |line| - 2)
      && Encode(o.reply) == [b] + line + CRLF + s[..o.used - |line| - 2]
    decreases |s|, 1, 0x1_0000_0000
  {
    hide ParseLL, Digits, ParseElements, PrintedElements, Encode, EncodeAll, Wrap;
    var k, n := KindOf(b).value, ParseLL(line).value;
    var es, used := ElementsComeBack(k, SlotCount(k, n), [], s, depth + 1, isDouble);
    assert [] + es == es;
    EncodeWrap(b, n, es);
  }

  lemma {:induction false} EncodeWrap(b: byte, n: nat, es: seq<Reply>)
    requires KindOf(b).Some? && KindOf(b).value.IsAggregate() && |es| == SlotCount(KindOf(b).value, n)
    ensures Encode(Wrap(KindOf(b).value, es)) == [b] + Digits(n) + CRLF + EncodeAll(es)
  {
    hide EncodeAll, Digits;
  }

  lemma {:induction false} ElementsComeBack(k: Kind, count: nat, read: seq<Reply>, s: Bytes, depth: nat, isDouble: DoubleTest)
    returns (es: seq<Reply>, used: nat)
    requires k.IsAggregate() && |read| <= count && ParseElements(k, count, read, s, depth, isDouble).Done?
    requires PrintedElements(count - |read|, s).Some?
    ensures ParseElements(k, count, read, s, depth, isDouble) == Done(Wrap(k, read + es), used)
    ensures |read| + |es| == count && PrintedElements(count - |read|, s) == Some(used) && EncodeAll(es) == s[..used]
    decreases |s|, 1, count - |read|
  {
    hide Encode, Printed, Wrap, EncodeAll, ParseValue;
    if |read| == count {
      es, used := [], 0;
      assert read + es == read;
      NothingComesBack(s);
    } else {
      var first := ParseValue(s, depth, isDouble);
      PrintedComesBack(s, depth, isDouble);
      var rest, more := ElementsComeBack(k, count, read + [first.reply], s[first.used..], depth, isDouble);
      es, used := [first.reply] + rest, first.used + more;
      assert read + [first.reply] + rest == read + es;
      OneMoreBack(first.reply, rest, s, first.used, more);
    }
  }

  lemma {:induction false} NothingComesBack(s: Bytes)
    ensures EncodeAll([]) == s[..0]
  {
  }

  lemma {:induction false} OneMoreBack(first: Reply, rest: seq<Reply>, s: Bytes, n: nat, m: nat)
    requires n + m <= |s| && Encode(first) == s[..n] && EncodeAll(rest) == s[n..][..m]
    ensures EncodeAll([first] + rest) == s[..n + m]
  {
    hide Encode;
    assert ([first] + rest)[1..] == rest;
    assert s[..n + m] == s[..n] + s[n..][..m];
  }

  /**
   The exact condition: printing the value that was read gives back the bytes it was read from if and
   only if those are in printed form.
   */
  lemma {:induction false} PrintAfterReadIff(s: Bytes, depth: nat, isDouble: DoubleTest)
    requires ParseValue(s, depth, isDouble).Done? && depth <= MAX_DEPTH
    ensures var o := ParseValue(s, depth, isDouble); Encode(o.reply) == s[..o.used] <==> PrintedForm(s)
  {
    hide ParseValue, Encode, Printed;
    var o := ParseValue(s, depth, isDouble);
    ParsedPrintable(s, depth, isDouble);
    assert s[..o.used] + s[o.used..] == s;
    EncodedIsPrinted(o.reply, s[o.used..], isDouble);
    if PrintedForm(s) {
      PrintedComesBack(s, depth, isDouble);
    }
  }

  // ----- One input for each test that is left out -----

  lemma {:induction false} ShortItem(b: byte, line: Bytes, t: Bytes, depth: nat, isDouble: DoubleTest)
    requires KindOf(b).Some? && !KindOf(b).value.IsAggregate() && FindCRLF(line) == None
    ensures var k, s := KindOf(b).value, [b] + line + CRLF + t;
      && ParseValue(s, depth, isDouble) == Shift(1, ParseRest(k, line, t, depth, isDouble))
      && Printed(s) == After(|line| + 3, PrintedRest(k, line, t))
  {
    hide ParseValue, ParseBody, ParseRest, Printed, PrintedRest, FindCRLF;
    assert [b] + line + CRLF + t == [b] + (line + CRLF + t);
    ReadsTyped(b, line + CRLF + t, depth, isDouble);
    ReadsLine(KindOf(b).value, line, t, depth, isDouble);
    PrintedLine(b, line, t);
  }

  /** `$0\r\nXY`: the two bytes after a bulk body are not looked at. */
  lemma {:induction false} BulkTrailerIgnored(depth: nat, isDouble: DoubleTest)
    ensures var s: Bytes := [DOLLAR, ZERO, CR, LF, 88, 89];
      ParseValue(s, depth, isDouble) == Done(Bulk([]), 6) && Encode(Bulk([])) != s && !PrintedForm(s)
  {
    hide ParseValue, Printed;
    var s: Bytes := [DOLLAR, ZERO, CR, LF, 88, 89];
    ParseLLOfIntText(0);
    ShortItem(DOLLAR, [ZERO], [88, 89], depth, isDouble);
    assert s == [DOLLAR] + [ZERO] + CRLF + [88, 89];
    assert Encode(Bulk([]))[4] == CR;
  }

  /** `$-1\r\n` is a null, which is printed as `_\r\n`. */
  lemma {:induction false} NegativeLengthIsNull(depth: nat, isDouble: DoubleTest)
    ensures var s: Bytes := [DOLLAR, MINUS, ZERO + 1, CR, LF];
      ParseValue(s, depth, isDouble) == Done(Nil, 5) && Encode(Nil) != s && !PrintedForm(s)
  {
    hide ParseValue, Printed;
    var s: Bytes := [DOLLAR, MINUS, ZERO + 1, CR, LF];
    assert IntText(-1) == [MINUS, ZERO + 1];
    ParseLLOfIntText(-1);
    ShortItem(DOLLAR, [MINUS, ZERO + 1], [], depth, isDouble);
    assert s == [DOLLAR] + [MINUS, ZERO + 1] + CRLF + [];
  }

  /** `_x\r\n`: the text of a null is not looked at. */
  lemma {:induction false} NullTextIgnored(depth: nat, isDouble: DoubleTest)
    ensures var s: Bytes := [UNDERSCORE, 120, CR, LF];
      ParseValue(s, depth, isDouble) == Done(Nil, 4) && Encode(Nil) != s && !PrintedForm(s)
  {
    hide ParseValue, Printed;
    var s: Bytes := [UNDERSCORE, 120, CR, LF];
    ShortItem(UNDERSCORE, [120], [], depth, isDouble);
    assert s == [UNDERSCORE] + [120] + CRLF + [];
  }

  /** `#x\r\n`: of the text of a boolean only a first `t` or `T` counts. */
  lemma {:induction false} BoolTextIgnored(depth: nat, isDouble: DoubleTest)
    ensures var s: Bytes := [HASH, 120, CR, LF];
      ParseValue(s, depth, isDouble) == Done(Bool(false), 4) && Encode(Bool(false)) != s && !PrintedForm(s)
  {
    hide ParseValue, Printed;
    var s: Bytes := [HASH, 120, CR, LF];
    ShortItem(HASH, [120], [], depth, isDouble);
    assert s == [HASH] + [120] + CRLF + [];
    assert Encode(Bool(false))[1] == 'f' as int;
  }
}
