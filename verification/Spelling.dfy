/**
 What a reply looks like on the wire, written down byte by byte and without a parser: every spelling
 that the reader accepts, and every beginning that it refuses. The reader accepts exactly the one and
 refuses exactly the other.
 */
module Spelling {
  import opened ByteStrings
  import opened Decimal
  import opened RespGrammar
  import opened RespEncode

  // ----- Numbers -----

  function TenTo(k: nat): (p: nat)
    ensures p >= 1
  {
    if k == 0 then 1 else 10 * TenTo(k - 1)
  }

  /** The value of decimal digits, each by its place. */
  function Places(s: Bytes): nat
    requires forall i :: 0 <= i < |s| ==> 48 <= s[i] <= 57
  {
    if s == [] then 0 else (s[0] - 48) * TenTo(|s| - 1) + Places(s[1..])
  }

  /** Decimal digits for n, without a leading zero. */
  predicate SpellsNat(s: Bytes, n: nat) {
    s != [] && (forall i :: 0 <= i < |s| ==> 48 <= s[i] <= 57) && (|s| > 1 ==> s[0] != 48) && Places(s) == n
  }

  predicate SpellsNumber(s: Bytes, n: int) {
    if n >= 0 then SpellsNat(s, n) else s != [] && s[0] == 45 && SpellsNat(s[1..], -n)
  }

  lemma {:induction false} PlacesSnoc(s: Bytes, c: byte)
    requires forall i :: 0 <= i < |s| ==> 48 <= s[i] <= 57
    requires 48 <= c <= 57
    ensures Places(s + [c]) == 10 * Places(s) + (c - 48)
  {
    if s == [] {
      assert s + [c] == [c] && [c][1..] == [] && TenTo(0) == 1;
    } else {
      assert (s + [c])[1..] == s[1..] + [c];
      PlacesSnoc(s[1..], c);
      TimesTen(s[0] - 48, TenTo(|s| - 1));
    }
  }

  lemma {:induction false} TimesTen(a: nat, p: nat)
    ensures a * (10 * p) == 10 * (a * p)
  {
  }

  lemma {:induction false} PlacesValue(s: Bytes)
    requires forall i :: 0 <= i < |s| ==> 48 <= s[i] <= 57
    ensures AllDigits(s) && Places(s) == ValueOf(s)
  {
    if s != [] {
      var front := s[..|s| - 1];
      assert s == front + [s[|s| - 1]];
      PlacesValue(front);
      PlacesSnoc(front, s[|s| - 1]);
    }
  }

  /** The printer and the strict parser mean these spellings. */
  lemma {:induction false} SpellsNatIff(s: Bytes, n: nat)
    ensures SpellsNat(s, n) <==> s == Digits(n)
  {
    hide Digits, Places, ValueOf;
    DigitsAreCanonical(n);
    if s == Digits(n) {
      PlacesValue(s);
    }
    if SpellsNat(s, n) {
      PlacesValue(s);
      CanonicalIsDigits(s);
    }
  }

  lemma {:induction false} SpellsNumberIff(s: Bytes, n: int)
    ensures SpellsNumber(s, n) <==> s == IntText(n)
  {
    hide Digits, SpellsNat;
    if n >= 0 {
      SpellsNatIff(s, n);
    } else {
      if s != [] {
        SpellsNatIff(s[1..], -n);
      }
      assert s != [] && s[0] == 45 ==> s == [45] + s[1..];
      assert ([MINUS] + Digits(-n))[1..] == Digits(-n);
    }
  }

  /** A number is read exactly when it is spelled so and fits 64 bits. */
  lemma {:induction false} NumberIff(s: Bytes, n: int)
    ensures ParseLL(s) == Some(n) <==> -0x8000_0000_0000_0000 <= n <= 0x7fff_ffff_ffff_ffff && SpellsNumber(s, n)
  {
    hide ParseLL, IntText, SpellsNumber;
    SpellsNumberIff(s, n);
    ParseLLExact(s, n);
  }

  // ----- Spellings -----

  /** No line end in the text. */
  predicate OneLine(text: Bytes) {
    forall i :: 0 <= i < |text| - 1 ==> !(text[i] == 13 && text[i + 1] == 10)
  }

  /** A line: a type byte, a text and the line end. */
  predicate IsLine(b: Bytes, kind: byte, text: Bytes) {
    b == [kind] + text + [13, 10] && OneLine(text)
  }

  /** A line with a length or a count. */
  ghost predicate IsHeading(b: Bytes, kind: byte, n: int) {
    |b| >= 3 && IsLine(b, kind, b[1..|b| - 2]) && SpellsNumber(b[1..|b| - 2], n)
  }

  /** The bytes b are a spelling of v, in which that many aggregates may still nest. */
  ghost predicate Spells(v: Reply, b: Bytes, levels: nat, isDouble: DoubleTest)
    decreases v, 1
  {
    match v
    case Status(text) => IsLine(b, 43, text)
    case Error(text) => IsLine(b, 45, text)
    case Integer(n) => IsHeading(b, 58, n) && -0x8000_0000_0000_0000 <= n <= 0x7fff_ffff_ffff_ffff
    case Double(text) => IsLine(b, 44, text) && |text| <= 325 && isDouble(text)
    case Nil =>
      || (|b| >= 3 && IsLine(b, 95, b[1..|b| - 2]))
      || b == [36, 45, 49, 13, 10]
      || (levels > 0 && (b == [42, 45, 49, 13, 10] || b == [37, 45, 49, 13, 10] || b == [126, 45, 49, 13, 10]))
    case Bool(flag) => |b| >= 3 && IsLine(b, 35, b[1..|b| - 2]) && flag == (b[1] == 116 || b[1] == 84)
    case Bulk(text) =>
      |text| <= 0x7fff_ffff_ffff_ffff &&
      exists k :: 0 <= k <= |b| && IsHeading(b[..k], 36, |text|) && |b| == k + |text| + 2 && b[k..k + |text|] == text
    case Array(es) => levels > 0 && |es| <= 0x7fff_ffff && exists k :: 0 <= k <= |b| && IsHeading(b[..k], 42, |es|) && SpellsAll(es, b[k..], levels - 1, isDouble)
    case Map(es) =>
      levels > 0 && |es| <= 0x7fff_ffff && |es| % 2 == 0 &&
      exists k :: 0 <= k <= |b| && IsHeading(b[..k], 37, |es| / 2) && SpellsAll(es, b[k..], levels - 1, isDouble)
    case Set(es) => levels > 0 && |es| <= 0x7fff_ffff && exists k :: 0 <= k <= |b| && IsHeading(b[..k], 126, |es|) && SpellsAll(es, b[k..], levels - 1, isDouble)
  }

  ghost predicate SpellsAll(es: seq<Reply>, b: Bytes, levels: nat, isDouble: DoubleTest)
    decreases es, 0
  {
    if es == [] then b == []
    else exists k :: 0 <= k <= |b| && Spells(es[0], b[..k], levels, isDouble) && SpellsAll(es[1..], b[k..], levels, isDouble)
  }

  // ----- What is spelled is read -----

  lemma {:induction false} OneLineIff(text: Bytes)
    ensures OneLine(text) <==> FindCRLF(text) == None
  {
  }

  lemma {:induction false} HeadingIs(b: Bytes, kind: byte, n: int)
    requires IsHeading(b, kind, n)
    ensures b == [kind] + IntText(n) + CRLF && FindCRLF(IntText(n)) == None
    ensures n >= 0 ==> b == Header(kind, n)
  {
    hide IntText, Digits, FindCRLF;
    SpellsNumberIff(b[1..|b| - 2], n);
    NumberHasNoLineEnd(n);
    NatText(if n >= 0 then n else 0);
  }

  lemma {:induction false} NatText(n: int)
    requires n >= 0
    ensures IntText(n) == Digits(n)
  {
  }

  /** A line item, whatever follows. */
  lemma {:induction false} LineReads(b: byte, line: Bytes, v: Reply, t: Bytes, depth: nat, isDouble: DoubleTest)
    requires KindOf(b).Some? && !KindOf(b).value.IsAggregate() && KindOf(b).value != KString
    requires OneLine(line) && LineReply(KindOf(b).value, line, isDouble) == Some(v)
    ensures ParseValue([b] + line + [13, 10] + t, depth, isDouble) == Done(v, |line| + 3)
  {
    hide ParseValue, LineReply;
    OneLineIff(line);
    ReadsLineItem(b, line, v, t, depth, isDouble);
  }

  /** The spellings that fill one line. */
  lemma {:induction false} LeafReads(v: Reply, b: Bytes, t: Bytes, depth: nat, isDouble: DoubleTest)
    requires depth <= 8 && Spells(v, b, 8 - depth, isDouble)
    requires v.Status? || v.Error? || v.Integer? || v.Double? || v.Bool?
    ensures ParseValue(b + t, depth, isDouble) == Done(v, |b|)
  {
    hide ParseValue, SpellsNumber, OneLine, ParseLL;
    var line := b[1..|b| - 2];
    match v
    case Status(text) => LineReads(43, text, v, t, depth, isDouble);
    case Error(text) => LineReads(45, text, v, t, depth, isDouble);
    case Integer(n) =>
      NumberIff(line, n);
      LineReads(58, line, v, t, depth, isDouble);
    case Double(text) => LineReads(44, text, v, t, depth, isDouble);
    case Bool(flag) =>
      assert b[1] == if line == [] then 13 else line[0];
      LineReads(35, line, v, t, depth, isDouble);
  }

  lemma {:induction false} MinusOne()
    ensures SpellsNumber([45, 49], -1) && ParseLL([45, 49]) == Some(-1) && OneLine([45, 49])
  {
    assert [45, 49][1..] == [49] && [49][1..] == [] && TenTo(0) == 1;
    NumberIff([45, 49], -1);
  }

  /** Every spelling of a null. */
  lemma {:induction false} NullReads(b: Bytes, t: Bytes, depth: nat, isDouble: DoubleTest)
    requires depth <= 8 && Spells(Nil, b, 8 - depth, isDouble)
    ensures ParseValue(b + t, depth, isDouble) == Done(Nil, |b|)
  {
    hide ParseValue, ParseLL, ParseElements;
    if |b| >= 3 && IsLine(b, 95, b[1..|b| - 2]) {
      LineReads(95, b[1..|b| - 2], Nil, t, depth, isDouble);
    } else {
      var kind, s := b[0], [45, 49] + CRLF + t;
      MinusOne();
      OneLineIff([45, 49]);
      assert b + t == [kind] + s;
      ReadsTyped(kind, s, depth, isDouble);
      ReadsLine(KindOf(kind).value, [45, 49], t, depth, isDouble);
    }
  }

  lemma {:induction false} BulkReads(text: Bytes, b: Bytes, t: Bytes, depth: nat, isDouble: DoubleTest)
    requires depth <= 8 && Spells(Bulk(text), b, 8 - depth, isDouble)
    ensures ParseValue(b + t, depth, isDouble) == Done(Bulk(text), |b|)
  {
    hide ParseValue, IsHeading;
    var k :| 0 <= k <= |b| && IsHeading(b[..k], 36, |text|) && |b| == k + |text| + 2 && b[k..k + |text|] == text;
    BulkBehind(text, b, k, t, depth, isDouble);
  }

  lemma {:induction false} BulkBehind(text: Bytes, b: Bytes, k: nat, t: Bytes, depth: nat, isDouble: DoubleTest)
    requires k <= |b| && IsHeading(b[..k], 36, |text|) && |b| == k + |text| + 2 && b[k..k + |text|] == text
    requires |text| <= 0x7fff_ffff_ffff_ffff
    ensures ParseValue(b + t, depth, isDouble) == Done(Bulk(text), |b|)
  {
    hide ParseValue, ParseLL, IsHeading, Header, IntText, Digits, BulkRest;
    HeadingIs(b[..k], 36, |text|);
    var line, rest := IntText(|text|), b[k..] + t;
    assert b + t == [36] + (line + CRLF + rest);
    ReadsTyped(36, line + CRLF + rest, depth, isDouble);
    ReadsLine(KString, line, rest, depth, isDouble);
    ParseLLOfIntText(|text|);
    assert rest[..|text|] == b[k..k + |text|];
    BulkRestIs(line, |text|, rest);
  }

  lemma {:induction false} BulkRestIs(line: Bytes, n: nat, rest: Bytes)
    requires ParseLL(line) == Some(n) && n + 2 <= |rest|
    ensures BulkRest(line, rest) == Done(Bulk(rest[..n]), n + 2)
  {
    hide ParseLL;
  }

  /** Everything that is spelled is read, whatever follows. */
  lemma {:induction false} SpelledReads(v: Reply, b: Bytes, t: Bytes, depth: nat, isDouble: DoubleTest)
    requires depth <= 8 && Spells(v, b, 8 - depth, isDouble)
    ensures ParseValue(b + t, depth, isDouble) == Done(v, |b|)
    decreases v, 1
  {
    hide ParseValue, IsHeading, SpellsAll;
    match v
    case Nil => NullReads(b, t, depth, isDouble);
    case Bulk(text) => BulkReads(text, b, t, depth, isDouble);
    case Array(es) =>
      var k :| 0 <= k <= |b| && IsHeading(b[..k], 42, |es|) && SpellsAll(es, b[k..], 8 - depth - 1, isDouble);
      AggregateReads(42, |es|, es, b, k, t, depth, isDouble);
    case Map(es) =>
      var k :| 0 <= k <= |b| && IsHeading(b[..k], 37, |es| / 2) && SpellsAll(es, b[k..], 8 - depth - 1, isDouble);
      AggregateReads(37, |es| / 2, es, b, k, t, depth, isDouble);
    case Set(es) =>
      var k :| 0 <= k <= |b| && IsHeading(b[..k], 126, |es|) && SpellsAll(es, b[k..], 8 - depth - 1, isDouble);
      AggregateReads(126, |es|, es, b, k, t, depth, isDouble);
    case _ => LeafReads(v, b, t, depth, isDouble);
  }

  lemma {:induction false} AggregateReads(kind: byte, n: nat, es: seq<Reply>, b: Bytes, k: nat, t: Bytes, depth: nat, isDouble: DoubleTest)
    requires kind == 42 || kind == 37 || kind == 126
    requires depth < 8 && k <= |b| && IsHeading(b[..k], kind, n) && SpellsAll(es, b[k..], 8 - depth - 1, isDouble)
    requires |es| == (if kind == 37 then 2 * n else n) <= 0x7fff_ffff
    ensures ParseValue(b + t, depth, isDouble)
      == Done(if kind == 42 then Array(es) else if kind == 37 then Map(es) else Reply.Set(es), |b|)
    decreases es, 1
  {
    hide ParseValue, ParseElements, IsHeading, SpellsAll, Header;
    HeadingIs(b[..k], kind, n);
    var rest := b[k..] + t;
    assert b + t == Header(kind, n) + rest;
    ReadsHeader(kind, n, rest, depth, isDouble);
    ElementsRead(KindOf(kind).value, |es|, [], es, b[k..], t, depth + 1, isDouble);
    assert [] + es == es;
  }

  lemma {:induction false} ElementsRead(k: Kind, count: nat, read: seq<Reply>, es: seq<Reply>, b: Bytes, t: Bytes,
                                        depth: nat, isDouble: DoubleTest)
    requires k.IsAggregate() && |read| + |es| == count && depth <= 8 && SpellsAll(es, b, 8 - depth, isDouble)
    ensures ParseElements(k, count, read, b + t, depth, isDouble) == Done(Wrap(k, read + es), |b|)
    decreases es, 0
  {
    hide Spells, ParseValue, Wrap;
    if es == [] {
      assert read + es == read;
    } else {
      var n :| 0 <= n <= |b| && Spells(es[0], b[..n], 8 - depth, isDouble) && SpellsAll(es[1..], b[n..], 8 - depth, isDouble);
      SpelledReads(es[0], b[..n], b[n..] + t, depth, isDouble);
      assert b + t == b[..n] + (b[n..] + t) && (b + t)[n..] == b[n..] + t;
      ElementsRead(k, count, read + [es[0]], es[1..], b[n..], t, depth, isDouble);
      assert read + [es[0]] + es[1..] == read + es;
    }
  }

  // ----- What is read is spelled -----

  lemma {:induction false} ReadIsSpelled(s: Bytes, depth: nat, isDouble: DoubleTest)
    requires depth <= 8 && ParseValue(s, depth, isDouble).Done?
    ensures var o := ParseValue(s, depth, isDouble); Spells(o.reply, s[..o.used], 8 - depth, isDouble)
    decreases |s|, 0
  {
    hide Spells, ParseRest;
    var k, t := KindOf(s[0]).value, s[1..];
    var n := FindCRLF(t).value;
    FindCRLFLine(t, n);
    FirstLine(t, n);
    RestIsSpelled(s[0], t[..n], t[n + 2..], depth, isDouble);
    var o := ParseRest(k, t[..n], t[n + 2..], depth, isDouble);
    assert s[..o.used + 1] == [s[0]] + t[..n] + CRLF + t[n + 2..][..o.used - n - 2];
  }

  lemma {:induction false} FirstLine(s: Bytes, n: nat)
    requires FindCRLF(s) == Some(n)
    ensures OneLine(s[..n])
  {
  }

  lemma {:induction false} RestIsSpelled(b: byte, line: Bytes, s: Bytes, depth: nat, isDouble: DoubleTest)
    requires KindOf(b).Some? && OneLine(line) && depth <= 8 && (KindOf(b).value.IsAggregate() ==> depth < 8)
    requires ParseRest(KindOf(b).value, line, s, depth, isDouble).Done?
    ensures var o := ParseRest(KindOf(b).value, line, s, depth, isDouble);
      o.used >= |line| + 2 && Spells(o.reply, [b] + line + CRLF + s[..o.used - |line| - 2], 8 - depth, isDouble)
    decreases |s|, 2
  {
    hide Spells, ParseLL;
    var k := KindOf(b).value;
    if k == KString {
      BulkIsSpelled(b, line, s, 8 - depth, isDouble);
    } else if !k.IsAggregate() {
      LineIsSpelled(b, line, 8 - depth, isDouble);
      assert [b] + line + CRLF + s[..0] == [b] + line + CRLF;
    } else if ParseLL(line).value == -1 {
      NullIsSpelled(b, line, 8 - depth, isDouble);
      assert [b] + line + CRLF + s[..0] == [b] + line + CRLF;
    } else {
      AggregateIsSpelled(b, line, s, depth, isDouble);
    }
  }

  lemma {:induction false} LineIsSpelled(b: byte, line: Bytes, levels: nat, isDouble: DoubleTest)
    requires KindOf(b).Some? && !KindOf(b).value.IsAggregate() && KindOf(b).value != KString && OneLine(line)
    requires LineReply(KindOf(b).value, line, isDouble).Some?
    ensures Spells(LineReply(KindOf(b).value, line, isDouble).value, [b] + line + CRLF, levels, isDouble)
  {
    hide ParseLL, SpellsNumber, OneLine;
    var s := [b] + line + CRLF;
    assert s[1..|s| - 2] == line;
    assert s[1] == if line == [] then 13 else line[0];
    if KindOf(b) == Some(KInteger) {
      NumberIff(line, ParseLL(line).value);
    }
  }

  /** A length or count of -1. */
  lemma {:induction false} NullIsSpelled(b: byte, line: Bytes, levels: nat, isDouble: DoubleTest)
    requires b == 36 || ((b == 42 || b == 37 || b == 126) && levels > 0)
    requires ParseLL(line) == Some(-1)
    ensures Spells(Nil, [b] + line + CRLF, levels, isDouble)
  {
    hide ParseLL;
    MinusOne();
    ParseLLMeansText(line, -1);
    ParseLLMeansText([45, 49], -1);
  }

  lemma {:induction false} HeadingSpelled(b: byte, line: Bytes, n: nat)
    requires ParseLL(line) == Some(n) && OneLine(line)
    ensures IsHeading([b] + line + CRLF, b, n) && n <= 0x7fff_ffff_ffff_ffff
  {
    hide ParseLL, SpellsNumber;
    NumberIff(line, n);
    var s := [b] + line + CRLF;
    assert s[1..|s| - 2] == line;
  }

  lemma {:induction false} BulkIsSpelled(b: byte, line: Bytes, s: Bytes, levels: nat, isDouble: DoubleTest)
    requires KindOf(b) == Some(KString) && OneLine(line) && BulkRest(line, s).Done?
    ensures var o := BulkRest(line, s); Spells(o.reply, [b] + line + CRLF + s[..o.used], levels, isDouble)
  {
    hide ParseLL, IsHeading;
    var o, head := BulkRest(line, s), [b] + line + CRLF;
    if o.reply == Nil {
      NullIsSpelled(b, line, levels, isDouble);
      assert head + s[..0] == head;
    } else {
      var n := ParseLL(line).value;
      HeadingSpelled(b, line, n);
      var all, k := head + s[..n + 2], |head|;
      assert all[..k] == head && all[k..k + n] == s[..n];
    }
  }

  lemma {:induction false} AggregateIsSpelled(b: byte, line: Bytes, s: Bytes, depth: nat, isDouble: DoubleTest)
    requires KindOf(b).Some? && KindOf(b).value.IsAggregate() && OneLine(line) && depth < 8
    requires ParseRest(KindOf(b).value, line, s, depth, isDouble).Done? && ParseLL(line).value >= 0
    ensures var o := ParseRest(KindOf(b).value, line, s, depth, isDouble);
      o.used >= |line| + 2 && Spells(o.reply, [b] + line + CRLF + s[..o.used - |line| - 2], 8 - depth, isDouble)
    decreases |s|, 1, 0x1_0000_0000
  {
    hide ParseLL, ParseElements, SpellsAll, IsHeading;
    var k, n := KindOf(b).value, ParseLL(line).value;
    HeadingSpelled(b, line, n);
    var es, used := ElementsAreSpelled(k, SlotCount(k, n), [], s, depth + 1, isDouble);
    assert [] + es == es;
    var head := [b] + line + CRLF;
    var all, m := head + s[..used], |head|;
    assert all[..m] == head && all[m..] == s[..used];
  }

  lemma {:induction false} ElementsAreSpelled(k: Kind, count: nat, read: seq<Reply>, s: Bytes, depth: nat, isDouble: DoubleTest)
    returns (es: seq<Reply>, used: nat)
    requires k.IsAggregate() && |read| <= count && depth <= 8 && ParseElements(k, count, read, s, depth, isDouble).Done?
    ensures ParseElements(k, count, read, s, depth, isDouble) == Done(Wrap(k, read + es), used)
    ensures |read| + |es| == count && used <= |s| && SpellsAll(es, s[..used], 8 - depth, isDouble)
    decreases |s|, 1, count - |read|
  {
    hide ParseValue, Spells, Wrap;
    if |read| == count {
      es, used := [], 0;
      assert read + es == read;
    } else {
      var first := ParseValue(s, depth, isDouble);
      ReadIsSpelled(s, depth, isDouble);
      var rest, more := ElementsAreSpelled(k, count, read + [first.reply], s[first.used..], depth, isDouble);
      es, used := [first.reply] + rest, first.used + more;
      assert read + [first.reply] + rest == read + es && es[1..] == rest;
      var b, n := s[..used], first.used;
      assert b[..n] == s[..n] && b[n..] == s[n..][..more];
    }
  }

  /** The reader accepts exactly what is spelled, and takes it for exactly that. */
  lemma {:induction false} ReadIff(s: Bytes, depth: nat, v: Reply, n: nat, isDouble: DoubleTest)
    requires depth <= 8
    ensures ParseValue(s, depth, isDouble) == Done(v, n) <==> n <= |s| && Spells(v, s[..n], 8 - depth, isDouble)
  {
    hide ParseValue, Spells;
    if ParseValue(s, depth, isDouble) == Done(v, n) {
      ReadIsSpelled(s, depth, isDouble);
    }
    if n <= |s| && Spells(v, s[..n], 8 - depth, isDouble) {
      SpelledReads(v, s[..n], s[n..], depth, isDouble);
      assert s[..n] + s[n..] == s;
    }
  }

  // ----- What is refused -----

  /** The first line of s, without its type byte, ends in front of position n. */
  predicate LineTo(s: Bytes, n: nat) {
    1 <= n < |s| - 1 && s[n] == 13 && s[n + 1] == 10 && OneLine(s[1..n])
  }

  /** The text is a number, no smaller than that and of 64 bits. */
  ghost predicate IsNumber(text: Bytes, least: int) {
    exists n: int :: least <= n <= 0x7fff_ffff_ffff_ffff && SpellsNumber(text, n)
  }

  predicate IsAggregateByte(b: byte) {
    b == 42 || b == 37 || b == 126
  }

  /** The bytes begin with something that is no reply, however they may go on. */
  ghost predicate Refused(s: Bytes, levels: nat, e: ErrorKind, isDouble: DoubleTest)
    decreases |s|, 0
  {
    s != [] &&
    if s[0] !in [43, 45, 58, 44, 95, 36, 35] && !IsAggregateByte(s[0]) then e == Protocol
    else if IsAggregateByte(s[0]) && levels == 0 then e == Protocol
    else exists n :: LineTo(s, n) && RefusedLine(s, n, levels, e, isDouble)
  }

  ghost predicate RefusedLine(s: Bytes, n: nat, levels: nat, e: ErrorKind, isDouble: DoubleTest)
    requires LineTo(s, n) && (IsAggregateByte(s[0]) ==> levels > 0)
    decreases |s| - 2, 2
  {
    var line := s[1..n];
    if s[0] == 58 then e == Protocol && !IsNumber(line, -0x8000_0000_0000_0000)
    else if s[0] == 44 then e == Protocol && (|line| > 325 || !isDouble(line))
    else if s[0] == 36 then e == Protocol && !IsNumber(line, -1)
    else if IsAggregateByte(s[0]) then
      || (e == Protocol && !IsNumber(line, -1))
      || exists m: nat :: m <= 0x7fff_ffff_ffff_ffff && SpellsNumber(line, m) && RefusedCount(if s[0] == 37 then 2 * m else m, s[n + 2..], levels - 1, e, isDouble)
    else false
  }

  ghost predicate RefusedCount(slots: nat, s: Bytes, levels: nat, e: ErrorKind, isDouble: DoubleTest)
    decreases |s|, 2
  {
    if slots > 0x7fff_ffff then e == OutOfMemory else RefusedAll(slots, s, levels, e, isDouble)
  }

  /** One of that many elements is refused, and those in front of it are spelled. */
  ghost predicate RefusedAll(count: nat, s: Bytes, levels: nat, e: ErrorKind, isDouble: DoubleTest)
    decreases |s|, 1
  {
    count > 0 &&
    (Refused(s, levels, e, isDouble) ||
     exists v, k :: 1 <= k <= |s| && Spells(v, s[..k], levels, isDouble) && RefusedAll(count - 1, s[k..], levels, e, isDouble))
  }

  lemma {:induction false} LineToIff(s: Bytes, n: nat)
    requires s != []
    ensures LineTo(s, n) <==> n >= 1 && FindCRLF(s[1..]) == Some(n - 1)
  {
    var t := s[1..];
    if LineTo(s, n) {
      assert t[n - 1] == 13 && t[n] == 10;
      forall i | 0 <= i < n - 2
        ensures !(t[i] == 13 && t[i + 1] == 10)
      {
        assert t[i] == s[1..n][i] && t[i + 1] == s[1..n][i + 1];
      }
    }
    if n >= 1 && FindCRLF(t) == Some(n - 1) {
      FirstLine(t, n - 1);
      assert s[1..n] == t[..n - 1];
    }
  }

  lemma {:induction false} IsNumberIff(text: Bytes, least: int)
    requires least >= -0x8000_0000_0000_0000
    ensures IsNumber(text, least) <==> ParseLL(text).Some? && ParseLL(text).value >= least
  {
    hide ParseLL, SpellsNumber;
    if n: int :| least <= n <= 0x7fff_ffff_ffff_ffff && SpellsNumber(text, n) {
      NumberIff(text, n);
    }
    if ParseLL(text).Some? {
      NumberIff(text, ParseLL(text).value);
    }
  }

  /** The reader fails exactly on what is refused. */
  lemma {:induction false} FailIff(s: Bytes, depth: nat, e: ErrorKind, isDouble: DoubleTest)
    requires depth <= 8
    ensures ParseValue(s, depth, isDouble) == Fail(e) <==> Refused(s, 8 - depth, e, isDouble)
    decreases |s|, 0
  {
    hide ParseRest, RefusedLine, LineTo;
    if s != [] && KindOf(s[0]).Some? && !(IsAggregateByte(s[0]) && depth == 8) {
      var t := s[1..];
      match FindCRLF(t)
      case None =>
        forall n: nat
          ensures !LineTo(s, n)
        {
          LineToIff(s, n);
        }
      case Some(i) =>
        forall n: nat
          ensures LineTo(s, n) <==> n == i + 1
        {
          LineToIff(s, n);
        }
        assert s[1..i + 1] == t[..i] && s[i + 3..] == t[i + 2..];
        RestFailIff(s, i + 1, depth, e, isDouble);
    }
  }

  lemma {:induction false} RestFailIff(s: Bytes, n: nat, depth: nat, e: ErrorKind, isDouble: DoubleTest)
    requires LineTo(s, n) && KindOf(s[0]).Some? && depth <= 8 && (IsAggregateByte(s[0]) ==> depth < 8)
    ensures ParseRest(KindOf(s[0]).value, s[1..n], s[n + 2..], depth, isDouble) == Fail(e)
      <==> RefusedLine(s, n, 8 - depth, e, isDouble)
    decreases |s|, 0, 0
  {
    hide ParseLL, IsNumber, RefusedCount, ParseElements, SpellsNumber;
    var line, rest := s[1..n], s[n + 2..];
    if IsAggregateByte(s[0]) {
      CountFailIff(s[0], line, rest, depth, e, isDouble);
    } else {
      IsNumberIff(line, -1);
      IsNumberIff(line, -0x8000_0000_0000_0000);
      if ParseLL(line).Some? {
        NumberIff(line, ParseLL(line).value);
      }
    }
  }

  lemma {:induction false} CountFailIff(b: byte, line: Bytes, rest: Bytes, depth: nat, e: ErrorKind, isDouble: DoubleTest)
    requires IsAggregateByte(b) && depth < 8
    ensures ParseRest(KindOf(b).value, line, rest, depth, isDouble) == Fail(e) <==>
      || (e == Protocol && !IsNumber(line, -1))
      || exists m: nat :: m <= 0x7fff_ffff_ffff_ffff && SpellsNumber(line, m) && RefusedCount(if b == 37 then 2 * m else m, rest, 8 - depth - 1, e, isDouble)
    decreases |rest|, 3
  {
    hide ParseLL, IsNumber, RefusedAll, ParseElements, SpellsNumber;
    var k := KindOf(b).value;
    IsNumberIff(line, -1);
    forall m: nat
      ensures m <= 0x7fff_ffff_ffff_ffff && SpellsNumber(line, m) <==> ParseLL(line) == Some(m)
    {
      NumberIff(line, m);
    }
    if ParseLL(line).Some? && ParseLL(line).value >= 0 {
      var slots := SlotCount(k, ParseLL(line).value);
      ElementsFailIff(k, slots, [], rest, depth + 1, e, isDouble);
    }
  }

  /** What is refused behind a first element that is spelled. */
  lemma {:induction false} AfterFirst(count: nat, s: Bytes, v: Reply, n: nat, levels: nat, e: ErrorKind, isDouble: DoubleTest)
    requires count > 0 && 1 <= n <= |s| && Spells(v, s[..n], levels, isDouble) && !Refused(s, levels, e, isDouble)
    requires forall w: Reply, m: nat :: m <= |s| && Spells(w, s[..m], levels, isDouble) ==> m == n
    ensures RefusedAll(count, s, levels, e, isDouble) <==> RefusedAll(count - 1, s[n..], levels, e, isDouble)
  {
    hide Refused, Spells;
    if RefusedAll(count - 1, s[n..], levels, e, isDouble) {
      assert 1 <= n <= |s| && Spells(v, s[..n], levels, isDouble) && RefusedAll(count - 1, s[n..], levels, e, isDouble);
    }
  }

  lemma {:induction false} ElementsFailIff(k: Kind, count: nat, read: seq<Reply>, s: Bytes, depth: nat, e: ErrorKind, isDouble: DoubleTest)
    requires k.IsAggregate() && |read| <= count && depth <= 8
    ensures ParseElements(k, count, read, s, depth, isDouble) == Fail(e)
      <==> RefusedAll(count - |read|, s, 8 - depth, e, isDouble)
    decreases |s|, 1, count - |read|
  {
    hide ParseValue, Refused, Spells;
    if |read| < count {
      FailIff(s, depth, e, isDouble);
      var o := ParseValue(s, depth, isDouble);
      var levels: nat := 8 - depth;
      forall w: Reply, m: nat | m <= |s| && Spells(w, s[..m], levels, isDouble)
        ensures o == Done(w, m)
      {
        ReadIff(s, depth, w, m, isDouble);
      }
      match o
      case Done(v, n) =>
        ReadIff(s, depth, v, n, isDouble);
        ElementsFailIff(k, count, read + [v], s[n..], depth, e, isDouble);
        AfterFirst(count - |read|, s, v, n, levels, e, isDouble);
      case _ =>
    }
  }

  /** Every spelling of a null, in front of anything. */
  lemma {:induction false} NullSpellings(t: Bytes, depth: nat, isDouble: DoubleTest)
    requires depth <= 8
    ensures ParseValue([95, 13, 10] + t, depth, isDouble) == Done(Nil, 3)
    ensures ParseValue([36, 45, 49, 13, 10] + t, depth, isDouble) == Done(Nil, 5)
    ensures forall kind: byte :: kind == 42 || kind == 37 || kind == 126 ==>
      ParseValue([kind, 45, 49, 13, 10] + t, depth, isDouble) == if depth < 8 then Done(Nil, 5) else Fail(Protocol)
  {
    hide ParseValue;
    NullReads([95, 13, 10], t, depth, isDouble);
    NullReads([36, 45, 49, 13, 10], t, depth, isDouble);
    forall kind: byte | kind == 42 || kind == 37 || kind == 126
      ensures ParseValue([kind, 45, 49, 13, 10] + t, depth, isDouble) == if depth < 8 then Done(Nil, 5) else Fail(Protocol)
    {
      if depth < 8 {
        NullReads([kind, 45, 49, 13, 10], t, depth, isDouble);
      } else {
        FailIff([kind, 45, 49, 13, 10] + t, depth, Protocol, isDouble);
      }
    }
  }

  // ----- Streams -----

  /** Nothing more can be said of these bytes yet. */
  ghost predicate Undecided(s: Bytes, isDouble: DoubleTest) {
    && (forall v, k :: 0 <= k <= |s| ==> !Spells(v, s[..k], 8, isDouble))
    && forall e :: !Refused(s, 8, e, isDouble)
  }

  lemma {:induction false} UndecidedIff(s: Bytes, isDouble: DoubleTest)
    ensures Undecided(s, isDouble) <==> ParseValue(s, 0, isDouble) == More
  {
    hide ParseValue, Spells, Refused;
    forall v, k | 0 <= k <= |s|
      ensures Spells(v, s[..k], 8, isDouble) <==> ParseValue(s, 0, isDouble) == Done(v, k)
    {
      ReadIff(s, 0, v, k, isDouble);
    }
    forall e
      ensures Refused(s, 8, e, isDouble) <==> ParseValue(s, 0, isDouble) == Fail(e)
    {
      FailIff(s, 0, e, isDouble);
    }
    match ParseValue(s, 0, isDouble)
    case Done(v, k) => assert Spells(v, s[..k], 8, isDouble);
    case _ =>
  }

  /** The replies spelled one after the other, and then the refusal or what is undecided. */
  ghost predicate SpellsStream(replies: seq<Reply>, failure: Option<ErrorKind>, s: Bytes, isDouble: DoubleTest)
    decreases |replies|
  {
    if replies == [] then
      match failure
      case None => Undecided(s, isDouble)
      case Some(e) => Refused(s, 8, e, isDouble)
    else
      exists k :: 0 <= k <= |s| && Spells(replies[0], s[..k], 8, isDouble) && SpellsStream(replies[1..], failure, s[k..], isDouble)
  }

  /** A stream is read as exactly the replies it spells, up to exactly the error it runs into. */
  lemma {:induction false} StreamIff(s: Bytes, replies: seq<Reply>, failure: Option<ErrorKind>, isDouble: DoubleTest)
    ensures ParseStream(s, isDouble) == Trace(replies, failure) <==> SpellsStream(replies, failure, s, isDouble)
    decreases |s|, 1
  {
    hide ParseValue, Spells, Refused, Undecided;
    UndecidedIff(s, isDouble);
    forall e
      ensures Refused(s, 8, e, isDouble) <==> ParseValue(s, 0, isDouble) == Fail(e)
    {
      FailIff(s, 0, e, isDouble);
    }
    forall v, k | 0 <= k <= |s|
      ensures Spells(v, s[..k], 8, isDouble) <==> ParseValue(s, 0, isDouble) == Done(v, k)
    {
      ReadIff(s, 0, v, k, isDouble);
    }
    match ParseValue(s, 0, isDouble)
    case Done(v, k) => StreamStep(s, v, k, replies, failure, isDouble);
    case _ =>
  }

  lemma {:induction false} StreamStep(s: Bytes, v: Reply, k: nat, replies: seq<Reply>, failure: Option<ErrorKind>, isDouble: DoubleTest)
    requires ParseValue(s, 0, isDouble) == Done(v, k)
    ensures ParseStream(s, isDouble) == Trace(replies, failure) <==> SpellsStream(replies, failure, s, isDouble)
    decreases |s|, 0
  {
    hide ParseValue, Spells, Refused, Undecided;
    UndecidedIff(s, isDouble);
    forall e
      ensures !Refused(s, 8, e, isDouble)
    {
      FailIff(s, 0, e, isDouble);
    }
    forall w, m | 0 <= m <= |s|
      ensures Spells(w, s[..m], 8, isDouble) <==> w == v && m == k
    {
      ReadIff(s, 0, w, m, isDouble);
    }
    var later := ParseStream(s[k..], isDouble);
    if replies != [] {
      StreamIff(s[k..], replies[1..], failure, isDouble);
      if replies[0] == v {
        assert Spells(v, s[..k], 8, isDouble);
        assert replies == [v] + replies[1..];
        assert [v] + later.replies == replies <==> later.replies == replies[1..] by {
          assert ([v] + later.replies)[1..] == later.replies;
        }
      } else {
        assert ([v] + later.replies)[0] == v;
      }
    }
  }
}
