/**
 What a line means to sdssplitargs, written from the other side: words as they are written, bare or
 with a quoted end, and the arguments they stand for.
 */
module SdsWords {
  import opened ByteStrings
  import opened SdsQuote

  /** A character in double quotes: itself, behind a backslash, or as two hexadecimal digits. */
  datatype Item = Char(c: byte) | Escaped(letter: byte) | Hex(high: byte, low: byte)

  /** A word: bare, or bare characters and then a quoted part. */
  datatype Word = Bare(text: Bytes) | InDoubles(front: Bytes, items: seq<Item>) | InSingles(front: Bytes, text: Bytes)

  predicate HexByte(c: byte) {
    48 <= c <= 57 || 97 <= c <= 102 || 65 <= c <= 70
  }

  function HexOf(c: byte): (n: nat)
    requires HexByte(c)
    ensures n < 16
  {
    if c <= 57 then c - 48 else if c >= 97 then c - 97 + 10 else c - 65 + 10
  }

  /** What ends a bare word. */
  predicate Ends(c: byte) {
    c == 32 || c == 9 || c == 10 || c == 13
  }

  predicate BareText(text: Bytes) {
    && (forall i :: 0 <= i < |text| ==> !Ends(text[i]) && text[i] !in [0, 34, 39])
    && (text != [] ==> text[0] != 11 && text[0] != 12)
  }

  // ----- How words are written -----

  function WriteItem(item: Item): Bytes {
    match item
    case Char(c) => [c]
    case Escaped(l) => [92, l]
    case Hex(h, l) => [92, 120, h, l]
  }

  function WriteItems(items: seq<Item>): Bytes {
    if items == [] then [] else WriteItem(items[0]) + WriteItems(items[1..])
  }

  predicate ItemsOk(items: seq<Item>) {
    items == [] ||
    (ItemsOk(items[1..]) &&
     match items[0]
     case Char(c) => c !in [0, 34, 92]
     case Escaped(l) =>
       l != 0 && (l == 120 ==> var s := WriteItems(items[1..]); !(|s| >= 2 && HexByte(s[0]) && HexByte(s[1])))
     case Hex(h, l) => HexByte(h) && HexByte(l))
  }

  /** In single quotes only the quote itself is written with a backslash. */
  function WriteSingle(text: Bytes): Bytes {
    if text == [] then [] else (if text[0] == 39 then [92, 39] else [text[0]]) + WriteSingle(text[1..])
  }

  predicate SingleOk(text: Bytes) {
    (forall i :: 0 <= i < |text| ==> text[i] != 0) && (text != [] ==> text[|text| - 1] != 92)
  }

  function Write(w: Word): Bytes {
    match w
    case Bare(text) => text
    case InDoubles(front, items) => front + [34] + WriteItems(items) + [34]
    case InSingles(front, text) => front + [39] + WriteSingle(text) + [39]
  }

  predicate WordOk(w: Word) {
    match w
    case Bare(text) => text != [] && BareText(text)
    case InDoubles(front, items) => BareText(front) && ItemsOk(items)
    case InSingles(front, text) => BareText(front) && SingleOk(text)
  }

  // ----- What they mean -----

  function ItemMeans(item: Item): (c: byte)
    requires item.Hex? ==> HexByte(item.high) && HexByte(item.low)
  {
    match item
    case Char(c) => c
    case Escaped(l) => if l == 110 then 10 else if l == 114 then 13 else if l == 116 then 9 else if l == 98 then 8 else if l == 97 then 7 else l
    case Hex(h, l) => 16 * HexOf(h) + HexOf(l)
  }

  function ItemsMean(items: seq<Item>): Bytes
    requires ItemsOk(items)
  {
    if items == [] then [] else [ItemMeans(items[0])] + ItemsMean(items[1..])
  }

  function Means(w: Word): Bytes
    requires WordOk(w)
  {
    match w
    case Bare(text) => text
    case InDoubles(front, items) => front + ItemsMean(items)
    case InSingles(front, text) => front + text
  }

  function Meanings(ws: seq<Word>): (args: seq<Bytes>)
    requires forall i :: 0 <= i < |ws| ==> WordOk(ws[i])
  {
    if ws == [] then [] else [Means(ws[0])] + Meanings(ws[1..])
  }

  /** A line: the words with one blank between them. */
  function Line(ws: seq<Word>, blank: byte): Bytes {
    if ws == [] then [] else if |ws| == 1 then Write(ws[0]) else Write(ws[0]) + [blank] + Line(ws[1..], blank)
  }

  // ----- The splitter reads them so -----

  lemma {:induction false} HexAlike(c: byte)
    ensures IsHexDigit(c) <==> HexByte(c)
    ensures HexByte(c) ==> HexValue(c) == HexOf(c)
  {
  }

  /** One item in double quotes. */
  lemma {:induction false} ItemReads(item: Item, rest: Bytes, current: Bytes)
    requires match item
      case Char(c) => c !in [0, 34, 92]
      case Escaped(l) => l != 0 && (l == 120 ==> !(|rest| >= 2 && HexByte(rest[0]) && HexByte(rest[1])))
      case Hex(h, l) => HexByte(h) && HexByte(l)
    ensures ReadToken(WriteItem(item) + rest, InDouble, current)
      == After(|WriteItem(item)|, ReadToken(rest, InDouble, current + [ItemMeans(item)]))
  {
    var s := WriteItem(item) + rest;
    assert s[|WriteItem(item)|..] == rest;
    HexAlike(At(s, 2));
    HexAlike(At(s, 3));
    if item.Escaped? {
      assert At(s, 2) == At(rest, 0) && At(s, 3) == At(rest, 1);
    }
  }

  /** How the quoting printer writes a byte: by its own letter, as itself, or as two lower-case hexadecimal digits. */
  function ItemFor(c: byte): Item {
    if c == 92 || c == 34 then Escaped(c)
    else if c == 10 then Escaped(110)
    else if c == 13 then Escaped(114)
    else if c == 9 then Escaped(116)
    else if c == 7 then Escaped(97)
    else if c == 8 then Escaped(98)
    else if 32 <= c <= 126 then Char(c)
    else Hex(LowerHex(c / 16), LowerHex(c % 16))
  }

  function LowerHex(n: nat): (c: byte)
    requires n < 16
    ensures HexByte(c) && HexOf(c) == n
  {
    if n < 10 then 48 + n else 97 + n - 10
  }

  function ItemsFor(p: Bytes): seq<Item> {
    if p == [] then [] else [ItemFor(p[0])] + ItemsFor(p[1..])
  }

  /** The quoted form of a byte string is that word in double quotes, and it means the byte string. */
  lemma {:induction false} ReprWrites(p: Bytes)
    ensures ItemsOk(ItemsFor(p)) && ItemsMean(ItemsFor(p)) == p
    ensures Repr(p) == Write(InDoubles([], ItemsFor(p)))
    decreases |p|
  {
    hide WriteItem, ReprChar;
    ReprItems(p);
    assert [] + [34] == [34];
  }

  lemma {:induction false} ReprItems(p: Bytes)
    ensures ItemsOk(ItemsFor(p)) && ItemsMean(ItemsFor(p)) == p && ReprBody(p) == WriteItems(ItemsFor(p))
    decreases |p|
  {
    if p != [] {
      ReprItems(p[1..]);
      assert p == [p[0]] + p[1..];
      assert ReprChar(p[0]) == WriteItem(ItemFor(p[0]));
    }
  }

  /** The end of a quoted part: its quote, in front of a blank or the end. */
  predicate Stops(rest: Bytes) {
    rest == [] || rest[0] == 0 || rest[0] == 32 || 9 <= rest[0] <= 13
  }

  lemma {:induction false} ItemsRead(items: seq<Item>, rest: Bytes, current: Bytes)
    requires ItemsOk(items)
    ensures ReadToken(WriteItems(items) + [34] + rest, InDouble, current)
      == if Stops(rest) then Token(current + ItemsMean(items), |WriteItems(items)| + 1) else Unbalanced
    decreases |items|
  {
    hide ReadToken;
    if items == [] {
      assert WriteItems(items) + [34] + rest == [34] + rest && current + ItemsMean(items) == current;
      DoubleEnds(rest, current);
    } else {
      var tail := WriteItems(items[1..]) + [34] + rest;
      assert WriteItems(items) + [34] + rest == WriteItem(items[0]) + tail;
      if items[0] == Escaped(120) {
        NotHex(WriteItems(items[1..]), [34] + rest);
      }
      assert tail == WriteItems(items[1..]) + ([34] + rest);
      ItemReads(items[0], tail, current);
      ItemsRead(items[1..], rest, current + [ItemMeans(items[0])]);
      assert current + [ItemMeans(items[0])] + ItemsMean(items[1..]) == current + ItemsMean(items);
    }
  }

  lemma {:induction false} NotHex(s: Bytes, rest: Bytes)
    requires rest != [] && rest[0] == 34 && !(|s| >= 2 && HexByte(s[0]) && HexByte(s[1]))
    ensures !(|s + rest| >= 2 && HexByte((s + rest)[0]) && HexByte((s + rest)[1]))
  {
  }

  lemma {:induction false} DoubleEnds(rest: Bytes, current: Bytes)
    ensures ReadToken([34] + rest, InDouble, current) == if Stops(rest) then Token(current, 1) else Unbalanced
  {
    var s := [34] + rest;
    assert At(s, 1) == At(rest, 0);
  }

  /** A quoted part without its end. */
  lemma {:induction false} ItemsOpen(items: seq<Item>, current: Bytes)
    requires ItemsOk(items)
    ensures ReadToken(WriteItems(items), InDouble, current) == Unbalanced
    decreases |items|
  {
    if items != [] {
      hide ReadToken;
      ItemReads(items[0], WriteItems(items[1..]), current);
      ItemsOpen(items[1..], current + [ItemMeans(items[0])]);
    }
  }

  lemma {:induction false} SingleReads(text: Bytes, rest: Bytes, current: Bytes)
    requires SingleOk(text)
    ensures ReadToken(WriteSingle(text) + [39] + rest, InSingle, current)
      == if Stops(rest) then Token(current + text, |WriteSingle(text)| + 1) else Unbalanced
    decreases |text|
  {
    var s := WriteSingle(text) + [39] + rest;
    if text == [] {
      assert s == [39] + rest && At(s, 1) == At(rest, 0);
      assert current + text == current;
    } else {
      var first := if text[0] == 39 then [92, 39] else [text[0]];
      var tail := WriteSingle(text[1..]) + [39] + rest;
      assert s == first + tail && s[|first|..] == tail;
      assert text[1..] != [] ==> WriteSingle(text[1..])[0] != 39;
      SingleReads(text[1..], rest, current + [text[0]]);
      assert current + [text[0]] + text[1..] == current + text;
    }
  }

  lemma {:induction false} BareReads(front: Bytes, rest: Bytes, current: Bytes)
    requires forall i :: 0 <= i < |front| ==> !Ends(front[i]) && front[i] !in [0, 34, 39]
    ensures ReadToken(front + rest, Plain, current) == After(|front|, ReadToken(rest, Plain, current + front))
    decreases |front|
  {
    if front == [] {
      assert front + rest == rest && current + front == current;
    } else {
      assert (front + rest)[1..] == front[1..] + rest;
      BareReads(front[1..], rest, current + [front[0]]);
      assert current + [front[0]] + front[1..] == current + front;
    }
  }

  /** A word in front of a blank or the end is one token. */
  lemma {:induction false} WordReads(w: Word, rest: Bytes)
    requires WordOk(w) && (rest == [] || Ends(rest[0]))
    ensures ReadToken(Write(w) + rest, Plain, []) == Token(Means(w), |Write(w)| + if w.Bare? && rest != [] then 1 else 0)
    ensures Write(w) != [] && !IsBlank(Write(w)[0])
  {
    hide ReadToken;
    FirstByte(w);
    match w
    case Bare(text) =>
      BareReads(text, rest, []);
      PlainEnds(rest, text);
      assert [] + text == text;
    case InDoubles(front, items) => DoubleWordReads(front, items, rest);
    case InSingles(front, text) => SingleWordReads(front, text, rest);
  }

  lemma {:induction false} FirstByte(w: Word)
    requires WordOk(w)
    ensures Write(w) != [] && !IsBlank(Write(w)[0])
  {
    hide ItemsOk, SingleOk, WriteItems, WriteSingle;
    match w
    case Bare(text) =>
    case InDoubles(front, items) => assert Write(w)[0] == if front == [] then 34 else front[0];
    case InSingles(front, text) => assert Write(w)[0] == if front == [] then 39 else front[0];
  }

  lemma {:induction false} PlainEnds(rest: Bytes, current: Bytes)
    requires rest == [] || Ends(rest[0])
    ensures ReadToken(rest, Plain, current) == Token(current, if rest == [] then 0 else 1)
  {
  }

  lemma {:induction false} DoubleWordReads(front: Bytes, items: seq<Item>, rest: Bytes)
    requires BareText(front) && ItemsOk(items) && (rest == [] || Ends(rest[0]))
    ensures var w := InDoubles(front, items); ReadToken(Write(w) + rest, Plain, []) == Token(Means(w), |Write(w)|)
  {
    hide ReadToken, ItemsOk, WriteItems;
    var s := [34] + (WriteItems(items) + [34] + rest);
    assert front + [34] + WriteItems(items) + [34] + rest == front + s;
    BareReads(front, s, []);
    QuoteOpens(s, front);
    assert [] + front == front && s[1..] == WriteItems(items) + [34] + rest;
    ItemsRead(items, rest, front);
  }

  lemma {:induction false} SingleWordReads(front: Bytes, text: Bytes, rest: Bytes)
    requires BareText(front) && SingleOk(text) && (rest == [] || Ends(rest[0]))
    ensures var w := InSingles(front, text); ReadToken(Write(w) + rest, Plain, []) == Token(Means(w), |Write(w)|)
  {
    hide ReadToken, SingleOk, WriteSingle;
    var s := [39] + (WriteSingle(text) + [39] + rest);
    assert front + [39] + WriteSingle(text) + [39] + rest == front + s;
    BareReads(front, s, []);
    SingleOpens(s, front);
    assert [] + front == front && s[1..] == WriteSingle(text) + [39] + rest;
    SingleReads(text, rest, front);
  }

  lemma {:induction false} SingleOpens(s: Bytes, current: Bytes)
    requires s != [] && s[0] == 39
    ensures ReadToken(s, Plain, current) == After(1, ReadToken(s[1..], InSingle, current))
  {
  }

  /** The arguments of a line are what its words mean. */
  lemma {:induction false} LineSplits(ws: seq<Word>, blank: byte)
    requires Ends(blank) && forall i :: 0 <= i < |ws| ==> WordOk(ws[i])
    ensures SplitArgs(Line(ws, blank)) == Some(Meanings(ws))
    decreases |ws|
  {
    hide ReadToken, Write, WordOk;
    if ws != [] {
      var rest := if |ws| == 1 then [] else [blank] + Line(ws[1..], blank);
      var line, n := Line(ws, blank), |Write(ws[0])|;
      assert line == Write(ws[0]) + rest by {
        assert Write(ws[0]) + [] == Write(ws[0]);
      }
      WordReads(ws[0], rest);
      LineSplits(ws[1..], blank);
      assert line[n..] == rest && (rest != [] ==> line[n + 1..] == Line(ws[1..], blank));
      assert rest != [] ==> rest[1..] == Line(ws[1..], blank);
    }
  }

  /** Blanks in front of a line, vertical tabs and form feeds included, are skipped. */
  lemma {:induction false} BlanksSkipped(blanks: Bytes, line: Bytes)
    requires forall i :: 0 <= i < |blanks| ==> blanks[i] == 32 || 9 <= blanks[i] <= 13
    ensures SplitArgs(blanks + line) == SplitArgs(line)
    decreases |blanks|
  {
    hide ReadToken;
    if blanks == [] {
      assert blanks + line == line;
    } else {
      assert (blanks + line)[1..] == blanks[1..] + line;
      BlanksSkipped(blanks[1..], line);
    }
  }

  /** A double quote that is not closed, or is closed in front of anything but a blank, spoils the whole line. */
  lemma {:induction false} UnbalancedFails(front: Bytes, items: seq<Item>, rest: Bytes)
    requires BareText(front) && ItemsOk(items) && !Stops(rest)
    ensures SplitArgs(front + [34] + WriteItems(items)) == None
    ensures SplitArgs(front + [34] + WriteItems(items) + [34] + rest) == None
  {
    hide ReadToken;
    var s, u := [34] + WriteItems(items), [34] + (WriteItems(items) + [34] + rest);
    assert front + [34] + WriteItems(items) == front + s;
    assert front + [34] + WriteItems(items) + [34] + rest == front + u;
    BareReads(front, s, []);
    BareReads(front, u, []);
    assert [] + front == front && s[1..] == WriteItems(items) && u[1..] == WriteItems(items) + [34] + rest;
    QuoteOpens(s, front);
    QuoteOpens(u, front);
    ItemsOpen(items, front);
    ItemsRead(items, rest, front);
    assert (front + s)[0] == if front == [] then 34 else front[0];
    assert (front + u)[0] == if front == [] then 34 else front[0];
  }

  lemma {:induction false} QuoteOpens(s: Bytes, current: Bytes)
    requires s != [] && s[0] == 34
    ensures ReadToken(s, Plain, current) == After(1, ReadToken(s[1..], InDouble, current))
  {
  }
}
