/**
 What a command template means, from the other side: words made of plain bytes, percent signs and
 values, as they are written in a format, and the arguments they give.
 */
module TemplateMeaning {
  import opened ByteStrings
  import opened Templates

  datatype Part = Plain(c: byte) | Percent | Value(arg: VaArg)

  /** A word, with the number of spaces in front of it. */
  datatype Word = Word(gap: nat, parts: seq<Part>)

  function WritePart(p: Part): Bytes {
    match p
    case Plain(c) => [c]
    case Percent => [37, 37]
    case Value(CString(_)) => [37, 115]
    case Value(Binary(_)) => [37, 98]
  }

  function WriteParts(parts: seq<Part>): Bytes {
    if parts == [] then [] else WritePart(parts[0]) + WriteParts(parts[1..])
  }

  function Spaces(n: nat): Bytes {
    if n == 0 then [] else [32] + Spaces(n - 1)
  }

  /** The format: the words with their gaps, and spaces behind the last one. */
  function Format(ws: seq<Word>, behind: nat): Bytes {
    if ws == [] then Spaces(behind) else Spaces(ws[0].gap) + WriteParts(ws[0].parts) + Format(ws[1..], behind)
  }

  /** The variable arguments. */
  function Values(parts: seq<Part>): seq<VaArg> {
    if parts == [] then [] else (if parts[0].Value? then [parts[0].arg] else []) + Values(parts[1..])
  }

  function AllValues(ws: seq<Word>): seq<VaArg> {
    if ws == [] then [] else Values(ws[0].parts) + AllValues(ws[1..])
  }

  predicate PartsOk(parts: seq<Part>) {
    forall i :: 0 <= i < |parts| && parts[i].Plain? ==> parts[i].c !in [0, 32, 37]
  }

  /** No empty words, and a gap between any two. */
  predicate WordsOk(ws: seq<Word>) {
    && (forall i :: 0 <= i < |ws| ==> ws[i].parts != [] && PartsOk(ws[i].parts))
    && forall i :: 0 < i < |ws| ==> ws[i].gap > 0
  }

  /** The bytes of an argument: spaces and percent signs in values mean nothing, and empty values leave nothing. */
  function Meaning(parts: seq<Part>): Bytes {
    if parts == [] then []
    else
      (match parts[0]
       case Plain(c) => [c]
       case Percent => [37]
       case Value(arg) => arg.text) + Meaning(parts[1..])
  }

  function Meanings(ws: seq<Word>): seq<Bytes> {
    if ws == [] then [] else [Meaning(ws[0].parts)] + Meanings(ws[1..])
  }

  lemma {:induction false} PartsAreWord(parts: seq<Part>)
    requires PartsOk(parts)
    ensures forall i :: 0 <= i < |WriteParts(parts)| ==> WriteParts(parts)[i] != 32
    ensures parts != [] ==> WriteParts(parts) != []
    decreases |parts|
  {
    if parts != [] {
      PartsAreWord(parts[1..]);
    }
  }

  /** The first piece of a written word. */
  lemma {:induction false} FirstPiece(p: Part, rest: Bytes)
    requires p.Plain? ==> p.c !in [0, 32, 37]
    ensures Pieces(WritePart(p) + rest) ==
      [if p.Value? then Hole else Literal(if p.Percent? then 37 else p.c)] + Pieces(rest)
  {
    var s := WritePart(p) + rest;
    assert s[|WritePart(p)|..] == rest;
  }

  lemma {:induction false} FillFirst(p: Part, pieces: seq<Piece>, args: seq<VaArg>)
    requires p.Value? ==> args != [] && args[0] == p.arg
    ensures var all := [if p.Value? then Hole else Literal(if p.Percent? then 37 else p.c)] + pieces;
      && FillWord(all, args) == Meaning([p]) + FillWord(pieces, if p.Value? then args[1..] else args)
      && Holes(all) == Holes(pieces) + if p.Value? then 1 else 0
  {
    var all := [if p.Value? then Hole else Literal(if p.Percent? then 37 else p.c)] + pieces;
    assert all[1..] == pieces && [p][1..] == [];
    assert Meaning([]) == [];
    if p.Value? {
      assert p.arg.text + [] == p.arg.text;
    }
  }

  lemma {:induction false} MeaningFirst(parts: seq<Part>)
    requires parts != []
    ensures Meaning(parts) == Meaning([parts[0]]) + Meaning(parts[1..])
  {
    assert [parts[0]][1..] == [] && Meaning([]) == [];
    if parts[0].Value? {
      assert parts[0].arg.text + [] == parts[0].arg.text;
    }
  }

  /** The pieces of a written word are filled in with its values. */
  lemma {:induction false} FillsWord(parts: seq<Part>, more: seq<VaArg>)
    requires PartsOk(parts)
    ensures var pieces := Pieces(WriteParts(parts));
      && FillWord(pieces, Values(parts) + more) == Meaning(parts) && Holes(pieces) == |Values(parts)|
    decreases |parts|
  {
    if parts == [] {
      assert Pieces([]) == [];
    } else {
      hide Pieces, FillWord, Holes, WritePart, Meaning;
      var p, rest, args := parts[0], WriteParts(parts[1..]), Values(parts) + more;
      FillsWord(parts[1..], more);
      FirstPiece(p, rest);
      MeaningFirst(parts);
      ValuesFirst(parts, more);
      FillFirst(p, Pieces(rest), args);
    }
  }

  lemma {:induction false} ValuesFirst(parts: seq<Part>, more: seq<VaArg>)
    requires parts != []
    ensures var args := Values(parts) + more;
      if parts[0].Value? then args != [] && args[0] == parts[0].arg && args[1..] == Values(parts[1..]) + more
      else args == Values(parts[1..]) + more
    ensures |Values(parts)| == |Values(parts[1..])| + if parts[0].Value? then 1 else 0
  {
    var later := Values(parts[1..]);
    if parts[0].Value? {
      assert Values(parts) == [parts[0].arg] + later;
      ConsAppend(parts[0].arg, later, more);
    } else {
      assert Values(parts) == later;
    }
  }

  lemma {:induction false} ConsAppend<T>(x: T, a: seq<T>, b: seq<T>)
    ensures |[x] + a| == |a| + 1 && ([x] + a + b) != [] && ([x] + a + b)[0] == x && ([x] + a + b)[1..] == a + b
  {
  }

  lemma {:induction false} FirstWord(word: Bytes, rest: Bytes)
    requires word != [] && (forall i :: 0 <= i < |word| ==> word[i] != 32) && (rest == [] || rest[0] == 32)
    ensures Words(word + rest) == [word] + Words(rest)
  {
    var s := word + rest;
    var n := WordLength(s);
    assert forall i :: 0 <= i < |word| ==> s[i] == word[i];
    assert |word| < |s| ==> s[|word|] == 32;
    assert n == |word|;
    assert s[..n] == word && s[n..] == rest;
  }

  lemma {:induction false} SpacesSkipped(n: nat, rest: Bytes)
    ensures Words(Spaces(n) + rest) == Words(rest)
  {
    if n == 0 {
      assert Spaces(n) + rest == rest;
    } else {
      assert (Spaces(n) + rest)[1..] == Spaces(n - 1) + rest;
      SpacesSkipped(n - 1, rest);
    }
  }

  function Written(ws: seq<Word>): (words: seq<Bytes>)
    ensures |words| == |ws|
  {
    if ws == [] then [] else [WriteParts(ws[0].parts)] + Written(ws[1..])
  }

  lemma {:induction false} FormatWords(ws: seq<Word>, behind: nat)
    requires WordsOk(ws)
    ensures Words(Format(ws, behind)) == Written(ws)
    decreases |ws|
  {
    hide Words;
    if ws == [] {
      SpacesSkipped(behind, []);
      assert Spaces(behind) + [] == Spaces(behind);
      NoWords();
    } else {
      var word, rest := WriteParts(ws[0].parts), Format(ws[1..], behind);
      assert Spaces(ws[0].gap) + word + rest == Spaces(ws[0].gap) + (word + rest);
      SpacesSkipped(ws[0].gap, word + rest);
      PartsAreWord(ws[0].parts);
      assert rest != [] ==> rest[0] == 32 by {
        if |ws| > 1 {
          assert ws[1..][0] == ws[1] && ws[1].gap > 0;
        }
      }
      FirstWord(word, rest);
      FormatWords(ws[1..], behind);
    }
  }

  lemma {:induction false} NoWords()
    ensures Words([]) == []
  {
  }

  lemma {:induction false} FillsWords(ws: seq<Word>)
    requires WordsOk(ws)
    ensures FillWords(Written(ws), AllValues(ws)) == Meanings(ws)
    decreases |ws|
  {
    hide Pieces, FillWord, Holes, WriteParts, Meaning;
    if ws != [] {
      var parts, more := ws[0].parts, AllValues(ws[1..]);
      FillsWord(parts, more);
      assert Drop(AllValues(ws), |Values(parts)|) == more;
      FillsWords(ws[1..]);
    }
  }

  /** A format means the arguments that its words and values make, whatever bytes the values hold. */
  lemma {:induction false} FormatMeans(ws: seq<Word>, behind: nat)
    requires WordsOk(ws)
    ensures Expand(Format(ws, behind), AllValues(ws)) == Meanings(ws)
  {
    FormatWords(ws, behind);
    FillsWords(ws);
  }

  /** And it is a format that the printer takes. */
  lemma {:induction false} FormatTaken(ws: seq<Word>, behind: nat)
    requires WordsOk(ws)
    ensures FormatOk(Format(ws, behind), AllValues(ws))
    decreases |ws|
  {
    if ws == [] {
      SpacesTaken(behind, [], []);
      assert Spaces(behind) + [] == Spaces(behind);
    } else {
      var rest := Format(ws[1..], behind);
      FormatTaken(ws[1..], behind);
      PartsTaken(ws[0].parts, rest, AllValues(ws[1..]));
      SpacesTaken(ws[0].gap, WriteParts(ws[0].parts) + rest, AllValues(ws));
      assert Spaces(ws[0].gap) + WriteParts(ws[0].parts) + rest == Spaces(ws[0].gap) + (WriteParts(ws[0].parts) + rest);
    }
  }

  lemma {:induction false} SpacesTaken(n: nat, rest: Bytes, args: seq<VaArg>)
    requires FormatOk(rest, args)
    ensures FormatOk(Spaces(n) + rest, args)
  {
    if n == 0 {
      assert Spaces(n) + rest == rest;
    } else {
      assert (Spaces(n) + rest)[1..] == Spaces(n - 1) + rest;
      SpacesTaken(n - 1, rest, args);
    }
  }

  lemma {:induction false} PartsTaken(parts: seq<Part>, rest: Bytes, more: seq<VaArg>)
    requires PartsOk(parts) && FormatOk(rest, more)
    ensures FormatOk(WriteParts(parts) + rest, Values(parts) + more)
    decreases |parts|
  {
    if parts == [] {
      assert WriteParts(parts) + rest == rest && Values(parts) + more == more;
    } else {
      hide FormatOk, WritePart, Values;
      var tail := WriteParts(parts[1..]) + rest;
      PartsTaken(parts[1..], rest, more);
      assert WriteParts(parts) + rest == WritePart(parts[0]) + tail;
      ValuesFirst(parts, more);
      PartTaken(parts[0], tail, Values(parts) + more);
    }
  }

  lemma {:induction false} PartTaken(p: Part, tail: Bytes, args: seq<VaArg>)
    requires p.Plain? ==> p.c !in [0, 32, 37]
    requires p.Value? ==> args != [] && args[0] == p.arg
    requires FormatOk(tail, if p.Value? then args[1..] else args)
    ensures FormatOk(WritePart(p) + tail, args)
  {
    var s := WritePart(p) + tail;
    assert s[|WritePart(p)|..] == tail;
  }

  /** A percent sign at the very end stands for itself. */
  lemma {:induction false} LonePercent(args: seq<VaArg>)
    ensures FormatOk([37], args) && Expand([37], args) == [[37]]
  {
    FirstWord([37], []);
    NoWords();
    assert [37] + [] == [37] && [37][1..] == [] && [[37]] + [] == [[37]] && [[37]][1..] == [];
    assert FillWord([], args) == [] && [37] + FillWord([], args) == [37];
    assert Pieces([37]) == [Literal(37)] && [Literal(37)][1..] == [];
  }
}
