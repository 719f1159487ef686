/**
 What sdscatfmt prints and sdsrange keeps, and the sizes of headers and allocations, byte by byte.
 */
module SdsMeaning {
  import opened ByteStrings
  import opened Decimal
  import opened SdsStrings

  /** A piece of a format with its value: a byte, a percent sign and a byte, a text, or a number, each by a small or capital letter. */
  datatype Piece =
    | Plain(c: byte)
    | Behind(c: byte)
    | Text(capital: bool, text: Bytes)
    | SignedNumber(capital: bool, n: int)
    | UnsignedNumber(capital: bool, n: int)

  predicate PieceOk(p: Piece) {
    match p
    case Plain(c) => c != 37
    case Behind(c) => c !in [115, 83, 105, 73, 117, 85]
    case Text(capital, text) => !capital ==> 0 !in text
    case SignedNumber(capital, n) =>
      if capital then -0x8000_0000_0000_0000 <= n <= 0x7fff_ffff_ffff_ffff else -0x8000_0000 <= n <= 0x7fff_ffff
    case UnsignedNumber(capital, n) => 0 <= n <= if capital then 0xffff_ffff_ffff_ffff else 0xffff_ffff
  }

  function WritePiece(p: Piece): Bytes {
    match p
    case Plain(c) => [c]
    case Behind(c) => [37, c]
    case Text(capital, _) => [37, if capital then 83 else 115]
    case SignedNumber(capital, _) => [37, if capital then 73 else 105]
    case UnsignedNumber(capital, _) => [37, if capital then 85 else 117]
  }

  function Write(ps: seq<Piece>): Bytes {
    if ps == [] then [] else WritePiece(ps[0]) + Write(ps[1..])
  }

  function Values(ps: seq<Piece>): seq<FmtArg> {
    if ps == [] then []
    else
      (match ps[0]
       case Text(_, text) => [Str(text)]
       case SignedNumber(_, n) => [Signed(n)]
       case UnsignedNumber(_, n) => [Unsigned(n)]
       case _ => []) + Values(ps[1..])
  }

  /** Texts are put in as they are, numbers in decimal, and what stands behind a percent sign as itself. */
  function Meaning(ps: seq<Piece>): Bytes {
    if ps == [] then []
    else
      (match ps[0]
       case Plain(c) => [c]
       case Behind(c) => [c]
       case Text(_, text) => text
       case SignedNumber(_, n) => IntText(n)
       case UnsignedNumber(_, n) => IntText(n)) + Meaning(ps[1..])
  }

  lemma {:induction false} PieceFirst(ps: seq<Piece>)
    requires ps != [] && PieceOk(ps[0]) && FmtOk(Write(ps[1..]), Values(ps[1..]))
    ensures FmtOk(Write(ps), Values(ps))
    ensures var later := Formatted(Write(ps[1..]), Values(ps[1..]));
      Formatted(Write(ps), Values(ps)) == match ps[0]
        case Plain(c) => [c] + later
        case Behind(c) => [c] + later
        case Text(_, text) => text + later
        case SignedNumber(_, n) => IntText(n) + later
        case UnsignedNumber(_, n) => IntText(n) + later
  {
    hide IntText;
    var p, s, rest, args := ps[0], Write(ps), Write(ps[1..]), Values(ps);
    assert s == WritePiece(p) + rest && s[|WritePiece(p)|..] == rest;
    assert p.Plain? || p.Behind? ==> args == Values(ps[1..]);
    assert !(p.Plain? || p.Behind?) ==> args[1..] == Values(ps[1..]);
  }

  /** A format means what its pieces mean, one after the other. */
  lemma {:induction false} FormatMeans(ps: seq<Piece>)
    requires forall i :: 0 <= i < |ps| ==> PieceOk(ps[i])
    ensures FmtOk(Write(ps), Values(ps)) && Formatted(Write(ps), Values(ps)) == Meaning(ps)
    decreases |ps|
  {
    if ps != [] {
      hide IntText, Write, Values, FmtOk, Formatted, PieceOk;
      FormatMeans(ps[1..]);
      PieceFirst(ps);
    }
  }

  /** The inclusive slice, index by index: a negative index counts from the end, and what lies outside is cut off. */
  lemma {:induction false} RangeAt(s: Bytes, start: int, end: int)
    ensures var n, r := |s|, Range(s, start, end);
      var a := if start >= 0 then start else if n + start >= 0 then n + start else 0;
      var b := if end >= n then n - 1 else if end >= 0 then end else if n + end >= 0 then n + end else 0;
      && |r| == (if a > b || a >= n then 0 else b - a + 1)
      && forall i :: 0 <= i < |r| ==> r[i] == s[a + i]
  {
  }

  /** The header type by the size it is asked for. */
  lemma {:induction false} ReqTypeIs(size: nat)
    ensures ReqType(size) == 0 <==> size < 32
    ensures ReqType(size) == 1 <==> 32 <= size < 255
    ensures ReqType(size) == 2 <==> 255 <= size < 65535
    ensures ReqType(size) == 3 <==> 65535 <= size < 4294967295
    ensures ReqType(size) == 4 <==> size >= 4294967295
  {
  }

  /** Below one megabyte the allocation doubles, from there on it grows by one megabyte at a time. */
  lemma {:induction false} GrownIs(needed: nat)
    ensures Grown(needed) - needed == if needed < 1048576 then needed else 1048576
  {
  }
}
