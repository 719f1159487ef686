/**
 redisvFormatCommand on formats made of literals, spaces, %s, %b and %%: the format is split at its
 own spaces, and only then are the values filled in.
 */
module Templates {
  import opened ByteStrings
  import opened Decimal
  import opened RespEncode
  import opened Commands

  const LETTER_S: byte := 115
  const LETTER_B: byte := 98

  /** An argument of the variable list: a C string for %s, a pointer with a size for %b. */
  datatype VaArg = CString(text: Bytes) | Binary(text: Bytes)

  /** A '%' that does not end the format is followed by s, b or %, and the arguments are of those kinds. */
  predicate FormatOk(fmt: Bytes, args: seq<VaArg>) {
    if fmt == [] then true
    else if fmt[0] == PERCENT && |fmt| > 1 then
      if fmt[1] == PERCENT then FormatOk(fmt[2..], args)
      else
        && (fmt[1] == LETTER_S || fmt[1] == LETTER_B)
        && args != [] && (fmt[1] == LETTER_S ==> args[0].CString?) && (fmt[1] == LETTER_B ==> args[0].Binary?)
        && FormatOk(fmt[2..], args[1..])
    else fmt[0] != NUL && FormatOk(fmt[1..], args)
  }

  /** The length of the text in front of the first space. */
  function WordLength(s: Bytes): (n: nat)
    ensures n <= |s|
    ensures n < |s| ==> s[n] == SPACE
    ensures forall i :: 0 <= i < n ==> s[i] != SPACE
  {
    if s == [] || s[0] == SPACE then 0 else 1 + WordLength(s[1..])
  }

  /** The non-empty words between spaces. */
  function Words(s: Bytes): (words: seq<Bytes>)
    ensures forall i :: 0 <= i < |words| ==> words[i] != [] && SPACE !in words[i]
    decreases |s|
  {
    if s == [] then []
    else if s[0] == SPACE then Words(s[1..])
    else
      var n := WordLength(s);
      [s[..n]] + Words(s[n..])
  }

  /** A word is a list of literal bytes and places for values. */
  datatype Piece = Literal(c: byte) | Hole

  function Pieces(word: Bytes): seq<Piece> {
    if word == [] then []
    else if word[0] == PERCENT && |word| > 1 then
      [if word[1] == PERCENT then Literal(PERCENT) else Hole] + Pieces(word[2..])
    else [Literal(word[0])] + Pieces(word[1..])
  }

  function Holes(pieces: seq<Piece>): nat {
    if pieces == [] then 0 else (if pieces[0].Hole? then 1 else 0) + Holes(pieces[1..])
  }

  /** One word with its values in place; missing values count as empty. */
  function FillWord(pieces: seq<Piece>, args: seq<VaArg>): Bytes {
    if pieces == [] then []
    else if pieces[0].Literal? then [pieces[0].c] + FillWord(pieces[1..], args)
    else if args == [] then FillWord(pieces[1..], args)
    else args[0].text + FillWord(pieces[1..], args[1..])
  }

  function Drop(args: seq<VaArg>, n: nat): seq<VaArg> {
    if n <= |args| then args[n..] else []
  }

  /** Every word becomes one argument. */
  function FillWords(words: seq<Bytes>, args: seq<VaArg>): (argv: seq<Bytes>)
    ensures |argv| == |words|
  {
    if words == [] then []
    else
      var pieces := Pieces(words[0]);
      [FillWord(pieces, args)] + FillWords(words[1..], Drop(args, Holes(pieces)))
  }

  /** The argument list that a format stands for. */
  function Expand(fmt: Bytes, args: seq<VaArg>): (argv: seq<Bytes>)
    ensures |argv| == |Words(fmt)|
  {
    FillWords(Words(fmt), args)
  }

  /** The arguments still to come when `cur` is the part of the current word already written. */
  function Tail(fmt: Bytes, cur: Bytes, touched: bool, args: seq<VaArg>): seq<Bytes> {
    if !touched then Expand(fmt, args)
    else
      var n := WordLength(fmt);
      var pieces := Pieces(fmt[..n]);
      [cur + FillWord(pieces, args)] + Expand(fmt[n..], Drop(args, Holes(pieces)))
  }

  /** Entering a word. */
  lemma {:induction false} TailTouch(fmt: Bytes, args: seq<VaArg>)
    requires fmt != [] && fmt[0] != SPACE
    ensures Tail(fmt, [], false, args) == Tail(fmt, [], true, args)
  {
    var n := WordLength(fmt);
    var pieces := Pieces(fmt[..n]);
    assert Words(fmt) == [fmt[..n]] + Words(fmt[n..]);
    assert [] + FillWord(pieces, args) == FillWord(pieces, args);
  }

  lemma {:induction false} TailLiteral(fmt: Bytes, cur: Bytes, args: seq<VaArg>)
    requires fmt != [] && fmt[0] != SPACE && (fmt[0] != PERCENT || |fmt| == 1)
    ensures Tail(fmt, cur, true, args) == Tail(fmt[1..], cur + [fmt[0]], true, args)
  {
    var n := WordLength(fmt);
    assert n == 1 + WordLength(fmt[1..]);
    assert fmt[..n][1..] == fmt[1..][..n - 1] && fmt[1..][n - 1..] == fmt[n..];
    var rest := Pieces(fmt[1..][..n - 1]);
    assert Pieces(fmt[..n]) == [Literal(fmt[0])] + rest;
    PiecesCons(Literal(fmt[0]), rest, args);
    assert cur + ([fmt[0]] + FillWord(rest, args)) == cur + [fmt[0]] + FillWord(rest, args);
  }

  lemma {:induction false} TailConversion(fmt: Bytes, cur: Bytes, args: seq<VaArg>)
    requires |fmt| > 1 && fmt[0] == PERCENT && fmt[1] != SPACE && (fmt[1] != PERCENT ==> args != [])
    ensures fmt[1] == PERCENT ==> Tail(fmt, cur, true, args) == Tail(fmt[2..], cur + [PERCENT], true, args)
    ensures fmt[1] != PERCENT ==> Tail(fmt, cur, true, args) == Tail(fmt[2..], cur + args[0].text, true, args[1..])
  {
    var n := WordLength(fmt);
    assert n == 1 + WordLength(fmt[1..]) && fmt[1..][1..] == fmt[2..];
    assert n == 2 + WordLength(fmt[2..]);
    assert fmt[..n][2..] == fmt[2..][..n - 2] && fmt[2..][n - 2..] == fmt[n..];
    var rest := Pieces(fmt[2..][..n - 2]);
    var first := if fmt[1] == PERCENT then Literal(PERCENT) else Hole;
    assert Pieces(fmt[..n]) == [first] + rest;
    PiecesCons(first, rest, args);
    if fmt[1] == PERCENT {
      assert cur + ([PERCENT] + FillWord(rest, args)) == cur + [PERCENT] + FillWord(rest, args);
    } else {
      assert cur + (args[0].text + FillWord(rest, args[1..])) == cur + args[0].text + FillWord(rest, args[1..]);
    }
  }

  lemma {:induction false} PiecesCons(first: Piece, rest: seq<Piece>, args: seq<VaArg>)
    requires first.Hole? ==> args != []
    ensures first.Literal? ==> FillWord([first] + rest, args) == [first.c] + FillWord(rest, args)
    ensures first.Hole? ==> FillWord([first] + rest, args) == args[0].text + FillWord(rest, args[1..])
    ensures first.Literal? ==> Drop(args, Holes([first] + rest)) == Drop(args, Holes(rest))
    ensures first.Hole? ==> Drop(args, Holes([first] + rest)) == Drop(args[1..], Holes(rest))
  {
    assert ([first] + rest)[1..] == rest;
  }

  lemma {:induction false} TailSpace(fmt: Bytes, cur: Bytes, args: seq<VaArg>)
    requires fmt == [] || fmt[0] == SPACE
    ensures Tail(fmt, cur, true, args) == [cur] + Tail(fmt, [], false, args)
    ensures fmt != [] ==> Tail(fmt, [], false, args) == Tail(fmt[1..], [], false, args)
    ensures fmt == [] ==> Tail(fmt, [], false, args) == []
  {
    assert fmt[..0] == [] && fmt[0..] == fmt;
    assert cur + [] == cur;
    assert Drop(args, 0) == args;
  }

  /** The state of the building loop: `argv` and the rest of the format make up all arguments. */
  ghost predicate Building(fmt: Bytes, ap: seq<VaArg>, c: nat, k: nat, cur: Bytes, touched: bool, argv: seq<Bytes>)
  {
    && c <= |fmt| && k <= |ap| && FormatOk(fmt[c..], ap[k..]) && (!touched ==> cur == [])
    && Expand(fmt, ap) == argv + Tail(fmt[c..], cur, touched, ap[k..])
  }

  lemma {:induction false} BuildStart(fmt: Bytes, ap: seq<VaArg>)
    requires FormatOk(fmt, ap)
    ensures Building(fmt, ap, 0, 0, [], false, [])
  {
    assert fmt[0..] == fmt && ap[0..] == ap;
  }

  lemma {:induction false} BuildSpace(fmt: Bytes, ap: seq<VaArg>, c: nat, k: nat, cur: Bytes, touched: bool, argv: seq<Bytes>)
    requires Building(fmt, ap, c, k, cur, touched, argv) && c < |fmt| && fmt[c] == SPACE
    ensures var argv' := if touched then argv + [cur] else argv;
      Building(fmt, ap, c + 1, k, [], false, argv') && argv' <= Expand(fmt, ap)
  {
    hide Tail, Expand;
    var f, a := fmt[c..], ap[k..];
    assert f[0] == fmt[c] && f[1..] == fmt[c + 1..];
    TailSpace(f, cur, a);
    if touched {
      assert argv + ([cur] + Tail(f, [], false, a)) == argv + [cur] + Tail(f, [], false, a);
    }
  }

  lemma {:induction false} BuildTouch(fmt: Bytes, ap: seq<VaArg>, c: nat, k: nat, cur: Bytes, touched: bool, argv: seq<Bytes>)
    requires Building(fmt, ap, c, k, cur, touched, argv) && c < |fmt| && fmt[c] != SPACE
    ensures Building(fmt, ap, c, k, cur, true, argv)
  {
    if !touched {
      TailTouch(fmt[c..], ap[k..]);
    }
  }

  lemma {:induction false} BuildLiteral(fmt: Bytes, ap: seq<VaArg>, c: nat, k: nat, cur: Bytes, touched: bool, argv: seq<Bytes>)
    requires Building(fmt, ap, c, k, cur, touched, argv) && c < |fmt|
    requires fmt[c] != SPACE && (fmt[c] != PERCENT || c + 1 == |fmt|)
    ensures Building(fmt, ap, c + 1, k, cur + [fmt[c]], true, argv)
  {
    BuildTouch(fmt, ap, c, k, cur, touched, argv);
    var f := fmt[c..];
    assert f[0] == fmt[c] && f[1..] == fmt[c + 1..];
    TailLiteral(f, cur, ap[k..]);
  }

  lemma {:induction false} BuildConversion(fmt: Bytes, ap: seq<VaArg>, c: nat, k: nat, cur: Bytes, touched: bool, argv: seq<Bytes>)
    requires Building(fmt, ap, c, k, cur, touched, argv) && c + 1 < |fmt| && fmt[c] == PERCENT
    ensures fmt[c + 1] == PERCENT ==> Building(fmt, ap, c + 2, k, cur + [PERCENT], true, argv)
    ensures fmt[c + 1] != PERCENT ==> k < |ap| && Building(fmt, ap, c + 2, k + 1, cur + ap[k].text, true, argv)
  {
    BuildTouch(fmt, ap, c, k, cur, touched, argv);
    var f, a := fmt[c..], ap[k..];
    assert f[0] == fmt[c] && f[1] == fmt[c + 1] && f[2..] == fmt[c + 2..];
    TailConversion(f, cur, a);
    if f[1] != PERCENT {
      assert a[0] == ap[k] && a[1..] == ap[k + 1..];
    }
  }

  lemma {:induction false} BuildEnd(fmt: Bytes, ap: seq<VaArg>, k: nat, cur: Bytes, touched: bool, argv: seq<Bytes>)
    requires Building(fmt, ap, |fmt|, k, cur, touched, argv)
    ensures Expand(fmt, ap) == if touched then argv + [cur] else argv
  {
    TailSpace(fmt[|fmt|..], cur, ap[k..]);
    assert [cur] + [] == [cur] && argv + [] == argv;
  }

  /** The building loop of redisvFormatCommand: the arguments and their total encoded length. */
  method Collect(fmt: Bytes, ap: seq<VaArg>) returns (curargv: seq<Bytes>, totlen: nat)
    requires FormatOk(fmt, ap) && |Arguments(Expand(fmt, ap))| <= INT_MAX
    ensures curargv == Expand(fmt, ap) && totlen == |Arguments(curargv)|
  {
    hide Arguments, Expand, Building, FormatOk;
    var c, k := 0, 0;
    var curarg: Bytes, touched := [], false;
    curargv, totlen := [], 0;
    NoArguments();
    BuildStart(fmt, ap);
    while c < |fmt|
      invariant 0 <= c <= |fmt| && 0 <= k && Building(fmt, ap, c, k, curarg, touched, curargv)
      invariant totlen == |Arguments(curargv)|
    {
      if fmt[c] != PERCENT || c + 1 == |fmt| {
        if fmt[c] == SPACE {
          BuildSpace(fmt, ap, c, k, curarg, touched, curargv);
          if touched {
            totlen := AddArgument(curargv, curarg, totlen, Expand(fmt, ap));
            curargv := curargv + [curarg];
            curarg := [];
            touched := false;
          } else {
            assert curarg == [] by { IdleIsEmpty(fmt, ap, c, k, curarg, curargv); }
          }
        } else {
          BuildLiteral(fmt, ap, c, k, curarg, touched, curargv);
          curarg := curarg + [fmt[c]];
          touched := true;
        }
      } else {
        BuildConversion(fmt, ap, c, k, curarg, touched, curargv);
        if fmt[c + 1] == PERCENT {
          curarg := curarg + [PERCENT];
        } else {
          var arg := ap[k].text;
          if |arg| > 0 {
            curarg := curarg + arg;
          } else {
            assert curarg + arg == curarg;
          }
          k := k + 1;
        }
        touched := true;
        c := c + 1;
      }
      c := c + 1;
    }
    BuildEnd(fmt, ap, k, curarg, touched, curargv);
    if touched {
      totlen := AddArgument(curargv, curarg, totlen, Expand(fmt, ap));
      curargv := curargv + [curarg];
    }
  }

  lemma {:induction false} IdleIsEmpty(fmt: Bytes, ap: seq<VaArg>, c: nat, k: nat, cur: Bytes, argv: seq<Bytes>)
    requires Building(fmt, ap, c, k, cur, false, argv)
    ensures cur == []
  {
  }

  lemma {:induction false} NoArguments()
    ensures Arguments([]) == []
  {
  }

  /** Adding bulklen of a finished argument to the total. */
  method AddArgument(argv: seq<Bytes>, arg: Bytes, totlen: nat, ghost all: seq<Bytes>) returns (sum: nat)
    requires totlen == |Arguments(argv)| && argv + [arg] <= all && |Arguments(all)| <= INT_MAX
    ensures sum == |Arguments(argv + [arg])|
  {
    var a := argv + [arg];
    ArgumentsAt(a, |argv|);
    assert a[..|argv|] == argv && a[..|argv| + 1] == a;
    ArgumentLengths(all);
    assert all[|argv|] == arg;
    var n := BulkLen(|arg|);
    sum := totlen + n;
  }

  /** redisvFormatCommand. */
  method FormatTemplate(fmt: Bytes, ap: seq<VaArg>) returns (cmd: array<byte>, totlen: nat)
    requires FormatOk(fmt, ap) && |Command(Expand(fmt, ap))| <= INT_MAX
    ensures fresh(cmd) && totlen == |Command(Expand(fmt, ap))| && cmd.Length == totlen + 1
    ensures cmd[..totlen] == Command(Expand(fmt, ap)) && cmd[totlen] == NUL
  {
    CommandParts(Expand(fmt, ap));
    ArgcFits(Expand(fmt, ap));
    hide Command, Arguments, Expand;
    var curargv, arguments := Collect(fmt, ap);
    var digits := CountDigits(|curargv|);
    totlen := arguments + 1 + digits + 2;
    cmd := new byte[totlen + 1];
    FillCommand(cmd, curargv, totlen);
  }

  /** A format of n conversions %b between single spaces. */
  function BinaryFormat(n: nat): Bytes {
    if n == 0 then [] else if n == 1 then [PERCENT, LETTER_B] else [PERCENT, LETTER_B, SPACE] + BinaryFormat(n - 1)
  }

  function Binaries(argv: seq<Bytes>): seq<VaArg> {
    if argv == [] then [] else [Binary(argv[0])] + Binaries(argv[1..])
  }

  /**
   Whatever the values contain, spaces and percent signs included, and even when they are empty,
   the template printer and the argv printers agree.
   */
  lemma {:induction false} TemplateIsArgv(argv: seq<Bytes>)
    ensures FormatOk(BinaryFormat(|argv|), Binaries(argv))
    ensures Expand(BinaryFormat(|argv|), Binaries(argv)) == argv
  {
    hide FormatOk, Expand, BinaryFormat;
    BinaryFormatEmpty();
    if argv != [] {
      TemplateIsArgv(argv[1..]);
      var fmt, args := BinaryFormat(|argv|), Binaries(argv);
      var rest := BinaryFormatSplit(|argv|);
      assert args[1..] == Binaries(argv[1..]) && args[0].text == argv[0];
      FirstOk(rest, args);
      FirstConversion(rest, args);
      assert Expand(fmt, args) == [argv[0]] + argv[1..];
    }
  }

  lemma {:induction false} BinaryFormatEmpty()
    ensures BinaryFormat(0) == [] && FormatOk([], []) && Expand([], []) == []
  {
  }

  /** The first conversion of the format, and what follows it. */
  lemma {:induction false} BinaryFormatSplit(n: nat) returns (rest: Bytes)
    requires n > 0
    ensures BinaryFormat(n) == [PERCENT, LETTER_B] + rest && (rest == [] || rest[0] == SPACE)
    ensures BinaryFormat(n - 1) == if rest == [] then [] else rest[1..]
  {
    rest := if n == 1 then [] else [SPACE] + BinaryFormat(n - 1);
  }

  lemma {:induction false} FirstOk(rest: Bytes, args: seq<VaArg>)
    requires args != [] && args[0].Binary? && (rest == [] || rest[0] == SPACE)
    requires FormatOk(if rest == [] then [] else rest[1..], args[1..])
    ensures FormatOk([PERCENT, LETTER_B] + rest, args)
  {
    var fmt := [PERCENT, LETTER_B] + rest;
    assert fmt[2..] == rest;
  }

  lemma {:induction false} FirstConversion(rest: Bytes, args: seq<VaArg>)
    requires args != [] && (rest == [] || rest[0] == SPACE)
    ensures Expand([PERCENT, LETTER_B] + rest, args)
         == [args[0].text] + Expand(if rest == [] then [] else rest[1..], args[1..])
  {
    var fmt := [PERCENT, LETTER_B] + rest;
    assert fmt[1..] == [LETTER_B] + rest && fmt[2..] == rest;
    TailTouch(fmt, args);
    TailConversion(fmt, [], args);
    assert [] + args[0].text == args[0].text;
    TailSpace(rest, args[0].text, args[1..]);
  }
}
