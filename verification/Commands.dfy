/**
 Commands as sent to the server: an array of bulk strings. The two argv formatters of hiredis.c,
 and the scanner of async.c that takes a formatted command apart again.
 */
module Commands {
  import opened ByteStrings
  import opened Decimal
  import opened RespGrammar
  import opened RespEncode
  import opened SdsStrings

  function Bulks(argv: seq<Bytes>): (vs: seq<Reply>)
    ensures |vs| == |argv|
    ensures forall i :: 0 <= i < |argv| ==> vs[i] == Bulk(argv[i])
  {
    if argv == [] then [] else [Bulk(argv[0])] + Bulks(argv[1..])
  }

  /** The bytes of a command. */
  function Command(argv: seq<Bytes>): Bytes {
    Encode(Array(Bulks(argv)))
  }

  /** The encoded arguments without the count in front. */
  function Arguments(argv: seq<Bytes>): Bytes {
    EncodeAll(Bulks(argv))
  }

  function Argument(arg: Bytes): Bytes {
    Header(DOLLAR, |arg|) + arg + CRLF
  }

  lemma {:induction false} ArgumentsCons(argv: seq<Bytes>)
    requires argv != []
    ensures Arguments(argv) == Argument(argv[0]) + Arguments(argv[1..])
  {
    var vs := Bulks(argv);
    assert vs[1..] == Bulks(argv[1..]);
    assert Encode(vs[0]) == Argument(argv[0]);
    assert EncodeAll(vs) == Encode(vs[0]) + EncodeAll(vs[1..]);
  }

  lemma {:induction false} ArgumentsAppend(a: seq<Bytes>, b: seq<Bytes>)
    ensures Arguments(a + b) == Arguments(a) + Arguments(b)
  {
    if a == [] {
      assert a + b == b;
    } else {
      ArgumentsCons(a);
      ArgumentsCons(a + b);
      assert (a + b)[1..] == a[1..] + b;
      ArgumentsAppend(a[1..], b);
    }
  }

  /** How far the first j arguments and the next one reach. */
  lemma {:induction false} ArgumentsAt(argv: seq<Bytes>, j: nat)
    requires j < |argv|
    ensures Arguments(argv[..j + 1]) == Arguments(argv[..j]) + Argument(argv[j])
    ensures Arguments(argv) == Arguments(argv[..j]) + Argument(argv[j]) + Arguments(argv[j + 1..])
  {
    assert argv[..j + 1] == argv[..j] + [argv[j]];
    assert argv == argv[..j + 1] + argv[j + 1..];
    ArgumentsAppend(argv[..j], [argv[j]]);
    ArgumentsAppend(argv[..j + 1], argv[j + 1..]);
    ArgumentsCons([argv[j]]);
    assert Arguments([]) == [];
    assert Arguments([argv[j]]) == Argument(argv[j]);
  }

  lemma {:induction false} CommandParts(argv: seq<Bytes>)
    ensures Command(argv) == Header(STAR, |argv|) + Arguments(argv)
  {
  }

  /** The command up to its first j arguments. */
  function Prefix(argv: seq<Bytes>, j: nat): Bytes
    requires j <= |argv|
  {
    Header(STAR, |argv|) + Arguments(argv[..j])
  }

  lemma {:induction false} PrefixStep(argv: seq<Bytes>, j: nat)
    requires j < |argv|
    ensures Prefix(argv, j + 1) == Prefix(argv, j) + Argument(argv[j])
    ensures |Prefix(argv, j + 1)| <= |Command(argv)|
  {
    ArgumentsAt(argv, j);
    CommandParts(argv);
    var head, front, last := Header(STAR, |argv|), Arguments(argv[..j]), Argument(argv[j]);
    assert head + front + last == head + (front + last);
  }

  lemma {:induction false} PrefixEnds(argv: seq<Bytes>)
    ensures Prefix(argv, 0) == Header(STAR, |argv|) && Prefix(argv, |argv|) == Command(argv)
    ensures |Header(STAR, |argv|)| <= |Command(argv)|
  {
    CommandParts(argv);
    assert argv[..0] == [] && Arguments([]) == [] && argv[..|argv|] == argv;
  }

  lemma {:induction false} ArgcFits(argv: seq<Bytes>)
    ensures |argv| <= |Arguments(argv)|
  {
    if argv != [] {
      ArgumentsCons(argv);
      ArgcFits(argv[1..]);
    }
  }

  /** The server's parser recovers exactly the arguments, whatever bytes they contain, and leaves what follows. */
  lemma {:induction false} CommandParses(argv: seq<Bytes>, suffix: Bytes, isDouble: DoubleTest)
    requires |Command(argv)| <= INT_MAX
    ensures ParseValue(Command(argv) + suffix, 0, isDouble) == Done(Array(Bulks(argv)), |Command(argv)|)
  {
    CommandParts(argv);
    ArgcFits(argv);
    ArgumentLengths(argv);
    var vs := Bulks(argv);
    assert forall i :: 0 <= i < |vs| ==> Printable(vs[i], isDouble);
    BulksAreFlat(vs);
    RoundTrip(Array(vs), suffix, 0, isDouble);
  }

  lemma {:induction false} ArgumentLengths(argv: seq<Bytes>)
    ensures forall i :: 0 <= i < |argv| ==> |argv[i]| <= |Arguments(argv)|
  {
    forall i | 0 <= i < |argv|
      ensures |argv[i]| <= |Arguments(argv)|
    {
      ArgumentsAt(argv, i);
    }
  }

  lemma {:induction false} BulksAreFlat(vs: seq<Reply>)
    requires forall i :: 0 <= i < |vs| ==> vs[i].Bulk?
    ensures NestingAll(vs) == 0
  {
    if vs != [] {
      BulksAreFlat(vs[1..]);
    }
  }

  /** Different argument lists give different commands. */
  lemma {:induction false} CommandInjective(a: seq<Bytes>, b: seq<Bytes>, isDouble: DoubleTest)
    requires |Command(a)| <= INT_MAX && Command(a) == Command(b)
    ensures a == b
  {
    CommandParses(a, [], isDouble);
    CommandParses(b, [], isDouble);
    assert Bulks(a) == Bulks(b);
    forall i | 0 <= i < |a|
      ensures a[i] == b[i]
    {
      assert Bulks(a)[i] == Bulk(a[i]) && Bulks(b)[i] == Bulk(b[i]);
    }
  }

  /** bulklen. */
  method BulkLen(len: nat) returns (n: nat)
    requires len <= ULLONG_MAX
    ensures forall arg: Bytes :: |arg| == len ==> n == |Argument(arg)|
  {
    var digits := CountDigits(len);
    return 1 + digits + 2 + len + 2;
  }

  /** The first loop of both formatters: the exact size of the command. */
  method TotalLength(argv: seq<Bytes>) returns (totlen: nat)
    requires |Command(argv)| <= INT_MAX
    ensures totlen == |Command(argv)|
  {
    CommandParts(argv);
    ArgcFits(argv);
    ArgumentLengths(argv);
    var digits := CountDigits(|argv|);
    totlen := 1 + digits + 2;
    assert argv[..0] == [] && Arguments([]) == [];
    for j := 0 to |argv|
      invariant totlen == |Header(STAR, |argv|)| + |Arguments(argv[..j])|
    {
      ArgumentsAt(argv, j);
      var n := BulkLen(|argv[j]|);
      totlen := totlen + n;
    }
    assert argv[..|argv|] == argv;
  }

  /** sprintf of a header line; the terminator it writes is overwritten or final. */
  method PrintHeader(cmd: array<byte>, pos: nat, b: byte, n: nat) returns (written: nat)
    requires pos + |Header(b, n)| < cmd.Length
    modifies cmd
    ensures written == |Header(b, n)|
    ensures cmd[..pos + written] == old(cmd[..pos]) + Header(b, n)
  {
    var text := Header(b, n);
    forall i | 0 <= i <= |text| {
      cmd[pos + i] := if i < |text| then text[i] else NUL;
    }
    return |text|;
  }

  /** memcpy of an argument and the two bytes that end it. */
  method PrintBody(cmd: array<byte>, pos: nat, arg: Bytes) returns (written: nat)
    requires pos + |arg| + 2 < cmd.Length
    modifies cmd
    ensures written == |arg| + 2
    ensures cmd[..pos + written] == old(cmd[..pos]) + (arg + CRLF)
  {
    forall i | 0 <= i < |arg| {
      cmd[pos + i] := arg[i];
    }
    cmd[pos + |arg|] := CR;
    cmd[pos + |arg| + 1] := LF;
    return |arg| + 2;
  }

  /** One turn of the filling loops. */
  method PrintArgument(cmd: array<byte>, pos: nat, arg: Bytes) returns (pos': nat)
    requires pos + |Argument(arg)| < cmd.Length
    modifies cmd
    ensures pos' == pos + |Argument(arg)| && cmd[..pos'] == old(cmd[..pos]) + Argument(arg)
  {
    var written := PrintHeader(cmd, pos, DOLLAR, |arg|);
    pos' := pos + written;
    written := PrintBody(cmd, pos', arg);
    pos' := pos' + written;
  }

  /** The filling loop shared by redisFormatCommandArgv and redisvFormatCommand, with its final assertion. */
  method FillCommand(cmd: array<byte>, argv: seq<Bytes>, totlen: nat)
    requires totlen == |Command(argv)| && cmd.Length == totlen + 1
    modifies cmd
    ensures cmd[..totlen] == Command(argv) && cmd[totlen] == NUL
  {
    PrefixEnds(argv);
    var pos: nat := PrintHeader(cmd, 0, STAR, |argv|);
    hide Prefix, Command, Arguments, Argument, Header;
    for j := 0 to |argv|
      invariant pos <= totlen && cmd[..pos] == Prefix(argv, j)
    {
      PrefixStep(argv, j);
      pos := PrintArgument(cmd, pos, argv[j]);
    }
    assert pos == totlen;
    ghost var text := cmd[..pos];
    cmd[pos] := NUL;
    assert cmd[..pos] == text;
  }

  /** redisFormatCommandArgv. */
  method FormatCommandArgv(argv: seq<Bytes>) returns (cmd: array<byte>, totlen: nat)
    requires |Command(argv)| <= INT_MAX
    ensures fresh(cmd) && totlen == |Command(argv)| && cmd.Length == totlen + 1
    ensures cmd[..totlen] == Command(argv) && cmd[totlen] == NUL
  {
    totlen := TotalLength(argv);
    cmd := new byte[totlen + 1];
    FillCommand(cmd, argv, totlen);
  }

  lemma {:induction false} HeaderFormat(b: byte, conversion: byte, a: FmtArg, n: nat)
    requires b != PERCENT && TakesArgument(conversion) && Fits(conversion, a) && ArgText(a) == IntText(n)
    ensures FmtOk([b, PERCENT, conversion, CR, LF], [a])
    ensures Formatted([b, PERCENT, conversion, CR, LF], [a]) == Header(b, n)
  {
    var fmt := [b, PERCENT, conversion, CR, LF];
    assert fmt[1..] == [PERCENT, conversion, CR, LF];
    assert fmt[1..][2..] == [CR, LF];
    assert [a][1..] == [];
    assert [CR, LF][1..] == [LF] && [LF][1..] == [];
    assert FmtOk([], []) && FmtOk([LF], []) && FmtOk([CR, LF], []);
    assert Formatted([], []) == [] && Formatted([LF], []) == [LF] && Formatted([CR, LF], []) == CRLF;
    assert FmtOk(fmt[1..], [a]);
    assert Formatted(fmt[1..], [a]) == IntText(n) + CRLF;
  }

  /** One turn of the appending loop. */
  method AppendArgument(s: Sds, arg: Bytes) returns (r: Sds)
    requires s.Valid() && s.Len() + |Argument(arg)| + 1 <= 2 * INT_MAX
    modifies s, s.buf
    ensures r == s || fresh(r)
    ensures r.buf == old(s.buf) || fresh(r.buf)
    ensures r.Valid() && r.Contents() == old(s.Contents()) + Argument(arg)
  {
    r := AppendHeader(s, DOLLAR, LOWER_U, Unsigned(|arg|), |arg|);
    r := r.CatLen(arg);
    r := r.CatLen(CRLF);
  }

  /** redisFormatSdsCommandArgv: the same bytes in an SDS string that never has to grow. */
  method FormatSdsCommandArgv(argv: seq<Bytes>) returns (cmd: Sds, totlen: nat)
    requires |Command(argv)| <= INT_MAX
    ensures fresh(cmd) && fresh(cmd.buf) && cmd.Valid()
    ensures cmd.Contents() == Command(argv) && totlen == cmd.Len() == |Command(argv)|
  {
    CommandParts(argv);
    ArgcFits(argv);
    totlen := TotalLength(argv);
    PrefixEnds(argv);
    hide Prefix, Command, Arguments, Argument, Header;
    cmd := new Sds([]);
    cmd := MakeRoom(cmd, totlen);
    cmd := AppendHeader(cmd, STAR, LOWER_I, Signed(|argv|), |argv|);
    for j := 0 to |argv|
      invariant fresh(cmd) && fresh(cmd.buf) && cmd.Valid()
      invariant cmd.Contents() == Prefix(argv, j)
    {
      PrefixStep(argv, j);
      cmd := AppendArgument(cmd, argv[j]);
    }
    assert cmd.Len() == totlen;
  }

  /** sdsMakeRoomFor on a valid string keeps it valid. */
  method MakeRoom(s: Sds, n: nat) returns (r: Sds)
    requires s.Valid() && s.Len() + n + SDS_MAX_PREALLOC <= ULLONG_MAX
    modifies s
    ensures r == s || fresh(r)
    ensures r.buf == old(s.buf) || fresh(r.buf)
    ensures r.Valid() && r.Contents() == old(s.Contents()) && r.Avail() >= n
  {
    r := s.MakeRoomFor(n);
    assert r.buf[r.Len()] == r.buf[..r.Len() + 1][r.Len()];
    assert r.Contents() == r.buf[..r.Len() + 1][..r.Len()];
    assert old(s.Contents()) == old(s.buf[..s.Len() + 1])[..old(s.Len())];
  }

  method AppendHeader(s: Sds, b: byte, conversion: byte, a: FmtArg, n: nat) returns (r: Sds)
    requires s.Valid() && s.Len() + |Header(b, n)| + SDS_MAX_PREALLOC + 1 <= ULLONG_MAX
    requires b != PERCENT && TakesArgument(conversion) && Fits(conversion, a) && ArgText(a) == IntText(n)
    modifies s, s.buf
    ensures r == s || fresh(r)
    ensures r.buf == old(s.buf) || fresh(r.buf)
    ensures r.Valid() && r.Contents() == old(s.Contents()) + Header(b, n)
  {
    HeaderFormat(b, conversion, a, n);
    r := s.CatFmt([b, PERCENT, conversion, CR, LF], [a]);
  }
}
