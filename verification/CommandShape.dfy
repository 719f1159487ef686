/**
 The bytes of a formatted command, one by one: what the server gets to see.
 */
module CommandShape {
  import opened ByteStrings
  import opened Decimal
  import opened RespEncode
  import opened Commands
  import opened Spelling

  /** A line with the length of the argument, the argument, and a line end. */
  ghost predicate IsArgument(b: Bytes, arg: Bytes) {
    exists k :: 0 <= k <= |b| && IsHeading(b[..k], 36, |arg|) && b[k..] == arg + [13, 10]
  }

  ghost predicate AreArguments(b: Bytes, args: seq<Bytes>)
    decreases |args|
  {
    if args == [] then b == []
    else exists k :: 0 <= k <= |b| && IsArgument(b[..k], args[0]) && AreArguments(b[k..], args[1..])
  }

  lemma {:induction false} HeaderIsHeading(kind: byte, n: nat)
    ensures IsHeading(Header(kind, n), kind, n)
  {
    hide Digits, SpellsNumber;
    var b := Header(kind, n);
    NumberHasNoLineEnd(n);
    NatText(n);
    OneLineIff(Digits(n));
    SpellsNumberIff(Digits(n), n);
    assert b[1..|b| - 2] == Digits(n);
  }

  lemma {:induction false} ArgumentIs(arg: Bytes)
    ensures IsArgument(Argument(arg), arg)
  {
    hide IsHeading, Header;
    HeaderIsHeading(36, |arg|);
    var b, k := Argument(arg), |Header(36, |arg|)|;
    assert b[..k] == Header(36, |arg|) && b[k..] == arg + [13, 10];
  }

  lemma {:induction false} ArgumentsAre(argv: seq<Bytes>)
    ensures AreArguments(Arguments(argv), argv)
    decreases |argv|
  {
    hide IsArgument, Argument, Arguments;
    if argv == [] {
      NoArguments();
    } else {
      ArgumentsCons(argv);
      ArgumentIs(argv[0]);
      ArgumentsAre(argv[1..]);
      var b, k := Arguments(argv), |Argument(argv[0])|;
      assert b[..k] == Argument(argv[0]) && b[k..] == Arguments(argv[1..]);
    }
  }

  lemma {:induction false} NoArguments()
    ensures Arguments([]) == []
  {
  }

  /** A command is a line with the number of arguments, and then the arguments. */
  lemma {:induction false} CommandIs(argv: seq<Bytes>)
    ensures exists k :: 0 <= k <= |Command(argv)| && IsHeading(Command(argv)[..k], 42, |argv|) && AreArguments(Command(argv)[k..], argv)
  {
    hide IsHeading, Header, AreArguments;
    HeaderIsHeading(42, |argv|);
    ArgumentsAre(argv);
    CommandParts(argv);
    var b, k := Command(argv), |Header(42, |argv|)|;
    assert b[..k] == Header(42, |argv|) && b[k..] == Arguments(argv);
  }
}
