/**
 nextArgument of async.c: finding the arguments of a formatted command again, in a C string
 whose arguments may themselves contain any byte.
 */
module CommandScan {
  import opened ByteStrings
  import opened Decimal
  import opened RespEncode
  import opened Commands

  /** strchr from position `from` of the NUL-terminated buffer s, for a byte other than NUL. */
  function StrChr(s: Bytes, from: nat, c: byte): (r: Option<nat>)
    ensures r.Some? ==> from <= r.value < |s| && s[r.value] == c
    decreases |s| - from
  {
    if from >= |s| then None
    else if s[from] == c then Some(from)
    else if s[from] == NUL then None
    else StrChr(s, from + 1, c)
  }

  predicate IsSpace(c: byte) {
    c == SPACE || 9 <= c <= 13
  }

  function SkipSpace(s: Bytes, i: nat): (j: nat)
    requires i <= |s|
    ensures i <= j <= |s|
    decreases |s| - i
  {
    if i < |s| && IsSpace(s[i]) then SkipSpace(s, i + 1) else i
  }

  function SkipDigits(s: Bytes, i: nat): (j: nat)
    requires i <= |s|
    ensures i <= j <= |s| && AllDigits(s[i..j])
    decreases |s| - i
  {
    if i < |s| && IsDigit(s[i]) then
      var j := SkipDigits(s, i + 1);
      assert s[i..j] == [s[i]] + s[i + 1..j];
      j
    else
      assert s[i..i] == [];
      i
  }

  /** strtol in base 10, on a 64-bit long. */
  function StrToL(s: Bytes, from: nat): (v: int)
    requires from <= |s|
    ensures InLongLong(v)
  {
    var i := SkipSpace(s, from);
    var negative := i < |s| && s[i] == MINUS;
    var j := if negative || (i < |s| && s[i] == PLUS) then i + 1 else i;
    var v := ValueOf(s[j..SkipDigits(s, j)]);
    if negative then (if 0 - v < LLONG_MIN then LLONG_MIN else 0 - v)
    else if v > LLONG_MAX then LLONG_MAX
    else v
  }

  /** A long cut to int and widened to size_t. */
  function ThroughInt(v: int): (n: nat)
    ensures 0 <= v <= INT_MAX ==> n == v
    ensures n <= ULLONG_MAX
  {
    var low := v % 0x1_0000_0000;
    if low <= INT_MAX then low else low + 0xffff_ffff_0000_0000
  }

  /** No argument; or its position, its length and where to go on; or the failing assertion. */
  datatype Scan = NoArgument | Found(str: nat, len: nat, next: nat) | Aborts

  /** nextArgument. */
  function NextArgument(s: Bytes, start: nat): Scan
    requires start < |s|
  {
    var p := if s[start] != DOLLAR then StrChr(s, start, DOLLAR) else Some(start);
    match p
    case None => NoArgument
    case Some(d) =>
      var len := ThroughInt(StrToL(s, d + 1));
      match StrChr(s, d, CR)
      case None => Aborts
      case Some(q) => Found(q + 2, len, q + 2 + len + 2)
  }

  lemma {:induction false} StrChrFinds(s: Bytes, from: nat, c: byte, n: nat)
    requires from <= n < |s| && s[n] == c && c != NUL
    requires forall i :: from <= i < n ==> s[i] != c && s[i] != NUL
    ensures StrChr(s, from, c) == Some(n)
    decreases n - from
  {
    if from < n {
      StrChrFinds(s, from + 1, c, n);
    }
  }

  lemma {:induction false} SkipDigitsEnds(s: Bytes, i: nat, j: nat)
    requires i <= j < |s| && AllDigits(s[i..j]) && !IsDigit(s[j])
    ensures SkipDigits(s, i) == j
    decreases j - i
  {
    if i < j {
      assert IsDigit(s[i..j][0]);
      assert s[i..j][1..] == s[i + 1..j];
      SkipDigitsEnds(s, i + 1, j);
    }
  }

  /** A number followed by a line end is read as that number. */
  lemma {:induction false} StrToLReads(s: Bytes, from: nat, n: nat)
    requires from + |Digits(n)| < |s| && s[from..from + |Digits(n)|] == Digits(n)
    requires s[from + |Digits(n)|] == CR && n <= INT_MAX
    ensures StrToL(s, from) == n
  {
    DigitsAreCanonical(n);
    var j := from + |Digits(n)|;
    assert s[from] == s[from..j][0] && IsDigit(s[from]);
    assert SkipSpace(s, from) == from;
    SkipDigitsEnds(s, from, j);
  }

  /** The scan of one argument, from any position from which the first '$' is the argument's own. */
  lemma {:induction false} FindsArgument(s: Bytes, start: nat, d: nat, arg: Bytes)
    requires start <= d && d + |Argument(arg)| < |s| && |arg| <= INT_MAX
    requires s[d..d + |Argument(arg)|] == Argument(arg)
    requires forall i :: start <= i < d ==> s[i] != DOLLAR && s[i] != NUL
    ensures var str := d + |Header(DOLLAR, |arg|)|;
      && NextArgument(s, start) == Found(str, |arg|, d + |Argument(arg)|)
      && str + |arg| <= |s| && s[str..str + |arg|] == arg
  {
    hide Argument, Header, Digits, StrToL, StrChr;
    HeaderOfArgument(s, d, arg);
    StrChrFinds(s, start, DOLLAR, d);
  }

  /** From the '$' on: the length, the position of the carriage return, and the argument. */
  lemma {:induction false} HeaderOfArgument(s: Bytes, d: nat, arg: Bytes)
    requires d + |Argument(arg)| < |s| && |arg| <= INT_MAX && s[d..d + |Argument(arg)|] == Argument(arg)
    ensures var n := |Digits(|arg|)|;
      && |Header(DOLLAR, |arg|)| == n + 3 && |Argument(arg)| == n + 3 + |arg| + 2
      && s[d] == DOLLAR && StrToL(s, d + 1) == |arg| && StrChr(s, d, CR) == Some(d + n + 1)
      && s[d + n + 3..d + n + 3 + |arg|] == arg
  {
    ArgumentBytes(arg);
    hide Argument, Header, Digits, StrToL, StrChr;
    LengthAndEnd(s, d, Argument(arg), |Digits(|arg|)|, |arg|);
    SliceOfSlice(s, d, Argument(arg), |Digits(|arg|)| + 3, |Digits(|arg|)| + 3 + |arg|);
  }

  lemma {:induction false} LengthAndEnd(s: Bytes, d: nat, a: Bytes, n: nat, len: nat)
    requires d + |a| < |s| && len <= INT_MAX && s[d..d + |a|] == a && n + 1 < |a| && n == |Digits(len)|
    requires a[0] == DOLLAR && a[1..1 + n] == Digits(len) && a[n + 1] == CR
    requires forall i :: 0 <= i < n + 1 ==> a[i] != CR && a[i] != NUL
    ensures s[d] == DOLLAR && StrToL(s, d + 1) == len && StrChr(s, d, CR) == Some(d + n + 1)
  {
    hide Digits, StrToL, StrChr;
    SliceAt(s, d, a);
    SliceOfSlice(s, d, a, 1, 1 + n);
    StrToLReads(s, d + 1, len);
    StrChrFinds(s, d, CR, d + n + 1);
  }

  lemma {:induction false} SliceAt(s: Bytes, d: nat, a: Bytes)
    requires d + |a| <= |s| && s[d..d + |a|] == a
    ensures forall i :: d <= i < d + |a| ==> s[i] == a[i - d]
  {
    forall i | d <= i < d + |a|
      ensures s[i] == a[i - d]
    {
      assert s[d..d + |a|][i - d] == s[i];
    }
  }

  lemma {:induction false} SliceOfSlice(s: Bytes, d: nat, a: Bytes, i: nat, j: nat)
    requires d + |a| <= |s| && s[d..d + |a|] == a && i <= j <= |a|
    ensures s[d + i..d + j] == a[i..j]
  {
    SliceAt(s, d, a);
    forall k | 0 <= k < j - i
      ensures s[d + i..d + j][k] == a[i..j][k]
    {
      assert s[d + i + k] == a[i + k];
    }
  }

  /** The layout of an encoded argument. */
  lemma {:induction false} ArgumentBytes(arg: Bytes)
    ensures var n, a := |Digits(|arg|)|, Argument(arg);
      && |Header(DOLLAR, |arg|)| == n + 3 && |a| == n + 3 + |arg| + 2
      && a[0] == DOLLAR && a[1..1 + n] == Digits(|arg|) && a[n + 1] == CR && a[n + 3..n + 3 + |arg|] == arg
      && forall i :: 0 <= i < n + 1 ==> a[i] != CR && a[i] != NUL
  {
    DigitsAreCanonical(|arg|);
    var n, a := |Digits(|arg|)|, Argument(arg);
    assert a[1..1 + n] == Digits(|arg|);
    forall i | 0 <= i < n + 1
      ensures a[i] != CR && a[i] != NUL
    {
      if i > 0 {
        assert a[i] == Digits(|arg|)[i - 1];
      }
    }
  }

  /** Where the k-th argument of a formatted command starts. */
  function ArgumentStart(argv: seq<Bytes>, k: nat): nat
    requires k <= |argv|
  {
    |Prefix(argv, k)|
  }

  lemma {:induction false} ArgumentInCommand(argv: seq<Bytes>, k: nat)
    requires k < |argv|
    ensures ArgumentStart(argv, k) + |Argument(argv[k])| == ArgumentStart(argv, k + 1) <= |Command(argv)|
    ensures Command(argv)[ArgumentStart(argv, k)..ArgumentStart(argv, k + 1)] == Argument(argv[k])
  {
    ArgumentsAt(argv, k);
    PrefixStep(argv, k);
    CommandParts(argv);
    var rest := Arguments(argv[k + 1..]);
    assert Command(argv) == Prefix(argv, k) + Argument(argv[k]) + rest;
  }

  /**
   Scanning a formatted command: from the start of argument k, or for the first argument from the
   start of the command, nextArgument finds argument k and goes on at argument k + 1; at the end
   there is none.
   */
  lemma {:induction false} NextArgumentExact(argv: seq<Bytes>, k: nat, start: nat)
    requires |Command(argv)| <= INT_MAX && k <= |argv|
    requires start == ArgumentStart(argv, k) || (k == 0 && start == 0)
    ensures start <= |Command(argv)|
    ensures var s := Command(argv) + [NUL];
      match NextArgument(s, start)
      case NoArgument => k == |argv|
      case Found(str, len, next) =>
        && k < |argv| && len == |argv[k]| && str + len <= |s| && s[str..str + len] == argv[k]
        && next == ArgumentStart(argv, k + 1)
      case Aborts => false
  {
    hide NextArgument;
    PrefixEnds(argv);
    if k < |argv| {
      FindsInCommand(argv, k, start);
    } else {
      EndsScan(argv, start);
    }
  }

  lemma {:induction false} FindsInCommand(argv: seq<Bytes>, k: nat, start: nat)
    requires |Command(argv)| <= INT_MAX && k < |argv|
    requires start == ArgumentStart(argv, k) || (k == 0 && start == 0)
    ensures start <= |Command(argv)| && ArgumentStart(argv, k + 1) <= |Command(argv)|
    ensures var s, str := Command(argv) + [NUL], ArgumentStart(argv, k) + |Header(DOLLAR, |argv[k]|)|;
      && NextArgument(s, start) == Found(str, |argv[k]|, ArgumentStart(argv, k + 1))
      && str + |argv[k]| <= |s| && s[str..str + |argv[k]|] == argv[k]
  {
    hide Argument, Prefix, Command, NextArgument, Arguments, Header, ArgumentStart;
    var c, s := Command(argv), Command(argv) + [NUL];
    var d := ArgumentStart(argv, k);
    ArgumentInCommand(argv, k);
    ArgumentLengths(argv);
    CommandParts(argv);
    CountHasNoDollar(argv);
    assert s[d..d + |Argument(argv[k])|] == c[d..d + |Argument(argv[k])|];
    assert forall i :: start <= i < d ==> s[i] == c[i];
    FindsArgument(s, start, d, argv[k]);
  }

  lemma {:induction false} EndsScan(argv: seq<Bytes>, start: nat)
    requires start == |Command(argv)| || (argv == [] && start == 0)
    ensures NextArgument(Command(argv) + [NUL], start) == NoArgument
  {
    if start != |Command(argv)| {
      PrefixEnds(argv);
      CountHasNoDollar(argv);
      StrChrEnds(Command(argv) + [NUL], 0, DOLLAR);
    }
  }

  lemma {:induction false} CountHasNoDollar(argv: seq<Bytes>)
    ensures ArgumentStart(argv, 0) <= |Command(argv)|
    ensures forall i :: 0 <= i < ArgumentStart(argv, 0) ==> Command(argv)[i] != DOLLAR && Command(argv)[i] != NUL
  {
    PrefixEnds(argv);
    CommandParts(argv);
    DigitsAreCanonical(|argv|);
    var d := Digits(|argv|);
    var h := Header(STAR, |argv|);
    assert ArgumentStart(argv, 0) == |h| == |d| + 3;
    assert forall i :: 0 <= i < |d| ==> h[i + 1] == d[i] && IsDigit(d[i]);
    forall i | 0 <= i < |h|
      ensures h[i] != DOLLAR && h[i] != NUL
    {
      assert 1 <= i <= |d| ==> h[i] == d[i - 1];
    }
    assert forall i :: 0 <= i < |h| ==> Command(argv)[i] == h[i];
  }

  lemma {:induction false} StrChrEnds(s: Bytes, from: nat, c: byte)
    requires forall i :: from <= i < |s| ==> s[i] != c
    ensures StrChr(s, from, c) == None
    decreases |s| - from
  {
    if from < |s| && s[from] != NUL {
      StrChrEnds(s, from + 1, c);
    }
  }

  /** The loop of __redisAsyncCommand over a formatted command, here collecting the arguments. */
  method TakeApart(s: Bytes, ghost argv: seq<Bytes>) returns (args: seq<Bytes>)
    requires |Command(argv)| <= INT_MAX && s == Command(argv) + [NUL]
    ensures args == argv
  {
    hide NextArgument, Command, ArgumentStart;
    args := [];
    var p := 0;
    ghost var k := 0;
    NextArgumentExact(argv, 0, 0);
    var scan := NextArgument(s, p);
    while scan.Found?
      invariant 0 <= k <= |argv| && args == argv[..k] && 0 <= p < |s| && scan == NextArgument(s, p)
      invariant p == ArgumentStart(argv, k) || (k == 0 && p == 0)
      decreases |argv| - k
    {
      NextArgumentExact(argv, k, p);
      args := args + [s[scan.str..scan.str + scan.len]];
      assert argv[..k + 1] == argv[..k] + [argv[k]];
      p, k := scan.next, k + 1;
      NextArgumentExact(argv, k, p);
      scan := NextArgument(s, p);
    }
    NextArgumentExact(argv, k, p);
  }
}
