/**
 sdscatrepr and sdssplitargs: the quoting printer, the shell-like argument splitter, and that the
 splitter undoes the printer.
 */
module SdsQuote {
  import opened ByteStrings
  import opened SdsStrings
  import opened SdsSplit

  const ALERT: byte := 7
  const BACKSPACE: byte := 8
  const TAB: byte := 9
  const LETTER_A: byte := 97
  const LETTER_B: byte := 98
  const LETTER_N: byte := 110
  const LETTER_R: byte := 114
  const LETTER_T: byte := 116
  const LETTER_X: byte := 120

  /** isprint, isspace in the C locale. */
  predicate IsPrint(c: byte) {
    32 <= c <= 126
  }

  predicate IsBlank(c: byte) {
    c == SPACE || 9 <= c <= 13
  }

  /** A digit of %02x. */
  function HexDigit(d: nat): byte
    requires d < 16
  {
    if d < 10 then ZERO + d else LETTER_A + d - 10
  }

  predicate IsHexDigit(c: byte) {
    ZERO <= c <= NINE || 97 <= c <= 102 || 65 <= c <= 70
  }

  /** hex_digit_to_int. */
  function HexValue(c: byte): (d: nat)
    ensures d < 16
  {
    if ZERO <= c <= NINE then c - ZERO
    else if 97 <= c <= 102 then c - 87
    else if 65 <= c <= 70 then c - 55
    else 0
  }

  function ReprChar(c: byte): Bytes {
    if c == BACKSLASH || c == QUOTE then [BACKSLASH, c]
    else if c == LF then [BACKSLASH, LETTER_N]
    else if c == CR then [BACKSLASH, LETTER_R]
    else if c == TAB then [BACKSLASH, LETTER_T]
    else if c == ALERT then [BACKSLASH, LETTER_A]
    else if c == BACKSPACE then [BACKSLASH, LETTER_B]
    else if IsPrint(c) then [c]
    else [BACKSLASH, LETTER_X, HexDigit(c / 16), HexDigit(c % 16)]
  }

  function ReprBody(p: Bytes): Bytes {
    if p == [] then [] else ReprChar(p[0]) + ReprBody(p[1..])
  }

  /** The quoted form of a byte string. */
  function Repr(p: Bytes): Bytes {
    [QUOTE] + ReprBody(p) + [QUOTE]
  }

  lemma {:induction false} ReprBodySnoc(p: Bytes, c: byte)
    ensures ReprBody(p + [c]) == ReprBody(p) + ReprChar(c)
  {
    if p == [] {
      assert p + [c] == [c] && [c][1..] == [];
    } else {
      assert (p + [c])[1..] == p[1..] + [c];
      ReprBodySnoc(p[1..], c);
    }
  }

  lemma {:induction false} ReprLength(p: Bytes, k: nat)
    requires k <= |p|
    ensures |ReprBody(p[..k])| <= 4 * k
    decreases k
  {
    if k > 0 {
      ReprLength(p, k - 1);
      assert p[..k] == p[..k - 1] + [p[k - 1]];
      ReprBodySnoc(p[..k - 1], p[k - 1]);
    }
  }

  /** One turn of the loop of sdscatrepr. */
  method CatChar(s: Sds, p: Bytes, i: nat, ghost start: Bytes) returns (r: Sds)
    requires s.Valid() && i < |p| && s.Contents() == start + ReprBody(p[..i])
    requires |start| + 4 * |p| + SDS_MAX_PREALLOC <= ULLONG_MAX
    modifies s, s.buf
    ensures r == s || fresh(r)
    ensures r.buf == old(s.buf) || fresh(r.buf)
    ensures r.Valid() && r.Contents() == start + ReprBody(p[..i + 1])
  {
    hide ReprChar, ReprBody;
    ReprLength(p, i);
    ReprOneMore(start, p, i);
    var piece := PrintChar(p[i]);
    r := s.CatLen(piece);
  }

  /** sdscatrepr. */
  method CatRepr(s: Sds, p: Bytes) returns (r: Sds)
    requires s.Valid() && s.Len() + 4 * |p| + 2 + SDS_MAX_PREALLOC <= ULLONG_MAX
    modifies s, s.buf
    ensures r == s || fresh(r)
    ensures r.buf == old(s.buf) || fresh(r.buf)
    ensures r.Valid() && r.Contents() == old(s.Contents()) + Repr(p)
  {
    hide ReprChar, ReprBody, Repr;
    ghost var start := s.Contents();
    r := s.CatLen([QUOTE]);
    NoBytes();
    assert p[..0] == [];
    assert start + [QUOTE] == start + [QUOTE] + ReprBody(p[..0]);
    for i := 0 to |p|
      invariant r == s || fresh(r)
      invariant r.buf == old(s.buf) || fresh(r.buf)
      invariant r.Valid() && r.Contents() == start + [QUOTE] + ReprBody(p[..i])
    {
      r := CatChar(r, p, i, start + [QUOTE]);
    }
    ReprLength(p, |p|);
    r := r.CatLen([QUOTE]);
    ReprWhole(start, p);
  }

  lemma {:induction false} ReprOneMore(start: Bytes, p: Bytes, i: nat)
    requires i < |p|
    ensures start + ReprBody(p[..i]) + ReprChar(p[i]) == start + ReprBody(p[..i + 1])
  {
    hide ReprBody, ReprChar;
    ReprBodySnoc(p[..i], p[i]);
    assert p[..i + 1] == p[..i] + [p[i]];
    ConcatAssoc(start, ReprBody(p[..i]), ReprChar(p[i]));
  }

  lemma {:induction false} ReprWhole(start: Bytes, p: Bytes)
    ensures start + [QUOTE] + ReprBody(p[..|p|]) + [QUOTE] == start + Repr(p)
  {
    hide ReprBody;
    assert p[..|p|] == p;
    ConcatAssoc(start + [QUOTE], ReprBody(p), [QUOTE]);
    ConcatAssoc(start, [QUOTE], ReprBody(p) + [QUOTE]);
    ConcatAssoc([QUOTE], ReprBody(p), [QUOTE]);
  }

  lemma {:induction false} ConcatAssoc(a: Bytes, b: Bytes, c: Bytes)
    ensures a + b + c == a + (b + c)
  {
  }

  lemma {:induction false} NoBytes()
    ensures ReprBody([]) == []
  {
  }

  /** The switch of sdscatrepr. */
  method PrintChar(c: byte) returns (piece: Bytes)
    ensures piece == ReprChar(c) && 1 <= |piece| <= 4
  {
    if c == BACKSLASH || c == QUOTE {
      return [BACKSLASH, c];
    } else if c == LF {
      return [BACKSLASH, LETTER_N];
    } else if c == CR {
      return [BACKSLASH, LETTER_R];
    } else if c == TAB {
      return [BACKSLASH, LETTER_T];
    } else if c == ALERT {
      return [BACKSLASH, LETTER_A];
    } else if c == BACKSPACE {
      return [BACKSLASH, LETTER_B];
    } else if IsPrint(c) {
      return [c];
    } else {
      return [BACKSLASH, LETTER_X, HexDigit(c / 16), HexDigit(c % 16)];
    }
  }

  /** A character of the line, with the terminator behind its last one. */
  function At(s: Bytes, i: nat): byte {
    if i < |s| then s[i] else NUL
  }

  datatype Mode = Plain | InDouble | InSingle

  /** The character that an escape letter in double quotes stands for. */
  function Unescape(c: byte): byte {
    if c == LETTER_N then LF
    else if c == LETTER_R then CR
    else if c == LETTER_T then TAB
    else if c == LETTER_B then BACKSPACE
    else if c == LETTER_A then ALERT
    else c
  }

  /** A token, and how many characters of the line it took. */
  datatype Token = Token(text: Bytes, used: nat) | Unbalanced

  function After(k: nat, t: Token): Token {
    if t.Token? then Token(t.text, t.used + k) else Unbalanced
  }

  /** The rest of a token of which `current` has been read. */
  function ReadToken(s: Bytes, mode: Mode, current: Bytes): (t: Token)
    ensures t.Token? ==> t.used <= |s| && (s != [] ==> t.used > 0)
    decreases |s|
  {
    match mode
    case InDouble =>
      if At(s, 0) == BACKSLASH && At(s, 1) == LETTER_X && IsHexDigit(At(s, 2)) && IsHexDigit(At(s, 3)) then
        After(4, ReadToken(s[4..], InDouble, current + [HexValue(At(s, 2)) * 16 + HexValue(At(s, 3))]))
      else if At(s, 0) == BACKSLASH && At(s, 1) != NUL then
        After(2, ReadToken(s[2..], InDouble, current + [Unescape(At(s, 1))]))
      else if At(s, 0) == QUOTE then
        if At(s, 1) != NUL && !IsBlank(At(s, 1)) then Unbalanced else Token(current, 1)
      else if At(s, 0) == NUL then Unbalanced
      else After(1, ReadToken(s[1..], InDouble, current + [s[0]]))
    case InSingle =>
      if At(s, 0) == BACKSLASH && At(s, 1) == APOSTROPHE then
        After(2, ReadToken(s[2..], InSingle, current + [APOSTROPHE]))
      else if At(s, 0) == APOSTROPHE then
        if At(s, 1) != NUL && !IsBlank(At(s, 1)) then Unbalanced else Token(current, 1)
      else if At(s, 0) == NUL then Unbalanced
      else After(1, ReadToken(s[1..], InSingle, current + [s[0]]))
    case Plain =>
      if s == [] then Token(current, 0)
      else if s[0] == SPACE || s[0] == LF || s[0] == CR || s[0] == TAB then Token(current, 1)
      else if s[0] == QUOTE then After(1, ReadToken(s[1..], InDouble, current))
      else if s[0] == APOSTROPHE then After(1, ReadToken(s[1..], InSingle, current))
      else After(1, ReadToken(s[1..], Plain, current + [s[0]]))
  }

  /** All arguments of a line; None for unbalanced quotes. */
  function SplitArgs(s: Bytes): Option<seq<Bytes>>
    decreases |s|
  {
    if s == [] then Some([])
    else if IsBlank(s[0]) then SplitArgs(s[1..])
    else
      match ReadToken(s, Plain, [])
      case Unbalanced => None
      case Token(text, used) =>
        match SplitArgs(s[used..])
        case None => None
        case Some(rest) => Some([text] + rest)
  }

  /** One quoted character is read back as that character. */
  lemma {:induction false} ReadsChar(c: byte, rest: Bytes, current: Bytes)
    ensures ReadToken(ReprChar(c) + rest, InDouble, current)
         == After(|ReprChar(c)|, ReadToken(rest, InDouble, current + [c]))
  {
    var s := ReprChar(c) + rest;
    assert s[|ReprChar(c)|..] == rest;
    if |ReprChar(c)| == 4 {
      assert HexValue(HexDigit(c / 16)) == c / 16 && HexValue(HexDigit(c % 16)) == c % 16;
    }
  }

  /** The closing quote in front of a blank or the end ends the token. */
  lemma {:induction false} ReadsEnd(rest: Bytes, current: Bytes)
    requires rest == [] || rest[0] == SPACE
    ensures ReadToken([QUOTE] + rest, InDouble, current) == Token(current, 1)
  {
    var s := [QUOTE] + rest;
    assert s[0] == QUOTE && s[1..] == rest;
  }

  /** The body of a quoted string, its closing quote, and a blank or the end. */
  lemma {:induction false} ReadsBody(p: Bytes, rest: Bytes, current: Bytes)
    requires rest == [] || rest[0] == SPACE
    ensures ReadToken(ReprBody(p) + [QUOTE] + rest, InDouble, current) == Token(current + p, |ReprBody(p)| + 1)
  {
    hide ReadToken, ReprChar;
    if p == [] {
      ReadsEnd(rest, current);
      assert ReprBody(p) + [QUOTE] + rest == [QUOTE] + rest;
      assert current + p == current;
    } else {
      var tail := ReprBody(p[1..]) + [QUOTE] + rest;
      assert ReprBody(p) + [QUOTE] + rest == ReprChar(p[0]) + tail;
      ReadsChar(p[0], tail, current);
      ReadsBody(p[1..], rest, current + [p[0]]);
      assert current + [p[0]] + p[1..] == current + p;
    }
  }

  function Reprs(args: seq<Bytes>): (parts: seq<Bytes>)
    ensures |parts| == |args|
  {
    if args == [] then [] else [Repr(args[0])] + Reprs(args[1..])
  }

  /** A quoted string in front of a blank or the end is one token. */
  lemma {:induction false} ReadsRepr(p: Bytes, rest: Bytes)
    requires rest == [] || rest[0] == SPACE
    ensures ReadToken(Repr(p) + rest, Plain, []) == Token(p, |Repr(p)|)
  {
    hide ReprBody;
    var s := Repr(p) + rest;
    assert s[1..] == ReprBody(p) + [QUOTE] + rest;
    ReadsBody(p, rest, []);
    assert [] + p == p;
  }

  /** Splitting the quoted forms joined by single spaces gives back exactly the strings. */
  lemma {:induction false} QuoteThenSplit(args: seq<Bytes>)
    ensures SplitArgs(JoinWith(Reprs(args), [SPACE])) == Some(args)
  {
    hide Repr, ReadToken;
    if args != [] {
      hide SplitArgs;
      var line := JoinWith(Reprs(args), [SPACE]);
      var rest := if |args| == 1 then [] else [SPACE] + JoinWith(Reprs(args[1..]), [SPACE]);
      assert Reprs(args)[1..] == Reprs(args[1..]);
      assert line == Repr(args[0]) + rest by {
        assert Repr(args[0]) + [] == Repr(args[0]);
      }
      ReadsRepr(args[0], rest);
      StartsQuoted(args[0], rest);
      assert line[|Repr(args[0])|..] == rest;
      QuoteThenSplit(args[1..]);
      RestSplits(rest, args[1..]);
      FirstArgument(line, args[0], |Repr(args[0])|, args[1..]);
      assert [args[0]] + args[1..] == args;
    }
  }

  lemma {:induction false} StartsQuoted(p: Bytes, rest: Bytes)
    ensures Repr(p) + rest != [] && !IsBlank((Repr(p) + rest)[0])
  {
    hide ReprBody;
  }

  /** After the first quoted form comes nothing, or a blank and the other forms. */
  lemma {:induction false} RestSplits(rest: Bytes, args: seq<Bytes>)
    requires rest == if args == [] then [] else [SPACE] + JoinWith(Reprs(args), [SPACE])
    requires SplitArgs(JoinWith(Reprs(args), [SPACE])) == Some(args)
    ensures SplitArgs(rest) == Some(args)
  {
    hide JoinWith, Reprs, ReadToken;
    if args != [] {
      assert rest[1..] == JoinWith(Reprs(args), [SPACE]);
    }
  }

  lemma {:induction false} FirstArgument(line: Bytes, text: Bytes, used: nat, rest: seq<Bytes>)
    requires line != [] && !IsBlank(line[0]) && ReadToken(line, Plain, []) == Token(text, used)
    requires used <= |line| && SplitArgs(line[used..]) == Some(rest)
    ensures SplitArgs(line) == Some([text] + rest)
  {
  }

  function ModeOf(inq: bool, insq: bool): Mode {
    if inq then InDouble else if insq then InSingle else Plain
  }

  /** The token loop of sdssplitargs, from a non-blank position of a C string. */
  method ScanToken(line: Bytes, start: nat) returns (ok: bool, current: Bytes, p: nat)
    requires start < |line| && NUL !in line
    ensures match ReadToken(line[start..], Plain, [])
      case Unbalanced => !ok
      case Token(text, used) => ok && current == text && p == start + used && start < p <= |line|
  {
    hide ReadToken;
    current, p := [], start;
    var inq, insq, done := false, false, false;
    ghost var token := ReadToken(line[start..], Plain, []);
    AfterNothing(token);
    while !done
      invariant start <= p <= |line|
      invariant !done ==> token == After(p - start, ReadToken(line[p..], ModeOf(inq, insq), current))
      invariant done ==> token == Token(current, p - start)
      invariant !(inq && insq)
      decreases !done, |line| - p
    {
      ReadStep(line, p, ModeOf(inq, insq), current);
      var c, c1 := At(line, p), At(line, p + 1);
      if inq {
        if c == BACKSLASH && c1 == LETTER_X && IsHexDigit(At(line, p + 2)) && IsHexDigit(At(line, p + 3)) {
          current := current + [HexValue(At(line, p + 2)) * 16 + HexValue(At(line, p + 3))];
          p := p + 3;
        } else if c == BACKSLASH && c1 != NUL {
          p := p + 1;
          current := current + [Unescape(line[p])];
        } else if c == QUOTE {
          if c1 != NUL && !IsBlank(c1) {
            return false, [], p;
          }
          done := true;
        } else if c == NUL {
          return false, [], p;
        } else {
          current := current + [c];
        }
      } else if insq {
        if c == BACKSLASH && c1 == APOSTROPHE {
          p := p + 1;
          current := current + [APOSTROPHE];
        } else if c == APOSTROPHE {
          if c1 != NUL && !IsBlank(c1) {
            return false, [], p;
          }
          done := true;
        } else if c == NUL {
          return false, [], p;
        } else {
          current := current + [c];
        }
      } else {
        if c == SPACE || c == LF || c == CR || c == TAB || c == NUL {
          done := true;
        } else if c == QUOTE {
          inq := true;
        } else if c == APOSTROPHE {
          insq := true;
        } else {
          current := current + [c];
        }
      }
      if At(line, p) != NUL {
        p := p + 1;
      }
    }
    TokenUses(line[start..]);
    ok := true;
  }

  lemma {:induction false} AfterNothing(t: Token)
    ensures After(0, t) == t
  {
  }

  lemma {:induction false} TokenUses(s: Bytes)
    requires s != []
    ensures var t := ReadToken(s, Plain, []); t.Token? ==> 0 < t.used <= |s|
  {
  }

  /** The decisions of one turn of the token loop. */
  lemma {:induction false} ReadStep(line: Bytes, p: nat, mode: Mode, current: Bytes)
    requires p <= |line| && NUL !in line
    ensures forall i :: 0 <= i ==> At(line[p..], i) == At(line, p + i)
    ensures ReadToken(line[p..], mode, current) == TurnOf(line, p, mode, current)
  {
    var s := line[p..];
    assert forall i :: 0 <= i <= |s| ==> s[i..] == line[p + i..];
    assert forall i :: 0 <= i < |s| ==> s[i] == line[p + i] && s[i] in line;
  }

  /** ReadToken at a position of the line instead of on its rest. */
  function TurnOf(line: Bytes, p: nat, mode: Mode, current: Bytes): Token
    requires p <= |line|
  {
    var c, c1 := At(line, p), At(line, p + 1);
    match mode
    case InDouble =>
      if c == BACKSLASH && c1 == LETTER_X && IsHexDigit(At(line, p + 2)) && IsHexDigit(At(line, p + 3)) then
        After(4, ReadToken(line[p + 4..], InDouble, current + [HexValue(At(line, p + 2)) * 16 + HexValue(At(line, p + 3))]))
      else if c == BACKSLASH && c1 != NUL then After(2, ReadToken(line[p + 2..], InDouble, current + [Unescape(c1)]))
      else if c == QUOTE then if c1 != NUL && !IsBlank(c1) then Unbalanced else Token(current, 1)
      else if c == NUL then Unbalanced
      else After(1, ReadToken(line[p + 1..], InDouble, current + [c]))
    case InSingle =>
      if c == BACKSLASH && c1 == APOSTROPHE then After(2, ReadToken(line[p + 2..], InSingle, current + [APOSTROPHE]))
      else if c == APOSTROPHE then if c1 != NUL && !IsBlank(c1) then Unbalanced else Token(current, 1)
      else if c == NUL then Unbalanced
      else After(1, ReadToken(line[p + 1..], InSingle, current + [c]))
    case Plain =>
      if c == NUL then Token(current, 0)
      else if c == SPACE || c == LF || c == CR || c == TAB then Token(current, 1)
      else if c == QUOTE then After(1, ReadToken(line[p + 1..], InDouble, current))
      else if c == APOSTROPHE then After(1, ReadToken(line[p + 1..], InSingle, current))
      else After(1, ReadToken(line[p + 1..], Plain, current + [c]))
  }

  /** What the arguments found so far and the rest of the line make of the whole line. */
  function Prepended(vector: seq<Bytes>, rest: Option<seq<Bytes>>): Option<seq<Bytes>> {
    match rest
    case None => None
    case Some(args) => Some(vector + args)
  }

  lemma {:induction false} NoLine(s: Bytes)
    requires s == []
    ensures SplitArgs(s) == Some([])
  {
  }

  lemma {:induction false} PrependNothing(rest: Option<seq<Bytes>>)
    ensures Prepended([], rest) == rest
  {
    match rest
    case None =>
    case Some(args) => assert [] + args == args;
  }

  lemma {:induction false} PrependMore(vector: seq<Bytes>, text: Bytes, rest: Option<seq<Bytes>>)
    ensures Prepended(vector, Prepended([text], rest)) == Prepended(vector + [text], rest)
  {
    match rest
    case None =>
    case Some(args) => assert vector + ([text] + args) == vector + [text] + args;
  }

  /** One step of the outer loop. */
  lemma {:induction false} SplitStep(line: Bytes, p: nat)
    requires p < |line|
    ensures IsBlank(line[p]) ==> SplitArgs(line[p..]) == SplitArgs(line[p + 1..])
    ensures !IsBlank(line[p]) ==>
      match ReadToken(line[p..], Plain, [])
      case Unbalanced => SplitArgs(line[p..]) == None
      case Token(text, used) => p + used <= |line| && SplitArgs(line[p..]) == Prepended([text], SplitArgs(line[p + used..]))
  {
    var s := line[p..];
    assert s[1..] == line[p + 1..];
    hide ReadToken;
    match ReadToken(s, Plain, [])
    case Unbalanced =>
    case Token(text, used) => assert s[used..] == line[p + used..];
  }

  /** sdssplitargs on a C string; None for the null result. */
  method SplitLine(line: Bytes) returns (r: Option<seq<Bytes>>)
    requires NUL !in line
    ensures r == SplitArgs(line)
  {
    hide ReadToken, SplitArgs, IsBlank;
    var p: nat := 0;
    var vector: seq<Bytes> := [];
    assert line[0..] == line;
    PrependNothing(SplitArgs(line));
    while true
      invariant p <= |line| && SplitArgs(line) == Prepended(vector, SplitArgs(line[p..]))
      decreases |line| - p
    {
      while p < |line| && IsBlank(line[p])
        invariant p <= |line| && SplitArgs(line) == Prepended(vector, SplitArgs(line[p..]))
        decreases |line| - p
      {
        SplitStep(line, p);
        p := p + 1;
      }
      if p == |line| {
        NoLine(line[p..]);
        assert vector + [] == vector;
        return Some(vector);
      }
      SplitStep(line, p);
      var ok, current, q := ScanToken(line, p);
      if !ok {
        return None;
      }
      PrependMore(vector, current, SplitArgs(line[q..]));
      vector := vector + [current];
      p := q;
    }
  }

  // ----- The two together -----

  lemma {:induction false} ReprBodyHasNoNul(p: Bytes)
    ensures NUL !in ReprBody(p)
  {
    if p != [] {
      assert NUL !in ReprChar(p[0]);
      hide ReprChar;
      ReprBodyHasNoNul(p[1..]);
    }
  }

  /** The quoted form of any bytes, NUL included, is a C string. */
  lemma {:induction false} ReprHasNoNul(p: Bytes)
    ensures NUL !in Repr(p)
  {
    ReprBodyHasNoNul(p);
  }

  lemma {:induction false} JoinHasNoNul(parts: seq<Bytes>)
    requires forall i :: 0 <= i < |parts| ==> NUL !in parts[i]
    ensures NUL !in JoinWith(parts, [SPACE])
  {
    if |parts| > 1 {
      JoinHasNoNul(parts[1..]);
    }
  }

  lemma {:induction false} ReprsAt(args: seq<Bytes>, i: nat)
    requires i < |args|
    ensures Reprs(args)[i] == Repr(args[i])
  {
    if i > 0 {
      ReprsAt(args[1..], i - 1);
    }
  }

  lemma {:induction false} QuotedLineHasNoNul(args: seq<Bytes>)
    ensures NUL !in JoinWith(Reprs(args), [SPACE])
  {
    forall i | 0 <= i < |args|
      ensures NUL !in Reprs(args)[i]
    {
      ReprsAt(args, i);
      ReprHasNoNul(args[i]);
    }
    JoinHasNoNul(Reprs(args));
  }

  /** sdscatrepr on each string, sdsjoinsds with a space and sdssplitargs: exactly the strings come back. */
  method QuoteAndSplit(args: seq<Bytes>) returns (r: Option<seq<Bytes>>)
    requires forall i :: 0 <= i < |args| ==> 4 * |args[i]| + 2 + SDS_MAX_PREALLOC <= ULLONG_MAX
    requires |JoinWith(Reprs(args), [SPACE])| + 1 + SDS_MAX_PREALLOC <= ULLONG_MAX
    ensures r == Some(args)
  {
    hide Repr, Reprs, JoinWith, SplitArgs;
    var forms: seq<Bytes> := [];
    for i := 0 to |args|
      invariant forms == Reprs(args)[..i]
    {
      var s := new Sds([]);
      s := CatRepr(s, args[i]);
      assert [] + Repr(args[i]) == Repr(args[i]);
      ReprsAt(args, i);
      forms := forms + [s.Contents()];
    }
    assert forms == Reprs(args);
    var line := JoinSds(forms, [SPACE]);
    QuotedLineHasNoNul(args);
    QuoteThenSplit(args);
    r := SplitLine(line.Contents());
  }
}
