/**
 SDS strings: a header of one of five widths in front of a NUL-terminated buffer.
 One `Sds` object is one allocation; operations that move the string return the new one.
 */
module SdsStrings {
  import opened ByteStrings
  import opened Decimal

  const SDS_TYPE_5 := 0
  const SDS_TYPE_8 := 1
  const SDS_TYPE_16 := 2
  const SDS_TYPE_32 := 3
  const SDS_TYPE_64 := 4

  const SDS_MAX_PREALLOC := 1024 * 1024

  /** The largest length a header type can store. */
  function MaxLen(t: int): nat {
    if t == SDS_TYPE_5 then 31
    else if t == SDS_TYPE_8 then 0xff
    else if t == SDS_TYPE_16 then 0xffff
    else if t == SDS_TYPE_32 then 0xffff_ffff
    else ULLONG_MAX
  }

  /** The cast to the integer type of a header field. */
  function Cut(x: nat, t: int): (n: nat)
    ensures n <= x && (t != SDS_TYPE_5 ==> n <= MaxLen(t))
    ensures t != SDS_TYPE_5 && x <= MaxLen(t) ==> n == x
  {
    if t == SDS_TYPE_8 then x % 0x100
    else if t == SDS_TYPE_16 then x % 0x1_0000
    else if t == SDS_TYPE_32 then x % 0x1_0000_0000
    else x % (ULLONG_MAX + 1)
  }

  /** The flags byte of a type 5 header: the length in its upper five bits. */
  function Pack5(len: nat): (flags: byte)
    ensures flags % 8 == SDS_TYPE_5 && flags / 8 == len % 32
  {
    len % 32 * 8
  }

  /** sdsReqType; a string of the requested size always fits the chosen header. */
  function ReqType(size: nat): (t: int)
    ensures SDS_TYPE_5 <= t <= SDS_TYPE_64
    ensures size <= ULLONG_MAX ==> size <= MaxLen(t)
  {
    if size < 32 then SDS_TYPE_5
    else if size < 0xff then SDS_TYPE_8
    else if size < 0xffff then SDS_TYPE_16
    else if size < 0xffff_ffff then SDS_TYPE_32
    else SDS_TYPE_64
  }

  /** The allocation that sdsMakeRoomFor asks for. */
  function Grown(needed: nat): (n: nat)
    ensures n >= needed
  {
    if needed < SDS_MAX_PREALLOC then needed * 2 else needed + SDS_MAX_PREALLOC
  }

  /** An argument of sdscatfmt. */
  datatype FmtArg = Str(text: Bytes) | Signed(number: int) | Unsigned(number: int)

  function ArgText(a: FmtArg): Bytes {
    match a
    case Str(text) => text
    case Signed(n) => IntText(n)
    case Unsigned(n) => IntText(n)
  }

  const LOWER_S: byte := 115
  const UPPER_S: byte := 83
  const LOWER_I: byte := 105
  const UPPER_I: byte := 73
  const LOWER_U: byte := 117
  const UPPER_U: byte := 85

  /** The type that the conversion takes its argument as. */
  predicate Fits(conversion: byte, a: FmtArg) {
    if conversion == LOWER_S then a.Str? && NUL !in a.text
    else if conversion == UPPER_S then a.Str?
    else if conversion == LOWER_I then a.Signed? && -INT_MAX - 1 <= a.number <= INT_MAX
    else if conversion == UPPER_I then a.Signed? && InLongLong(a.number)
    else a.Unsigned? && 0 <= a.number <= if conversion == LOWER_U then UINT_MAX else ULLONG_MAX
  }

  predicate TakesArgument(conversion: byte) {
    conversion in {LOWER_S, UPPER_S, LOWER_I, UPPER_I, LOWER_U, UPPER_U}
  }

  /** The arguments are the ones the conversions of the format ask for. */
  predicate FmtOk(fmt: Bytes, args: seq<FmtArg>) {
    if fmt == [] then true
    else if fmt[0] != PERCENT then FmtOk(fmt[1..], args)
    else
      && |fmt| > 1
      && if TakesArgument(fmt[1]) then args != [] && Fits(fmt[1], args[0]) && FmtOk(fmt[2..], args[1..])
         else FmtOk(fmt[2..], args)
  }

  /** The text of a format with its arguments filled in. */
  function Formatted(fmt: Bytes, args: seq<FmtArg>): Bytes
    requires FmtOk(fmt, args)
  {
    if fmt == [] then []
    else if fmt[0] != PERCENT then [fmt[0]] + Formatted(fmt[1..], args)
    else if TakesArgument(fmt[1]) then ArgText(args[0]) + Formatted(fmt[2..], args[1..])
    else [fmt[1]] + Formatted(fmt[2..], args)
  }

  lemma {:induction false} FormattedEnd(fmt: Bytes, args: seq<FmtArg>)
    requires fmt == []
    ensures FmtOk(fmt, args) && Formatted(fmt, args) == []
  {
  }

  class Sds {
    /** The flags byte; for type 5 its upper five bits are the length. */
    var flags: byte
    /** The len and alloc fields of the wider headers. */
    var hdrLen: nat
    var hdrAlloc: nat
    var buf: array<byte>

    predicate HeaderOk()
      reads this
    {
      && flags % 8 <= SDS_TYPE_64 && (flags % 8 != SDS_TYPE_5 ==> flags == flags % 8)
      && Len() <= Alloc() <= MaxLen(flags % 8)
      && Alloc() < buf.Length
    }

    predicate Valid()
      reads this, buf
    {
      HeaderOk() && buf[Len()] == NUL
    }

    function Contents(): Bytes
      requires HeaderOk()
      reads this, buf
    {
      buf[..Len()]
    }

    /** sdslen. */
    function Len(): nat
      reads this
    {
      if flags % 8 == SDS_TYPE_5 then flags / 8 else hdrLen
    }

    /** sdsalloc. */
    function Alloc(): nat
      reads this
    {
      if flags % 8 == SDS_TYPE_5 then flags / 8 else hdrAlloc
    }

    /** sdsavail. */
    function Avail(): (n: int)
      reads this
      ensures HeaderOk() ==> n == Alloc() - Len()
    {
      if flags % 8 == SDS_TYPE_5 then 0 else hdrAlloc - hdrLen
    }

    /** sdssetlen: the value is cut to the width of the header. */
    method SetLen(newlen: nat)
      requires flags % 8 <= SDS_TYPE_64
      modifies this`flags, this`hdrLen
      ensures flags % 8 == old(flags % 8)
      ensures old(flags % 8) != SDS_TYPE_5 ==> flags == old(flags)
      ensures newlen <= MaxLen(flags % 8) ==> Len() == newlen
    {
      if flags % 8 == SDS_TYPE_5 {
        flags := Pack5(newlen);
      } else {
        hdrLen := Cut(newlen, flags % 8);
      }
    }

    /** sdsinclen. */
    method IncLen(inc: nat)
      requires flags % 8 <= SDS_TYPE_64
      modifies this`flags, this`hdrLen
      ensures flags % 8 == old(flags % 8)
      ensures old(flags % 8) != SDS_TYPE_5 ==> flags == old(flags)
      ensures old(Len()) + inc <= MaxLen(flags % 8) ==> Len() == old(Len()) + inc
    {
      if flags % 8 == SDS_TYPE_5 {
        flags := Pack5(flags / 8 + inc % 256);
      } else {
        hdrLen := Cut(hdrLen + inc, flags % 8);
      }
    }

    /** sdssetalloc: type 5 has no field for it. */
    method SetAlloc(newlen: nat)
      requires flags % 8 <= SDS_TYPE_64
      modifies this`hdrAlloc
      ensures flags % 8 != SDS_TYPE_5 && newlen <= MaxLen(flags % 8) ==> Alloc() == newlen
    {
      if flags % 8 != SDS_TYPE_5 {
        hdrAlloc := Cut(newlen, flags % 8);
      }
    }

    /** sdsnewlen; an empty string gets a header of type 8. */
    constructor (init: Bytes)
      requires |init| <= ULLONG_MAX
      ensures Valid() && fresh(buf) && Contents() == init && Alloc() == |init|
    {
      var t := if |init| == 0 then SDS_TYPE_8 else ReqType(|init|);
      flags := if t == SDS_TYPE_5 then Pack5(|init|) else t;
      hdrLen, hdrAlloc := |init|, |init|;
      buf := new byte[|init| + 1](i => if 0 <= i < |init| then init[i] else NUL);
      new;
      assert buf[..|init|] == init;
    }

    /** The header and buffer of a fresh allocation; sdssetlen and sdssetalloc fill in the rest. */
    constructor Allocate(t: int, size: nat)
      requires SDS_TYPE_5 <= t <= SDS_TYPE_64
      ensures flags == t && fresh(buf) && buf.Length == size
    {
      flags, hdrLen, hdrAlloc := t, 0, 0;
      buf := new byte[size](_ => NUL);
    }

    /** s_realloc keeps the header and as many bytes as fit. */
    method Realloc(size: nat)
      modifies this`buf
      ensures fresh(buf) && buf.Length == size
      ensures forall i :: 0 <= i < size && i < old(buf.Length) ==> buf[i] == old(buf[i])
    {
      var bytes := buf;
      buf := new byte[size](i reads bytes => if 0 <= i < bytes.Length then bytes[i] else NUL);
    }

    /**
     Moves or resizes the string into an allocation of `newlen` bytes under a header of type t,
     the common second half of sdsMakeRoomFor and sdsRemoveFreeSpace.
     */
    method Resize(t: int, newlen: nat) returns (s: Sds)
      requires HeaderOk() && Len() <= newlen <= MaxLen(t) && SDS_TYPE_5 <= t <= SDS_TYPE_64
      requires t == SDS_TYPE_5 ==> newlen == Len()
      modifies this
      ensures (s == this || fresh(s)) && fresh(s.buf)
      ensures s.HeaderOk() && s.flags % 8 == t && s.Len() == old(Len()) && s.Alloc() == newlen
      ensures s.buf[..s.Len() + 1] == old(buf[..Len() + 1])
    {
      var len := Len();
      ghost var was := buf[..len + 1];
      if flags % 8 == t {
        Realloc(newlen + 1);
        s := this;
      } else {
        s := new Sds.Allocate(t, newlen + 1);
        forall i | 0 <= i <= len {
          s.buf[i] := buf[i];
        }
        s.SetLen(len);
      }
      s.SetAlloc(newlen);
      assert forall i :: 0 <= i <= len ==> s.buf[i] == was[i];
    }

    /** sdsMakeRoomFor. */
    method MakeRoomFor(addlen: nat) returns (s: Sds)
      requires HeaderOk() && Len() + addlen + SDS_MAX_PREALLOC <= ULLONG_MAX
      modifies this
      ensures s == this || fresh(s)
      ensures s.buf == old(buf) || fresh(s.buf)
      ensures s.HeaderOk() && s.Len() == old(Len()) && s.Avail() >= addlen
      ensures s.buf[..s.Len() + 1] == old(buf[..Len() + 1])
      ensures old(Avail()) >= addlen ==> s == this && s.buf == old(buf) && s.Alloc() == old(Alloc())
      ensures old(Avail()) < addlen ==> s.Alloc() == Grown(old(Len()) + addlen) && s.flags % 8 != SDS_TYPE_5
    {
      if Avail() >= addlen {
        return this;
      }
      var newlen := Len() + addlen;
      if newlen < SDS_MAX_PREALLOC {
        newlen := newlen * 2;
      } else {
        newlen := newlen + SDS_MAX_PREALLOC;
      }
      var t := ReqType(newlen);
      if t == SDS_TYPE_5 {
        t := SDS_TYPE_8;
      }
      s := Resize(t, newlen);
    }

    /** sdsRemoveFreeSpace. */
    method RemoveFreeSpace() returns (s: Sds)
      requires Valid()
      modifies this
      ensures (s == this || fresh(s)) && fresh(s.buf)
      ensures s.Valid() && s.Contents() == old(Contents()) && s.Avail() == 0
    {
      s := Resize(ReqType(Len()), Len());
      assert s.buf[s.Len()] == s.buf[..s.Len() + 1][s.Len()];
      assert s.Contents() == s.buf[..s.Len() + 1][..s.Len()];
      assert old(Contents()) == old(buf[..Len() + 1])[..old(Len())];
    }

    /** sdscatlen. */
    method CatLen(t: Bytes) returns (s: Sds)
      requires Valid() && Len() + |t| + SDS_MAX_PREALLOC <= ULLONG_MAX
      modifies this, buf
      ensures s == this || fresh(s)
      ensures s.buf == old(buf) || fresh(s.buf)
      ensures s.Valid() && s.Contents() == old(Contents()) + t
      ensures old(Avail()) >= |t| ==> s == this && s.Alloc() == old(Alloc())
    {
      var curlen := Len();
      ghost var contents := Contents();
      s := MakeRoomFor(|t|);
      assert s.buf[..curlen] == s.buf[..curlen + 1][..curlen];
      assert contents == old(buf[..Len() + 1])[..curlen];
      assert s.buf[..curlen] == contents;
      s.Write(curlen, t);
      s.SetLen(curlen + |t|);
      s.buf[curlen + |t|] := NUL;
      assert s.buf[..curlen + |t|] == contents + t;
    }

    /** memcpy into the buffer. */
    method Write(at: nat, t: Bytes)
      requires at + |t| <= buf.Length
      modifies buf
      ensures buf[..at] == old(buf[..at]) && buf[at..at + |t|] == t && buf[at + |t|..] == old(buf[at + |t|..])
      ensures buf[..at + |t|] == old(buf[..at]) + t
    {
      forall i | at <= i < at + |t| {
        buf[i] := t[i - at];
      }
    }

    /** sdscpylen. */
    method CpyLen(t: Bytes) returns (s: Sds)
      requires Valid() && |t| + SDS_MAX_PREALLOC <= ULLONG_MAX
      modifies this, buf
      ensures s == this || fresh(s)
      ensures s.buf == old(buf) || fresh(s.buf)
      ensures s.Valid() && s.Contents() == t
    {
      s := this;
      if Alloc() < |t| {
        s := MakeRoomFor(|t| - Len());
      }
      s.Write(0, t);
      s.buf[|t|] := NUL;
      s.SetLen(|t|);
      assert s.buf[..|t|] == t;
    }

    /** The index computations of sdsrange: where the kept bytes start and how many there are. */
    static method Interval(len: nat, start: int, end: int) returns (a: int, newlen: int)
      requires len > 0
      ensures 0 <= newlen && (newlen > 0 ==> 0 <= a && a + newlen <= len)
      ensures forall s: Bytes :: |s| == len ==>
        Range(s, start, end) == if newlen == 0 then [] else s[a..a + newlen]
    {
      a := start;
      var b := end;
      if a < 0 {
        a := len + a;
        if a < 0 { a := 0; }
      }
      if b < 0 {
        b := len + b;
        if b < 0 { b := 0; }
      }
      newlen := if a > b then 0 else b - a + 1;
      if newlen != 0 {
        if a >= len {
          newlen := 0;
        } else if b >= len {
          b := len - 1;
          newlen := if a > b then 0 else b - a + 1;
        }
      } else {
        a := 0;
      }
    }

    /** sdsrange. */
    method SdsRange(start: int, end: int)
      requires Valid() && Len() <= INT_MAX && -INT_MAX <= start <= INT_MAX && -INT_MAX <= end <= INT_MAX
      modifies this`flags, this`hdrLen, buf
      ensures Valid() && buf == old(buf) && Contents() == Range(old(Contents()), start, end)
    {
      ghost var contents := Contents();
      if Len() == 0 {
        return;
      }
      var a, newlen := Interval(Len(), start, end);
      assert newlen <= Len();
      if a != 0 && newlen != 0 {
        forall i | 0 <= i < newlen {
          buf[i] := buf[a + i];
        }
      }
      assert newlen != 0 ==> buf[..newlen] == contents[a..a + newlen];
      ghost var kept := buf[..newlen];
      buf[newlen] := NUL;
      SetLen(newlen);
      assert buf[..newlen] == kept;
    }

    /** Makes room for a piece of sdscatfmt and copies it to the end, without a null term. */
    method Put(text: Bytes) returns (s: Sds)
      requires HeaderOk() && Len() + |text| + SDS_MAX_PREALLOC <= ULLONG_MAX
      modifies this, buf
      ensures s == this || fresh(s)
      ensures s.buf == old(buf) || fresh(s.buf)
      ensures s.HeaderOk() && s.Contents() == old(Contents()) + text
    {
      var i := Len();
      ghost var contents := Contents();
      s := this;
      if Avail() < |text| {
        s := MakeRoomFor(|text|);
      }
      assert s.buf[..i] == s.buf[..i + 1][..i];
      assert contents == old(buf[..Len() + 1])[..i];
      s.Write(i, text);
      s.IncLen(|text|);
    }

    /** Room for one more byte, and nothing else changes. */
    method OneFree() returns (s: Sds)
      requires HeaderOk() && Len() + 1 + SDS_MAX_PREALLOC <= ULLONG_MAX
      modifies this
      ensures s == this || fresh(s)
      ensures s.buf == old(buf) || fresh(s.buf)
      ensures s.HeaderOk() && s.Contents() == old(Contents())
    {
      s := this;
      if Avail() == 0 {
        s := MakeRoomFor(1);
        assert s.Contents() == s.buf[..s.Len() + 1][..s.Len()];
        assert old(Contents()) == old(buf[..Len() + 1])[..old(Len())];
      }
    }

    /** One character or conversion of the format at position f, with the argument at position k. */
    static method NextPiece(fmt: Bytes, f: nat, args: seq<FmtArg>, k: nat) returns (piece: Bytes, f': nat, k': nat)
      requires f < |fmt| && k <= |args| && FmtOk(fmt[f..], args[k..])
      ensures f < f' <= |fmt| && k <= k' <= |args| && FmtOk(fmt[f'..], args[k'..])
      ensures Formatted(fmt[f..], args[k..]) == piece + Formatted(fmt[f'..], args[k'..])
    {
      assert fmt[f..][1..] == fmt[f + 1..];
      if fmt[f] != PERCENT {
        return [fmt[f]], f + 1, k;
      }
      var next := fmt[f + 1];
      assert fmt[f..][1] == next && fmt[f..][2..] == fmt[f + 2..];
      if !TakesArgument(next) {
        return [next], f + 2, k;
      }
      assert args[k..][0] == args[k] && args[k..][1..] == args[k + 1..];
      piece := Convert(args[k]);
      f', k' := f + 2, k + 1;
    }

    /** One turn of sdscatfmt: room for a byte, and the text of the next piece of the format. */
    method FormatPiece(fmt: Bytes, f: nat, args: seq<FmtArg>, k: nat) returns (s: Sds, f': nat, k': nat, ghost piece: Bytes)
      requires HeaderOk() && f < |fmt| && k <= |args| && FmtOk(fmt[f..], args[k..])
      requires Len() + |Formatted(fmt[f..], args[k..])| + SDS_MAX_PREALLOC + 1 <= ULLONG_MAX
      modifies this, buf
      ensures s == this || fresh(s)
      ensures s.buf == old(buf) || fresh(s.buf)
      ensures s.HeaderOk() && s.Contents() == old(Contents()) + piece
      ensures f < f' <= |fmt| && k <= k' <= |args| && FmtOk(fmt[f'..], args[k'..])
      ensures Formatted(fmt[f..], args[k..]) == piece + Formatted(fmt[f'..], args[k'..])
    {
      hide FmtOk, Formatted;
      s := OneFree();
      var text;
      text, f', k' := NextPiece(fmt, f, args, k);
      piece := text;
      s := s.Put(text);
    }

    /** sdscatfmt: at least one free byte at the start of every turn, the null term only at the end. */
    method CatFmt(fmt: Bytes, args: seq<FmtArg>) returns (s: Sds)
      requires Valid() && FmtOk(fmt, args)
      requires Len() + |Formatted(fmt, args)| + SDS_MAX_PREALLOC + 1 <= ULLONG_MAX
      modifies this, buf
      ensures s == this || fresh(s)
      ensures s.buf == old(buf) || fresh(s.buf)
      ensures s.Valid() && s.Contents() == old(Contents()) + Formatted(fmt, args)
    {
      hide FmtOk, Formatted;
      ghost var contents, done := Contents(), [];
      s := this;
      var f, k := 0, 0;
      assert fmt[0..] == fmt && args[0..] == args;
      while f < |fmt|
        invariant 0 <= f <= |fmt| && 0 <= k <= |args| && FmtOk(fmt[f..], args[k..])
        invariant Formatted(fmt, args) == done + Formatted(fmt[f..], args[k..])
        invariant s == this || fresh(s)
        invariant s.buf == old(buf) || fresh(s.buf)
        invariant s.HeaderOk() && s.Contents() == contents + done
        decreases |fmt| - f
      {
        ghost var piece, rest := [], Formatted(fmt[f..], args[k..]);
        s, f, k, piece := s.FormatPiece(fmt, f, args, k);
        assert rest == piece + Formatted(fmt[f..], args[k..]);
        done := done + piece;
      }
      FormattedEnd(fmt[f..], args[k..]);
      assert done + [] == done;
      ghost var text := s.Contents();
      s.buf[s.Len()] := NUL;
      assert s.Contents() == text;
    }

    /** The text of a conversion, numbers by way of a buffer of SDS_LLSTR_SIZE bytes. */
    static method Convert(a: FmtArg) returns (text: Bytes)
      requires a.Str? || (a.Signed? && InLongLong(a.number)) || (a.Unsigned? && 0 <= a.number <= ULLONG_MAX)
      ensures text == ArgText(a)
    {
      match a {
        case Str(t) =>
          return t;
        case Signed(n) =>
          var buf := new byte[21];
          var l := Sdsll2str(buf, n);
          return buf[..l];
        case Unsigned(n) =>
          var buf := new byte[21];
          var l := Sdsull2str(buf, n);
          return buf[..l];
      }
    }
  }
}
