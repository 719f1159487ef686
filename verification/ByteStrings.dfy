/**
 Bytes, byte strings, and the few characters the protocols give a meaning to.
 */
module ByteStrings {

  type byte = b: int | 0 <= b < 256

  type Bytes = seq<byte>

  datatype Option<+T> = None | Some(value: T)

  const NUL: byte := 0
  const LF: byte := 10
  const CR: byte := 13
  const SPACE: byte := 32
  const QUOTE: byte := 34
  const HASH: byte := 35
  const DOLLAR: byte := 36
  const PERCENT: byte := 37
  const APOSTROPHE: byte := 39
  const STAR: byte := 42
  const PLUS: byte := 43
  const COMMA: byte := 44
  const MINUS: byte := 45
  const ZERO: byte := 48
  const NINE: byte := 57
  const COLON: byte := 58
  const BACKSLASH: byte := 92
  const UNDERSCORE: byte := 95
  const TILDE: byte := 126

  const CRLF: Bytes := [CR, LF]

  /** The widths the C sources compute in. */
  const INT_MAX: int := 0x7fff_ffff
  const UINT_MAX: int := 0xffff_ffff
  const LLONG_MAX: int := 0x7fff_ffff_ffff_ffff
  const LLONG_MIN: int := -0x8000_0000_0000_0000
  const ULLONG_MAX: int := 0xffff_ffff_ffff_ffff

  predicate InLongLong(v: int) {
    LLONG_MIN <= v <= LLONG_MAX
  }

  /** The conversion of an unsigned 64-bit word to `long long` (two's complement). */
  function AsLongLong(u: int): (v: int)
    requires 0 <= u <= ULLONG_MAX
    ensures InLongLong(v)
  {
    if u <= LLONG_MAX then u else u - (ULLONG_MAX + 1)
  }

  /**
   The bytes from index `start` to index `end`, both included, where a negative index counts
   from the end of the string and one that is still negative then means the first byte.
   */
  function Range(s: Bytes, start: int, end: int): Bytes {
    var a := FromEnd(start, |s|);
    var b := FromEnd(end, |s|);
    if a > b || a >= |s| then [] else if b >= |s| then s[a..] else s[a..b + 1]
  }

  function FromEnd(i: int, n: nat): nat {
    if i >= 0 then i else if n + i < 0 then 0 else n + i
  }

  /** Concatenation of a list of byte strings. */
  function Concat(parts: seq<Bytes>): Bytes {
    if parts == [] then [] else parts[0] + Concat(parts[1..])
  }

  lemma {:induction false} ConcatSnoc(parts: seq<Bytes>, last: Bytes)
    ensures Concat(parts + [last]) == Concat(parts) + last
  {
    if parts == [] {
      assert parts + [last] == [last];
      assert Concat([last]) == last + Concat([]);
    } else {
      assert (parts + [last])[1..] == parts[1..] + [last];
      ConcatSnoc(parts[1..], last);
    }
  }
}
