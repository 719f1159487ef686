/**
 Decimal integers as text: the printers of sds.c and hiredis.c and the strict
 parser of read.c, against the canonical decimal spelling of a number.
 */
module Decimal {
  import opened ByteStrings

  /** The canonical decimal spelling of a natural number. */
  function Digits(n: nat): (s: Bytes)
    ensures |s| >= 1
  {
    if n < 10 then [ZERO + n] else Digits(n / 10) + [ZERO + n % 10]
  }

  /** The canonical decimal spelling of an integer. */
  function IntText(v: int): (s: Bytes) {
    if v < 0 then [MINUS] + Digits(-v) else Digits(v)
  }

  predicate IsDigit(c: byte) {
    ZERO <= c <= NINE
  }

  predicate AllDigits(s: Bytes) {
    forall i :: 0 <= i < |s| ==> IsDigit(s[i])
  }

  function ValueOf(s: Bytes): nat
    requires AllDigits(s)
  {
    if s == [] then 0 else ValueOf(s[..|s| - 1]) * 10 + (s[|s| - 1] - ZERO)
  }

  /** A spelling without superfluous zeros. */
  predicate Canonical(s: Bytes) {
    s != [] && AllDigits(s) && (|s| > 1 ==> s[0] != ZERO)
  }

  /** What the strict parser accepts: the number spelled by `s`, if `s` spells a `long long`. */
  function ParseLL(s: Bytes): Option<int> {
    if Canonical(s) && ValueOf(s) <= LLONG_MAX then Some(ValueOf(s))
    else if |s| > 1 && s[0] == MINUS && s[1] != ZERO && Canonical(s[1..]) && 0 - ValueOf(s[1..]) >= LLONG_MIN
    then Some(0 - ValueOf(s[1..]))
    else None
  }

  lemma {:induction false} DigitsAreCanonical(n: nat)
    ensures Canonical(Digits(n)) && ValueOf(Digits(n)) == n
    ensures n > 0 ==> Digits(n)[0] != ZERO
  {
    if n < 10 {
      assert Digits(n)[..0] == [];
    } else {
      DigitsAreCanonical(n / 10);
      assert Digits(n)[..|Digits(n)| - 1] == Digits(n / 10);
    }
  }

  lemma {:induction false} CanonicalIsDigits(s: Bytes)
    requires Canonical(s)
    ensures Digits(ValueOf(s)) == s
    ensures s[0] != ZERO ==> ValueOf(s) > 0
  {
    var front := s[..|s| - 1];
    if front == [] {
      assert ValueOf(front) == 0;
    } else {
      CanonicalIsDigits(front);
      assert s == front + [s[|s| - 1]];
    }
  }

  lemma {:induction false} ValueGrows(s: Bytes, k: nat)
    requires AllDigits(s) && k <= |s|
    ensures ValueOf(s[..k]) <= ValueOf(s)
  {
    if k < |s| {
      ValueGrows(s[..|s| - 1], k);
      assert s[..|s| - 1][..k] == s[..k];
    } else {
      assert s[..k] == s;
    }
  }

  /** Printing a 64-bit number and parsing it back. */
  lemma {:induction false} ParseLLOfIntText(v: int)
    requires InLongLong(v)
    ensures ParseLL(IntText(v)) == Some(v)
  {
    if v < 0 {
      DigitsAreCanonical(-v);
      hide Digits, ValueOf;
      var s := IntText(v);
      assert s[1..] == Digits(-v);
      assert s[0] == MINUS && s[1] == Digits(-v)[0];
      assert !Canonical(s);
    } else {
      DigitsAreCanonical(v);
    }
  }

  /** The strict parser accepts exactly the canonical spellings of the 64-bit range. */
  lemma {:induction false} ParseLLExact(s: Bytes, v: int)
    ensures ParseLL(s) == Some(v) <==> InLongLong(v) && s == IntText(v)
  {
    if InLongLong(v) && s == IntText(v) {
      ParseLLOfIntText(v);
    }
    if ParseLL(s) == Some(v) {
      ParseLLMeansText(s, v);
    }
  }

  lemma {:induction false} ParseLLMeansText(s: Bytes, v: int)
    requires ParseLL(s) == Some(v)
    ensures InLongLong(v) && s == IntText(v)
  {
    if Canonical(s) {
      CanonicalIsDigits(s);
    } else {
      CanonicalIsDigits(s[1..]);
      hide Digits, ValueOf;
      assert s == [MINUS] + s[1..];
    }
  }

  lemma {:induction false} IntTextInjective(v: int, w: int)
    requires IntText(v) == IntText(w)
    ensures v == w
  {
    DigitsAreCanonical(if v < 0 then -v else v);
    DigitsAreCanonical(if w < 0 then -w else w);
    assert v < 0 ==> IntText(v)[1..] == Digits(-v);
    assert w < 0 ==> IntText(w)[1..] == Digits(-w);
  }

  /** No line break hides in a number. */
  lemma {:induction false} IntTextBytes(v: int)
    ensures forall i :: 0 <= i < |IntText(v)| ==> IntText(v)[i] == MINUS || IsDigit(IntText(v)[i])
  {
    DigitsAreCanonical(if v < 0 then -v else v);
  }

  function Pow10(k: nat): (p: nat)
    ensures p >= 1
  {
    if k == 0 then 1 else 10 * Pow10(k - 1)
  }

  /** The spelling of n has k digits exactly when 10^(k-1) <= n < 10^k (n = 0 counts as one digit). */
  lemma {:induction false} DigitCount(n: nat, k: nat)
    requires k >= 1
    ensures |Digits(n)| <= k <==> n < Pow10(k)
  {
    if k == 1 {
      assert Pow10(1) == 10 * Pow10(0);
    } else if n < 10 {
      assert Pow10(k) == 10 * Pow10(k - 1);
    } else {
      DigitCount(n / 10, k - 1);
      assert Pow10(k) == 10 * Pow10(k - 1);
    }
  }

  /** A 64-bit number never needs more than 20 characters, sign included. */
  lemma {:induction false} IntTextWidth(v: int)
    requires LLONG_MIN <= v <= ULLONG_MAX
    ensures |IntText(v)| <= 20
  {
    if v < 0 {
      Pow10Of19();
      DigitCount(-v, 19);
    } else {
      Pow10Of19();
      DigitCount(v, 20);
    }
  }

  lemma {:induction false} Pow10Of19()
    ensures Pow10(19) == 10_000_000_000_000_000_000
    ensures Pow10(20) == 100_000_000_000_000_000_000
  {
    assert Pow10(4) == 10_000;
    assert Pow10(8) == 100_000_000;
    assert Pow10(12) == 1_000_000_000_000;
    assert Pow10(16) == 10_000_000_000_000_000;
  }

  /** Unsigned 64-bit arithmetic. */
  function Wrap64(x: int): (u: int)
    ensures 0 <= u <= ULLONG_MAX
    ensures 0 <= x <= ULLONG_MAX ==> u == x
    ensures -ULLONG_MAX - 1 <= x < 0 ==> u == x + ULLONG_MAX + 1
  {
    x % (ULLONG_MAX + 1)
  }

  lemma {:induction false} NextDigit(d: Bytes, k: nat, v: int)
    requires k < |d| && IsDigit(d[k]) && AllDigits(d[..k]) && v == ValueOf(d[..k])
    ensures AllDigits(d[..k + 1]) && ValueOf(d[..k + 1]) == v * 10 + (d[k] - ZERO)
  {
    assert d[..k + 1][..k] == d[..k];
  }

  /** string2ll: unsigned arithmetic is written out, so its overflow tests are what keep `v` exact. */
  method String2ll(s: Bytes) returns (r: Option<int>)
    ensures r == ParseLL(s)
  {
    var slen := |s|;
    var plen := 0;
    var negative := false;
    if plen == slen {
      return None;
    }
    if slen == 1 && s[0] == ZERO {
      assert ValueOf(s[..0]) == 0;
      assert ValueOf(s) == 0;
      return Some(0);
    }
    if s[0] == MINUS {
      negative := true;
      plen := plen + 1;
      if plen == slen {
        return None;
      }
    }
    var v: int;
    if ZERO + 1 <= s[plen] <= NINE {
      v := s[plen] - ZERO;
      plen := plen + 1;
    } else if s[plen] == ZERO && slen == 1 {
      return Some(0);
    } else {
      return None;
    }

    ghost var start := if negative then 1 else 0;
    ghost var d := s[start..];
    assert !negative ==> d == s;
    assert d[..0] == [];
    assert d[..1][..0] == [];
    while plen < slen && IsDigit(s[plen])
      invariant start + 1 <= plen <= slen
      invariant AllDigits(d[..plen - start])
      invariant 0 <= v <= ULLONG_MAX && v == ValueOf(d[..plen - start])
    {
      ghost var k := plen - start;
      NextDigit(d, k, v);
      if v > ULLONG_MAX / 10 {
        TooBig(d, k + 1);
        return None;
      }
      v := Wrap64(v * 10);
      if v > ULLONG_MAX - (s[plen] - ZERO) {
        TooBig(d, k + 1);
        return None;
      }
      v := Wrap64(v + (s[plen] - ZERO));
      plen := plen + 1;
    }

    if plen < slen {
      return None;
    }
    assert d[..plen - start] == d;
    if negative {
      if v > -(LLONG_MIN + 1) + 1 {
        return None;
      }
      r := Some(AsLongLong(Wrap64(-v)));
    } else {
      if v > LLONG_MAX {
        return None;
      }
      r := Some(AsLongLong(v));
    }
  }

  /** Once a digit prefix exceeds the unsigned range, no continuation can spell a `long long`. */
  lemma {:induction false} TooBig(d: Bytes, k: nat)
    requires k <= |d| && AllDigits(d[..k]) && ValueOf(d[..k]) > ULLONG_MAX
    ensures AllDigits(d) ==> ValueOf(d) > ULLONG_MAX
  {
    if AllDigits(d) {
      ValueGrows(d, k);
    }
  }

  function Reversed(s: Bytes): (r: Bytes)
    ensures |r| == |s|
    ensures forall i :: 0 <= i < |s| ==> r[i] == s[|s| - 1 - i]
  {
    if s == [] then [] else Reversed(s[1..]) + [s[0]]
  }

  lemma {:induction false} ReversedSnoc(s: Bytes, c: byte)
    ensures Reversed(s + [c]) == [c] + Reversed(s)
  {
  }

  lemma {:induction false} ReversedTwice(s: Bytes)
    ensures Reversed(Reversed(s)) == s
  {
  }

  /** The in-place reversal shared by both printers. */
  method ReverseInPlace(s: array<byte>, l: nat)
    requires 1 <= l <= s.Length
    modifies s
    ensures s[..l] == Reversed(old(s[..l]))
    ensures s[l..] == old(s[l..])
  {
    var i, p := 0, l - 1;
    while i < p
      invariant 0 <= i <= l && p == l - 1 - i && i <= p + 1
      invariant forall k :: 0 <= k < i ==> s[k] == old(s[l - 1 - k]) && s[l - 1 - k] == old(s[k])
      invariant forall k :: i <= k <= p ==> s[k] == old(s[k])
      invariant forall k :: l <= k < s.Length ==> s[k] == old(s[k])
    {
      var aux := s[i];
      s[i] := s[p];
      s[p] := aux;
      i, p := i + 1, p - 1;
    }
    assert s[..l] == Reversed(old(s[..l]));
  }

  /** The do-while loop shared by both printers: digits least significant first. */
  method WriteReversed(s: array<byte>, value: nat) returns (l: nat)
    requires |Digits(value)| <= 20 < s.Length
    modifies s
    ensures 1 <= l <= 20 && s[..l] == Reversed(Digits(value))
    ensures s[l..] == old(s[l..])
  {
    var v := value;
    l := 0;
    assert Reversed([]) == [] && s[..0] == [];
    while true
      invariant v >= 0 && 0 <= l < |Digits(value)|
      invariant Digits(value) == Digits(v) + Reversed(s[..l])
      invariant s[l..] == old(s[l..])
      decreases v
    {
      ghost var low := s[..l];
      AppendDigit(low, v, value);
      ghost var rest := s[l..];
      s[l] := ZERO + v % 10;
      l := l + 1;
      assert s[..l] == low + [ZERO + v % 10];
      assert s[l..] == rest[1..];
      if v / 10 == 0 {
        ReversedTwice(s[..l]);
        return;
      }
      v := v / 10;
    }
  }

  lemma {:induction false} AppendDigit(low: Bytes, v: nat, value: nat)
    requires Digits(value) == Digits(v) + Reversed(low)
    ensures v >= 10 ==> Digits(value) == Digits(v / 10) + Reversed(low + [ZERO + v % 10])
    ensures v < 10 ==> Digits(value) == Reversed(low + [ZERO + v % 10])
  {
    ReversedSnoc(low, ZERO + v % 10);
  }

  /** The common ending: null term, then the reversal in place. */
  method Finish(s: array<byte>, l: nat, ghost text: Bytes)
    requires 1 <= l < s.Length && s[..l] == Reversed(text)
    modifies s
    ensures s[..l] == text && s[l] == NUL
    ensures s[l + 1..] == old(s[l + 1..])
  {
    label W:
    s[l] := NUL;
    assert s[..l] == old@W(s[..l]);
    ghost var kept := s[l..];
    ReverseInPlace(s, l);
    ReversedTwice(text);
    assert s[l] == kept[0];
    assert s[l + 1..] == kept[1..];
  }

  /** sdsull2str: the text of an unsigned number, with its terminator. */
  method Sdsull2str(s: array<byte>, value: int) returns (l: nat)
    requires 0 <= value <= ULLONG_MAX
    requires s.Length >= 21
    modifies s
    ensures l <= 20 && s[..l] == IntText(value) && s[l] == NUL
    ensures s[l + 1..] == old(s[l + 1..])
  {
    IntTextWidth(value);
    l := WriteReversed(s, value);
    ghost var kept := s[l..];
    Finish(s, l, Digits(value));
    assert s[l + 1..] == kept[1..];
  }

  /** sdsll2str: the magnitude of LLONG_MIN is taken mathematically. */
  method Sdsll2str(s: array<byte>, value: int) returns (l: nat)
    requires InLongLong(value)
    requires s.Length >= 21
    modifies s
    ensures l <= 20 && s[..l] == IntText(value) && s[l] == NUL
    ensures s[l + 1..] == old(s[l + 1..])
  {
    IntTextWidth(value);
    l := WriteReversed(s, if value < 0 then -value else value);
    if value < 0 {
      ghost var low := s[..l];
      ghost var kept := s[l..];
      s[l] := MINUS;
      l := l + 1;
      ReversedMinus(-value);
      assert s[..l] == low + [MINUS];
      assert s[l..] == kept[1..];
    }
    ghost var kept := s[l..];
    Finish(s, l, IntText(value));
    assert s[l + 1..] == kept[1..];
  }

  lemma {:induction false} ReversedMinus(v: nat)
    ensures Reversed([MINUS] + Digits(v)) == Reversed(Digits(v)) + [MINUS]
  {
    assert ([MINUS] + Digits(v))[1..] == Digits(v);
  }

  /** countDigits: four digits a turn. */
  method CountDigits(value: int) returns (result: nat)
    requires 0 <= value <= ULLONG_MAX
    ensures result == |Digits(value)|
  {
    var v := value;
    result := 1;
    while true
      invariant v >= 0
      invariant |Digits(value)| == |Digits(v)| + result - 1
      decreases v
    {
      assert Pow10(1) == 10 && Pow10(2) == 100 && Pow10(3) == 1000 && Pow10(4) == 10000;
      DigitCount(v, 1);
      DigitCount(v, 2);
      DigitCount(v, 3);
      DigitCount(v, 4);
      if v < 10 { return result; }
      if v < 100 { return result + 1; }
      if v < 1000 { return result + 2; }
      if v < 10000 { return result + 3; }
      FourDigits(v);
      v := v / 10000;
      result := result + 4;
    }
  }

  lemma {:induction false} FourDigits(v: nat)
    requires v >= 10000
    ensures |Digits(v)| == |Digits(v / 10000)| + 4
  {
    assert |Digits(v)| == |Digits(v / 10)| + 1;
    assert |Digits(v / 10)| == |Digits(v / 10 / 10)| + 1;
    assert |Digits(v / 10 / 10)| == |Digits(v / 10 / 10 / 10)| + 1;
    assert v / 10 / 10 / 10 / 10 == v / 10000;
  }
}
