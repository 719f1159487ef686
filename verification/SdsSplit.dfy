/**
 sdssplitlen and sdsjoinsds: cutting a string at a separator and joining the pieces again.
 */
module SdsSplit {
  import opened ByteStrings
  import opened SdsStrings

  predicate OccursAt(s: Bytes, sep: Bytes, i: nat) {
    i + |sep| <= |s| && s[i..i + |sep|] == sep
  }

  /** The leftmost occurrence of the separator. */
  function FirstOccurrence(s: Bytes, sep: Bytes): (r: Option<nat>)
    requires sep != []
    ensures r.Some? ==> OccursAt(s, sep, r.value)
    ensures forall i :: 0 <= i && OccursAt(s, sep, i) ==> r.Some? && r.value <= i
  {
    if |s| < |sep| then None
    else if OccursAt(s, sep, 0) then Some(0)
    else
      var r := FirstOccurrence(s[1..], sep);
      assert forall i :: 0 < i && OccursAt(s, sep, i) ==> OccursAt(s[1..], sep, i - 1) by {
        forall i | 0 < i && OccursAt(s, sep, i) ensures OccursAt(s[1..], sep, i - 1) {
          assert s[1..][i - 1..i - 1 + |sep|] == s[i..i + |sep|];
        }
      }
      assert r.Some? ==> s[1..][r.value..r.value + |sep|] == s[r.value + 1..r.value + 1 + |sep|];
      if r.Some? then Some(r.value + 1) else None
  }

  /** The pieces between separators, searched from the left. */
  function SplitOn(s: Bytes, sep: Bytes): (tokens: seq<Bytes>)
    requires sep != []
    ensures tokens != []
    decreases |s|
  {
    match FirstOccurrence(s, sep)
    case None => [s]
    case Some(n) => [s[..n]] + SplitOn(s[n + |sep|..], sep)
  }

  function JoinWith(parts: seq<Bytes>, sep: Bytes): Bytes {
    if parts == [] then []
    else if |parts| == 1 then parts[0]
    else parts[0] + sep + JoinWith(parts[1..], sep)
  }

  /** Joining the pieces with the separator gives the string back. */
  lemma {:induction false} SplitThenJoin(s: Bytes, sep: Bytes)
    requires sep != []
    ensures JoinWith(SplitOn(s, sep), sep) == s
    decreases |s|
  {
    match FirstOccurrence(s, sep)
    case None =>
    case Some(n) =>
      var rest := s[n + |sep|..];
      SplitThenJoin(rest, sep);
      assert SplitOn(s, sep)[1..] == SplitOn(rest, sep);
      assert s == s[..n] + sep + rest;
  }

  /** No piece holds a separator. */
  lemma {:induction false} TokensAreFree(s: Bytes, sep: Bytes, i: nat, j: nat)
    requires sep != [] && i < |SplitOn(s, sep)|
    ensures !OccursAt(SplitOn(s, sep)[i], sep, j)
    decreases |s|
  {
    match FirstOccurrence(s, sep)
    case None =>
    case Some(n) =>
      if i == 0 {
        FrontIsFree(s, sep, n, j);
      } else {
        TokensAreFree(s[n + |sep|..], sep, i - 1, j);
      }
  }

  lemma {:induction false} FrontIsFree(s: Bytes, sep: Bytes, n: nat, j: nat)
    requires sep != [] && FirstOccurrence(s, sep) == Some(n)
    ensures !OccursAt(s[..n], sep, j)
  {
    if OccursAt(s[..n], sep, j) {
      assert s[..n][j..j + |sep|] == s[j..j + |sep|];
      assert OccursAt(s, sep, j);
    }
  }

  lemma {:induction false} JoinSnoc(parts: seq<Bytes>, last: Bytes, sep: Bytes)
    requires parts != []
    ensures JoinWith(parts + [last], sep) == JoinWith(parts, sep) + sep + last
  {
    if |parts| == 1 {
      assert (parts + [last])[1..] == [last];
    } else {
      assert (parts + [last])[1..] == parts[1..] + [last];
      JoinSnoc(parts[1..], last, sep);
      assert parts[0] + sep + (JoinWith(parts[1..], sep) + sep + last)
          == parts[0] + sep + JoinWith(parts[1..], sep) + sep + last;
    }
  }

  /** The separator test at position j: a byte comparison for one-byte separators, memcmp otherwise. */
  method IsSeparator(s: Bytes, sep: Bytes, j: nat) returns (found: bool)
    requires sep != [] && j + |sep| <= |s|
    ensures found == OccursAt(s, sep, j)
  {
    if |sep| == 1 && s[j] == sep[0] {
      assert s[j..j + 1] == sep;
      return true;
    }
    return s[j..j + |sep|] == sep;
  }

  /** s_realloc of the token vector to twice the slots. */
  method Double(tokens: array<Bytes>) returns (grown: array<Bytes>)
    ensures fresh(grown) && grown.Length == 2 * tokens.Length
    ensures grown[..tokens.Length] == tokens[..]
  {
    grown := new Bytes[2 * tokens.Length](i reads tokens => if 0 <= i < tokens.Length then tokens[i] else []);
  }

  /** Where the scan stands: the tokens found so far, and no separator from `start` up to j. */
  ghost predicate Scanned(s: Bytes, sep: Bytes, tokens: seq<Bytes>, start: nat, j: nat)
    requires sep != []
  {
    && start <= |s|
    && tokens + SplitOn(s[start..], sep) == SplitOn(s, sep)
    && forall i :: 0 <= i && start + i < j ==> !OccursAt(s[start..], sep, i)
  }

  lemma {:induction false} ScanHit(s: Bytes, sep: Bytes, tokens: seq<Bytes>, start: nat, j: nat)
    requires sep != [] && Scanned(s, sep, tokens, start, j) && start <= j && OccursAt(s, sep, j)
    ensures Scanned(s, sep, tokens + [s[start..j]], j + |sep|, j + |sep|)
  {
    hide FirstOccurrence, OccursAt;
    HitIsFirst(s, sep, tokens, start, j);
    var rest := s[start..];
    assert rest[..j - start] == s[start..j] && rest[j - start + |sep|..] == s[j + |sep|..];
    assert SplitOn(rest, sep) == [s[start..j]] + SplitOn(s[j + |sep|..], sep);
    assert tokens + [s[start..j]] + SplitOn(s[j + |sep|..], sep) == tokens + ([s[start..j]] + SplitOn(s[j + |sep|..], sep));
  }

  lemma {:induction false} HitIsFirst(s: Bytes, sep: Bytes, tokens: seq<Bytes>, start: nat, j: nat)
    requires sep != [] && Scanned(s, sep, tokens, start, j) && start <= j && OccursAt(s, sep, j)
    ensures j + |sep| <= |s| && FirstOccurrence(s[start..], sep) == Some(j - start)
  {
    hide FirstOccurrence, SplitOn;
    var rest := s[start..];
    assert rest[j - start..j - start + |sep|] == s[j..j + |sep|];
    assert OccursAt(rest, sep, j - start);
  }

  lemma {:induction false} ScanMiss(s: Bytes, sep: Bytes, tokens: seq<Bytes>, start: nat, j: nat)
    requires sep != [] && Scanned(s, sep, tokens, start, j) && start <= j && j + |sep| <= |s| && !OccursAt(s, sep, j)
    ensures Scanned(s, sep, tokens, start, j + 1)
  {
    hide SplitOn, OccursAt;
    OccursInRest(s, sep, start, j);
    forall i | 0 <= i && start + i < j + 1
      ensures !OccursAt(s[start..], sep, i)
    {
      assert i == j - start || start + i < j;
    }
  }

  lemma {:induction false} OccursInRest(s: Bytes, sep: Bytes, start: nat, j: nat)
    requires start <= j && j + |sep| <= |s|
    ensures OccursAt(s[start..], sep, j - start) == OccursAt(s, sep, j)
  {
    assert s[start..][j - start..j - start + |sep|] == s[j..j + |sep|];
  }

  lemma {:induction false} ScanEnd(s: Bytes, sep: Bytes, tokens: seq<Bytes>, start: nat, j: nat)
    requires sep != [] && Scanned(s, sep, tokens, start, j) && j + |sep| > |s|
    ensures tokens + [s[start..]] == SplitOn(s, sep)
  {
    assert FirstOccurrence(s[start..], sep) == None;
  }

  /** sdssplitlen: null for an empty separator, no token for an empty string. */
  method SplitLen(s: Bytes, sep: Bytes) returns (tokens: array?<Bytes>, count: nat)
    requires |s| <= INT_MAX && |sep| <= INT_MAX
    ensures tokens == null <==> sep == []
    ensures tokens != null ==> fresh(tokens) && count <= tokens.Length
    ensures tokens != null ==> tokens[..count] == if s == [] then [] else SplitOn(s, sep)
  {
    hide SplitOn, FirstOccurrence, Scanned, OccursAt;
    var elements, slots, start, j := 0, 5, 0, 0;
    if |sep| < 1 {
      return null, 0;
    }
    var vector := new Bytes[slots](_ => []);
    if |s| == 0 {
      return vector, 0;
    }
    ScanStart(s, sep);
    assert vector[..0] == [];
    while j < |s| - (|sep| - 1)
      invariant 0 <= elements < slots == vector.Length && fresh(vector)
      invariant 0 <= start <= j && start <= |s|
      invariant Scanned(s, sep, vector[..elements], start, j)
      decreases |s| - j
    {
      if slots < elements + 2 {
        ghost var found := vector[..elements];
        slots := slots * 2;
        vector := Double(vector);
        assert vector[..elements] == found;
      }
      var found := IsSeparator(s, sep, j);
      if found {
        ScanHit(s, sep, vector[..elements], start, j);
        ghost var before := vector[..elements];
        vector[elements] := s[start..j];
        elements := elements + 1;
        assert vector[..elements] == before + [s[start..j]];
        ScanBound(s, sep, vector[..elements], j + |sep|);
        start := j + |sep|;
        j := j + |sep| - 1;
      } else {
        ScanMiss(s, sep, vector[..elements], start, j);
      }
      j := j + 1;
    }
    ScanEnd(s, sep, vector[..elements], start, j);
    ghost var before := vector[..elements];
    vector[elements] := s[start..];
    elements := elements + 1;
    assert vector[..elements] == before + [s[start..]];
    return vector, elements;
  }

  lemma {:induction false} ScanStart(s: Bytes, sep: Bytes)
    requires sep != []
    ensures Scanned(s, sep, [], 0, 0)
  {
    assert s[0..] == s;
    assert [] + SplitOn(s, sep) == SplitOn(s, sep);
  }

  lemma {:induction false} ScanBound(s: Bytes, sep: Bytes, tokens: seq<Bytes>, start: nat)
    requires sep != [] && Scanned(s, sep, tokens, start, start)
    ensures start <= |s|
  {
  }

  /** sdsjoinsds, from an empty string. */
  method JoinSds(argv: seq<Bytes>, sep: Bytes) returns (join: Sds)
    requires |JoinWith(argv, sep)| + |sep| + SDS_MAX_PREALLOC <= ULLONG_MAX
    ensures fresh(join) && fresh(join.buf) && join.Valid() && join.Contents() == JoinWith(argv, sep)
  {
    join := new Sds([]);
    for j := 0 to |argv|
      invariant fresh(join) && fresh(join.buf) && join.Valid()
      invariant join.Contents() == if j == 0 then [] else if j == |argv| then JoinWith(argv, sep) else JoinWith(argv[..j], sep) + sep
    {
      JoinPrefix(argv, sep, j);
      join := join.CatLen(argv[j]);
      if j != |argv| - 1 {
        join := join.CatLen(sep);
      }
    }
  }

  /** What the first j + 1 pieces make of the first j. */
  lemma {:induction false} JoinPrefix(argv: seq<Bytes>, sep: Bytes, j: nat)
    requires j < |argv|
    ensures JoinWith(argv[..j + 1], sep) == (if j == 0 then [] else JoinWith(argv[..j], sep) + sep) + argv[j]
    ensures |JoinWith(argv[..j + 1], sep)| <= |JoinWith(argv, sep)|
    ensures j + 1 == |argv| ==> argv[..j + 1] == argv
    decreases |argv| - j
  {
    assert argv[..j + 1] == argv[..j] + [argv[j]];
    if j > 0 {
      JoinSnoc(argv[..j], argv[j], sep);
    } else {
      assert argv[..1] == [argv[0]];
    }
    if j + 1 < |argv| {
      JoinPrefix(argv, sep, j + 1);
    } else {
      assert argv[..j + 1] == argv;
    }
  }

  /** Splitting a non-empty string and joining the tokens again is the identity. */
  method SplitAndJoin(s: Bytes, sep: Bytes) returns (join: Sds)
    requires |s| <= INT_MAX && 0 < |sep| <= INT_MAX
    ensures join.Valid() && join.Contents() == s
  {
    var tokens, count := SplitLen(s, sep);
    SplitThenJoin(s, sep);
    join := JoinSds(tokens[..count], sep);
  }
}
