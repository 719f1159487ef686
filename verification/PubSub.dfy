/**
 The publish/subscribe bookkeeping of async.c: how a formatted command is recognised as
 (P)SUBSCRIBE, (P)UNSUBSCRIBE or MONITOR, and how the tables of subscription callbacks count
 the subscribe replies that are still to come.
 */
module PubSub {
  import opened ByteStrings
  import opened RespEncode
  import opened Commands
  import opened CommandScan

  /** A registered callback: a function or NULL, its private data, and the pending subscribe replies. */
  datatype Callback = Callback(fn: Option<int>, data: int, pending: int)

  type Table = map<Bytes, Callback>

  const SUBSCRIBE: Bytes := [115, 117, 98, 115, 99, 114, 105, 98, 101]
  const UNSUBSCRIBE: Bytes := [117, 110] + SUBSCRIBE
  const MONITOR: Bytes := [109, 111, 110, 105, 116, 111, 114]
  const LOWER_P: byte := 112

  function Lower(c: byte): byte {
    if 65 <= c <= 90 then c + 32 else c
  }

  /** strncasecmp(s + at, word, |word|) == 0, for a lower-case word. */
  predicate StartsAt(s: Bytes, at: nat, word: Bytes) {
    at + |word| <= |s| && forall i :: 0 <= i < |word| ==> Lower(s[at + i]) == word[i]
  }

  /** What a command means to the client. */
  datatype Request = Subscribe(pattern: bool) | Unsubscribe | Monitor | Regular

  /** Whether the name, ended by CR LF, starts with the word ended by CR LF. */
  predicate Names(name: Bytes, word: Bytes) {
    StartsAt(name + CRLF, 0, word + CRLF)
  }

  predicate PVariant(name: Bytes) {
    name != [] && Lower(name[0]) == LOWER_P
  }

  function BareName(name: Bytes): Bytes {
    if PVariant(name) then name[1..] else name
  }

  /** A command has at least one argument: nextArgument is asserted to find the first. */
  function Classify(argv: seq<Bytes>): (r: Request)
    ensures r.Subscribe? ==> |argv| > 1
  {
    var name := if argv == [] then [] else BareName(argv[0]);
    if |argv| > 1 && Names(name, SUBSCRIBE) then Subscribe(PVariant(argv[0]))
    else if Names(name, UNSUBSCRIBE) then Unsubscribe
    else if Names(name, MONITOR) then Monitor
    else Regular
  }

  // ----- Which words these are, letter by letter -----

  /** The text agrees with a lower-case word letter by letter, in either case. */
  predicate Agrees(text: Bytes, word: Bytes) {
    |text| == |word| && forall i :: 0 <= i < |word| ==> text[i] == word[i] || text[i] as int == word[i] as int - 32
  }

  /** The text is the word, or the word and then a line end, behind which nothing is looked at. */
  predicate IsWord(text: Bytes, word: Bytes) {
    || Agrees(text, word)
    || (|text| >= |word| + 2 && Agrees(text[..|word|], word) && text[|word|] == 13 && text[|word| + 1] == 10)
  }

  /** What is behind a first letter p or P. */
  function Unprefixed(text: Bytes): Bytes {
    if text != [] && (text[0] == 112 || text[0] == 80) then text[1..] else text
  }

  lemma {:induction false} NamesIffWord(name: Bytes, word: Bytes)
    requires forall i :: 0 <= i < |word| ==> 97 <= word[i] <= 122
    ensures Names(name, word) <==> IsWord(name, word)
  {
    var s, w := name + CRLF, word + CRLF;
    if Names(name, word) {
      assert forall i :: 0 <= i < |w| ==> Lower(s[i]) == w[i];
      assert w[|word|] == 13 && w[|word| + 1] == 10;
      forall i | 0 <= i < |word|
        ensures i < |name| && (name[i] == word[i] || name[i] as int == word[i] as int - 32)
      {
        assert Lower(s[i]) == word[i];
      }
    }
    if IsWord(name, word) {
      forall i | 0 <= i < |w|
        ensures Lower(s[i]) == w[i]
      {
        assert i < |word| ==> name[i] == word[i] || name[i] as int == word[i] as int - 32;
      }
    }
  }

  /** A text is no two of the words. */
  lemma {:induction false} OneWordOnly(text: Bytes, a: Bytes, b: Bytes)
    requires a != [] && b != [] && 97 <= a[0] <= 122 && 97 <= b[0] <= 122 && a[0] != b[0]
    ensures !(IsWord(text, a) && IsWord(text, b))
  {
  }

  /**
   What a command means, by the letters of its first argument: SUBSCRIBE with a name, UNSUBSCRIBE and
   MONITOR in any mixture of cases and with or without a P in front; everything else is ordinary.
   */
  lemma {:induction false} ClassifyIs(argv: seq<Bytes>)
    requires argv != []
    ensures var name := Unprefixed(argv[0]);
      var subscribe := [115, 117, 98, 115, 99, 114, 105, 98, 101];
      var unsubscribe := [117, 110, 115, 117, 98, 115, 99, 114, 105, 98, 101];
      var monitor := [109, 111, 110, 105, 116, 111, 114];
      && (Classify(argv) == Subscribe(name != argv[0]) <==> |argv| > 1 && IsWord(name, subscribe))
      && (Classify(argv) == Unsubscribe <==> IsWord(name, unsubscribe))
      && (Classify(argv) == Monitor <==> IsWord(name, monitor))
      && (Classify(argv) == Regular <==>
        !(|argv| > 1 && IsWord(name, subscribe)) && !IsWord(name, unsubscribe) && !IsWord(name, monitor))
  {
    hide Names, IsWord;
    var name := Unprefixed(argv[0]);
    var subscribe := [115, 117, 98, 115, 99, 114, 105, 98, 101];
    var unsubscribe := [117, 110, 115, 117, 98, 115, 99, 114, 105, 98, 101];
    var monitor := [109, 111, 110, 105, 116, 111, 114];
    assert UNSUBSCRIBE == unsubscribe;
    assert name == BareName(argv[0]) && (name != argv[0] <==> PVariant(argv[0]));
    NamesIffWord(name, subscribe);
    NamesIffWord(name, unsubscribe);
    NamesIffWord(name, monitor);
    OneWordOnly(name, subscribe, unsubscribe);
    OneWordOnly(name, subscribe, monitor);
    OneWordOnly(name, unsubscribe, monitor);
  }

  /** A word without line ends matches a text in place only if it matches before the text's own line end. */
  lemma {:induction false} MatchInPlace(s: Bytes, at: nat, name: Bytes, word: Bytes)
    requires at + |name| + 2 <= |s| && s[at..at + |name|] == name && s[at + |name|..at + |name| + 2] == CRLF
    requires CR !in word
    ensures StartsAt(s, at, word + CRLF) <==> Names(name, word)
  {
    var w, t := word + CRLF, name + CRLF;
    assert s[at..at + |t|] == t by {
      assert s[at..at + |t|] == s[at..at + |name|] + s[at + |name|..at + |name| + 2];
    }
    SliceAt(s, at, t);
    if |t| < |w| {
      assert s[at + |name|] == t[|name|] == CR;
      assert w[|name|] == word[|name|] != CR;
    }
  }

  /** Where nextArgument finds the first argument of a command, and what stands before and after it. */
  lemma {:induction false} FirstArgument(argv: seq<Bytes>)
    requires argv != [] && |Command(argv)| <= INT_MAX
    ensures var s, scan := Command(argv) + [NUL], NextArgument(Command(argv) + [NUL], 0);
      && scan.Found? && scan.len == |argv[0]| && scan.str + scan.len + 2 <= |s|
      && s[scan.str..scan.str + scan.len] == argv[0]
      && s[scan.str + scan.len..scan.str + scan.len + 2] == CRLF
      && scan.next == ArgumentStart(argv, 1) < |s|
      && (s[scan.next] == DOLLAR <==> |argv| > 1)
  {
    hide *;
    var s := Command(argv) + [NUL];
    FindsInCommand(argv, 0, 0);
    FirstArgumentEnds(argv);
    var str, n, next := NextArgument(s, 0).str, |argv[0]|, ArgumentStart(argv, 1);
    assert s[str + n..str + n + 2] == Command(argv)[str + n..str + n + 2];
  }

  lemma {:induction false} FirstArgumentEnds(argv: seq<Bytes>)
    requires argv != []
    ensures var end, next := ArgumentStart(argv, 0) + |Header(DOLLAR, |argv[0]|)| + |argv[0]|, ArgumentStart(argv, 1);
      && end + 2 == next <= |Command(argv)| && Command(argv)[end..next] == CRLF
      && ((Command(argv) + [NUL])[next] == DOLLAR <==> |argv| > 1)
  {
    ArgumentInCommand(argv, 0);
    var a, h := Argument(argv[0]), |Header(DOLLAR, |argv[0]|)|;
    assert a[h + |argv[0]|..] == CRLF;
    if |argv| > 1 {
      SecondArgument(argv);
    } else {
      PrefixEnds(argv);
    }
    hide *;
    SliceOfSlice(Command(argv), ArgumentStart(argv, 0), a, h + |argv[0]|, |a|);
  }

  lemma {:induction false} SecondArgument(argv: seq<Bytes>)
    requires |argv| > 1
    ensures ArgumentStart(argv, 1) < |Command(argv)| && Command(argv)[ArgumentStart(argv, 1)] == DOLLAR
  {
    ArgumentInCommand(argv, 1);
    var a := Argument(argv[1]);
    assert a[0] == DOLLAR;
    hide *;
    SliceAt(Command(argv), ArgumentStart(argv, 1), a);
  }

  /** The four tests of __redisAsyncCommand on the formatted bytes, in terms of the first argument. */
  lemma {:induction false} TestsInPlace(s: Bytes, argv: seq<Bytes>, str: nat)
    requires argv != [] && str + |argv[0]| + 2 <= |s| && s[str..str + |argv[0]|] == argv[0]
    requires s[str + |argv[0]|..str + |argv[0]| + 2] == CRLF
    ensures (Lower(s[str]) == LOWER_P) == PVariant(argv[0])
    ensures var name, at := BareName(argv[0]), if PVariant(argv[0]) then str + 1 else str;
      && (StartsAt(s, at, SUBSCRIBE + CRLF) <==> Names(name, SUBSCRIBE))
      && (StartsAt(s, at, UNSUBSCRIBE + CRLF) <==> Names(name, UNSUBSCRIBE))
      && (StartsAt(s, at, MONITOR + CRLF) <==> Names(name, MONITOR))
  {
    hide StartsAt, Names;
    var name, at := BareName(argv[0]), if PVariant(argv[0]) then str + 1 else str;
    if argv[0] == [] {
      assert s[str] == s[str..str + 2][0];
    } else {
      assert s[str] == s[str..str + |argv[0]|][0];
    }
    assert s[at..at + |name|] == name;
    MatchInPlace(s, at, name, SUBSCRIBE);
    MatchInPlace(s, at, name, UNSUBSCRIBE);
    MatchInPlace(s, at, name, MONITOR);
  }

  /**
   Recognising a command from its formatted bytes, as __redisAsyncCommand does, is the same as
   recognising it from its arguments.
   */
  method Recognise(s: Bytes, ghost argv: seq<Bytes>) returns (r: Request, next: nat)
    requires argv != [] && |Command(argv)| <= INT_MAX && s == Command(argv) + [NUL]
    ensures r == Classify(argv) && next == ArgumentStart(argv, 1) < |s|
  {
    hide NextArgument, Command, ArgumentStart, StartsAt, Names, PVariant, BareName;
    FirstArgument(argv);
    var scan := NextArgument(s, 0);
    var cstr := scan.str;
    next := scan.next;
    var hasnext := s[next] == DOLLAR;
    TestsInPlace(s, argv, cstr);
    var pvariant := Lower(s[cstr]) == LOWER_P;
    if pvariant {
      cstr := cstr + 1;
    }
    if hasnext && StartsAt(s, cstr, SUBSCRIBE + CRLF) {
      r := Subscribe(pvariant);
    } else if StartsAt(s, cstr, UNSUBSCRIBE + CRLF) {
      r := Unsubscribe;
    } else if StartsAt(s, cstr, MONITOR + CRLF) {
      r := Monitor;
    } else {
      r := Regular;
    }
  }

  /**
   The entries of one SUBSCRIBE. The callback under construction is not reset between names: a
   name that is new to the table inherits the count computed for the last known one.
   */
  function SubscribeAll(table: Table, cb: Callback, names: seq<Bytes>): Table
    decreases |names|
  {
    if names == [] then table
    else
      var next := Carried(table, cb, names[0]);
      SubscribeAll(table[names[0] := next], next, names[1..])
  }

  function Carried(table: Table, cb: Callback, name: Bytes): Callback {
    if name in table then cb.(pending := table[name].pending + 1) else cb
  }

  /** The pending count of a name; a name without an entry has none. */
  function Pending(table: Table, name: Bytes): int {
    if name in table then table[name].pending else 0
  }

  /** Every entry counts the subscribe replies its name still waits for. */
  ghost predicate Exact(table: Table, awaited: multiset<Bytes>) {
    forall name: Bytes :: Pending(table, name) == awaited[name]
  }

  /** Every entry counts at least the subscribe replies its name still waits for. */
  ghost predicate Covers(table: Table, awaited: multiset<Bytes>) {
    && (forall name: Bytes :: Pending(table, name) >= awaited[name])
  }

  /** The guard of the branch that goes wrong: each name new to the table meets an untouched count. */
  predicate Clean(table: Table, cb: Callback, names: seq<Bytes>)
    decreases |names|
  {
    names == [] ||
    (var next := Carried(table, cb, names[0]);
     (names[0] in table || cb.pending == 1) && Clean(table[names[0] := next], next, names[1..]))
  }

  /** What is off by something stays off: the rest of the names adds one to both sides. */
  lemma {:induction false} ErrorStays(table: Table, cb: Callback, names: seq<Bytes>, name: Bytes, awaited: nat)
    requires name in table && table[name].pending != awaited
    ensures Pending(SubscribeAll(table, cb, names), name) != awaited + multiset(names)[name]
    decreases |names|
  {
    if names != [] {
      var next := Carried(table, cb, names[0]);
      assert names == [names[0]] + names[1..];
      var more := if names[0] == name then 1 else 0;
      assert multiset(names)[name] == more + multiset(names[1..])[name];
      ErrorStays(table[names[0] := next], next, names[1..], name, awaited + more);
    }
  }

  /** One SUBSCRIBE of any names leaves the counts exact if and only if its names are clean. */
  lemma {:induction false} SubscribeExactIff(table: Table, cb: Callback, names: seq<Bytes>, awaited: multiset<Bytes>)
    requires Exact(table, awaited)
    ensures Exact(SubscribeAll(table, cb, names), awaited + multiset(names)) <==> Clean(table, cb, names)
    decreases |names|
  {
    if names == [] {
      assert awaited + multiset(names) == awaited;
    } else {
      var name, next := names[0], Carried(table, cb, names[0]);
      var table', awaited' := table[name := next], awaited + multiset{name};
      assert names == [name] + names[1..];
      assert awaited + multiset(names) == awaited' + multiset(names[1..]);
      assert Pending(table, name) == awaited[name];
      if name in table || cb.pending == 1 {
        assert Exact(table', awaited') by {
          forall n: Bytes
            ensures Pending(table', n) == awaited'[n]
          {
            assert Pending(table, n) == awaited[n];
          }
        }
        SubscribeExactIff(table', next, names[1..], awaited');
      } else {
        ErrorStays(table', next, names[1..], name, 1);
        assert (awaited + multiset(names))[name] == 1 + multiset(names[1..])[name];
      }
    }
  }

  /** One name per command is always clean. */
  lemma {:induction false} OneNameExact(table: Table, cb: Callback, name: Bytes, awaited: multiset<Bytes>)
    requires Exact(table, awaited) && cb.pending == 1
    ensures Exact(SubscribeAll(table, cb, [name]), awaited + multiset{name})
  {
    assert Clean(table[name := Carried(table, cb, name)], Carried(table, cb, name), [name][1..]);
    SubscribeExactIff(table, cb, [name], awaited);
    assert multiset([name]) == multiset{name};
  }

  /** Whatever the names, no count ends up too small. */
  lemma {:induction false} SubscribeCovers(table: Table, cb: Callback, names: seq<Bytes>, awaited: multiset<Bytes>)
    requires Covers(table, awaited) && cb.pending >= 1
    ensures Covers(SubscribeAll(table, cb, names), awaited + multiset(names))
    decreases |names|
  {
    if names == [] {
      assert awaited + multiset(names) == awaited;
    } else {
      var name, next := names[0], Carried(table, cb, names[0]);
      var table', awaited' := table[name := next], awaited + multiset{name};
      assert names == [name] + names[1..];
      assert awaited + multiset(names) == awaited' + multiset(names[1..]);
      assert Pending(table, name) >= awaited[name];
      forall n: Bytes
        ensures Pending(table', n) >= awaited'[n]
      {
        assert Pending(table, n) >= awaited[n];
      }
      SubscribeCovers(table', next, names[1..], awaited');
    }
  }

  /**
   Two names in one command can go wrong: with a subscribe reply for `a` still to come, subscribing
   to `a` and the new name `b` leaves `b` waiting for two replies when only one will come.
   */
  lemma {:induction false} TwoNamesInexact(a: Bytes, b: Bytes, cb: Callback)
    requires a != b && cb.pending == 1
    ensures var table, awaited := map[a := cb], multiset{a};
      && Exact(table, awaited)
      && Pending(SubscribeAll(table, cb, [a, b]), b) == 2
      && (awaited + multiset{a, b})[b] == 1
      && !Exact(SubscribeAll(table, cb, [a, b]), awaited + multiset{a, b})
  {
    var table, next := map[a := cb], cb.(pending := 2);
    assert [a, b][1..] == [b] && [b][1..] == [];
    assert SubscribeAll(table, cb, [a, b]) == SubscribeAll(table[a := next], next, [b]);
    assert SubscribeAll(table[a := next], next, [b]) == table[a := next][b := next];
    assert Pending(SubscribeAll(table, cb, [a, b]), b) == 2;
  }

  /** Every name subscribed to has an entry, and only those are added. */
  lemma {:induction false} SubscribedKeys(table: Table, cb: Callback, names: seq<Bytes>)
    ensures SubscribeAll(table, cb, names).Keys == table.Keys + (set n | n in names)
    ensures forall n :: n in SubscribeAll(table, cb, names) && n !in names ==> SubscribeAll(table, cb, names)[n] == table[n]
    ensures forall n :: n in names ==>
      SubscribeAll(table, cb, names)[n].fn == cb.fn && SubscribeAll(table, cb, names)[n].data == cb.data
    decreases |names|
  {
    if names != [] {
      var next := Carried(table, cb, names[0]);
      assert names == [names[0]] + names[1..];
      SubscribedKeys(table[names[0] := next], next, names[1..]);
    }
  }
}
