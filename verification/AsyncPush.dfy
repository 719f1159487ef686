/**
 What a push message does, read off its elements: the letters of the first one choose the table and
 the bookkeeping, the second one is the key, and the third one counts what is left.
 */
module AsyncPush {
  import opened ByteStrings
  import opened RespGrammar
  import opened PubSub
  import opened AsyncProtocol
  import opened AsyncSafety

  /** A first letter p or P selects the patterns. */
  predicate ForPatterns(text: Bytes) {
    text != [] && (text[0] == 112 || text[0] == 80)
  }

  /** A C string that agrees with a lower-case word letter by letter, in either case. */
  predicate IsCWord(text: Bytes, word: Bytes) {
    |text| >= |word| && Agrees(text[..|word|], word) && (|text| == |word| || text[|word|] == 0)
  }

  predicate SaysSubscribe(text: Bytes) {
    IsCWord(Unprefixed(text), [115, 117, 98, 115, 99, 114, 105, 98, 101])
  }

  predicate SaysUnsubscribe(text: Bytes) {
    IsCWord(Unprefixed(text), [117, 110, 115, 117, 98, 115, 99, 114, 105, 98, 101])
  }

  lemma {:induction false} CStringIs(b: Bytes)
    ensures var k := |CString(b)|;
      && k <= |b| && CString(b) == b[..k] && (k < |b| ==> b[k] == 0) && forall i :: 0 <= i < k ==> b[i] != 0
  {
    if b != [] && b[0] != NUL {
      CStringIs(b[1..]);
      var c := CString(b[1..]);
      assert CString(b) == [b[0]] + c && b[..|c| + 1] == [b[0]] + b[1..][..|c|];
      assert forall i :: 0 < i <= |c| ==> b[i] == b[1..][i - 1];
    }
  }

  /** c is u up to its first NUL. */
  predicate UpToNul(c: Bytes, u: Bytes) {
    |c| <= |u| && c == u[..|c|] && (|c| < |u| ==> u[|c|] == 0) && forall i :: 0 <= i < |c| ==> c[i] != 0
  }

  lemma {:induction false} BareIs(text: Bytes)
    ensures UpToNul(BareName(CString(text)), Unprefixed(text)) && (PVariant(CString(text)) <==> ForPatterns(text))
  {
    hide CString;
    CStringIs(text);
    var c, u := CString(text), Unprefixed(text);
    if c != [] {
      assert c[0] == text[0];
    }
    if ForPatterns(text) {
      assert c != [] && BareName(c) == c[1..] && u == text[1..];
      assert forall i :: 0 <= i < |c[1..]| ==> c[1..][i] == c[i + 1] == text[i + 1];
    } else {
      assert BareName(c) == c && u == text;
    }
  }

  lemma {:induction false} WordUpToNul(c: Bytes, u: Bytes, word: Bytes)
    requires UpToNul(c, u) && forall i :: 0 <= i < |word| ==> 97 <= word[i] <= 122
    ensures |c| == |word| && StartsAt(c, 0, word) <==> IsCWord(u, word)
  {
    if |c| == |word| && StartsAt(c, 0, word) {
      forall i | 0 <= i < |word|
        ensures u[i] == word[i] || u[i] as int == word[i] as int - 32
      {
        assert Lower(c[0 + i]) == word[i] && c[i] == u[i];
      }
    }
    if IsCWord(u, word) {
      assert forall i :: 0 <= i < |word| ==> u[..|word|][i] == u[i] && u[i] != 0;
      assert |c| == |word|;
      forall i | 0 <= i < |word|
        ensures Lower(c[0 + i]) == word[i]
      {
        assert c[i] == u[..|word|][i];
      }
    }
  }

  lemma {:induction false} NoNulIn(c: Bytes)
    requires forall i :: 0 <= i < |c| ==> c[i] != 0
    ensures CString(c) == c
  {
    CStringIs(c);
  }

  lemma {:induction false} SameWordIs(text: Bytes, word: Bytes)
    requires forall i :: 0 <= i < |word| ==> 97 <= word[i] <= 122
    ensures SameWord(BareName(CString(text)), word) <==> IsCWord(Unprefixed(text), word)
    ensures PVariant(CString(text)) <==> ForPatterns(text)
  {
    hide CString, BareName, Unprefixed, IsCWord, StartsAt, PVariant, ForPatterns;
    BareIs(text);
    NoNulIn(BareName(CString(text)));
    WordUpToNul(BareName(CString(text)), Unprefixed(text), word);
  }

  /** What is read off the elements of a push message. */
  lemma {:induction false} MessageRead(reply: Reply)
    requires reply.Array? && |reply.elements| >= 2 && reply.elements[0].Bulk? && reply.elements[1].Bulk?
    ensures WellFormed(reply)
    ensures var m, t := MessageOf(reply), reply.elements[0].text;
      && m.name == reply.elements[1].text && m.pattern == ForPatterns(t)
      && (m.kind.Confirms? <==> SaysSubscribe(t)) && (m.kind.Drops? <==> SaysUnsubscribe(t))
      && (m.kind.Drops? ==>
        m.kind.count == if |reply.elements| > 2 && reply.elements[2].Integer? then Some(reply.elements[2].number) else None)
  {
    hide CString, BareName, SameWord, PVariant, ForPatterns, Unprefixed;
    var t := reply.elements[0].text;
    SameWordIs(t, SUBSCRIBE);
    SameWordIs(t, UNSUBSCRIBE);
    assert UNSUBSCRIBE == [117, 110, 115, 117, 98, 115, 99, 114, 105, 98, 101];
  }

  /** The entry of a name after a message of that kind: a confirmation counts down, an unsubscription at zero takes it away. */
  function EntryAfter(table: Table, name: Bytes, confirms: bool, drops: bool): Table
    requires name in table
  {
    if confirms then table[name := table[name].(pending := table[name].pending - 1)]
    else if drops && table[name].pending == 0 then map k | k in table && k != name :: table[k]
    else table
  }

  /**
   Routing a push message depends on its elements only. The callback is that of the key in the table
   that the first letter selects, or what the loop variable held if the key has no entry; only that
   entry changes; and subscribed mode ends with an unsubscription that leaves nothing, by the server's
   count and in both tables. An unsubscription without a count, and a message without two texts, fail.
   */
  lemma {:induction false} PushRouted(s: State, reply: Reply, cb: Callback)
    requires s.subscribed && s.replies == [] && reply.Array?
    ensures var es, found := reply.elements, Route(s, reply, cb);
      if !(|es| >= 2 && es[0].Bulk? && es[1].Bulk?) then found.AssertionFails?
      else
        var t, name := es[0].text, es[1].text;
        var table := if ForPatterns(t) then s.patterns else s.channels;
        var counted := |es| > 2 && es[2].Integer?;
        if name !in table then found.Chosen? && found.cb == cb && RestStays(s, found.state, s.channels, s.patterns, true)
        else if SaysUnsubscribe(t) && !counted then found.AssertionFails?
        else
          var after := EntryAfter(table, name, SaysSubscribe(t), SaysUnsubscribe(t));
          var channels, patterns := if ForPatterns(t) then s.channels else after, if ForPatterns(t) then after else s.patterns;
          var last := SaysUnsubscribe(t) && es[2].number == 0 && channels == map[] && patterns == map[];
          && found.Chosen? && found.cb.fn == table[name].fn && found.cb.data == table[name].data
          && RestStays(s, found.state, channels, patterns, !last)
  {
    hide Pushed, MessageOf, WellFormed, ForPatterns, SaysSubscribe, SaysUnsubscribe, TableAfter;
    var es := reply.elements;
    if |es| >= 2 && es[0].Bulk? && es[1].Bulk? {
      MessageRead(reply);
      PushedIs(s, MessageOf(reply));
      TablesAfter(s, MessageOf(reply));
    } else {
      NotWellFormed(reply);
    }
  }

  /** These tables and this mode, and everything else as before. */
  ghost predicate RestStays(s: State, r: State, channels: Table, patterns: Table, subscribed: bool) {
    && r.channels == channels && r.patterns == patterns && r.subscribed == subscribed
    && r.replies == s.replies && r.invalid == s.invalid && r.log.calls == s.log.calls && r.runs == s.runs && r.plan == s.plan
    && r.monitoring == s.monitoring && r.obuf == s.obuf && r.err == s.err
    && r.disconnecting == s.disconnecting && r.freeing == s.freeing && r.noAutoFree == s.noAutoFree && r.freed == s.freed
  }

  lemma {:induction false} NotWellFormed(reply: Reply)
    requires reply.Array? && !(|reply.elements| >= 2 && reply.elements[0].Bulk? && reply.elements[1].Bulk?)
    ensures !WellFormed(reply)
  {
  }

  lemma {:induction false} PushedIs(s: State, m: Message)
    ensures RestStays(s, Pushed(s, m), TableAfter(s.channels, m, false), TableAfter(s.patterns, m, true), s.subscribed && !EndsSubscription(s, m))
  {
    hide TableAfter, EndsSubscription, AwaitedAfter, Expected;
  }

  lemma {:induction false} TablesAfter(s: State, m: Message)
    ensures var table := if m.pattern then s.patterns else s.channels;
      && TableAfter(if m.pattern then s.channels else s.patterns, m, !m.pattern) == (if m.pattern then s.channels else s.patterns)
      && TableAfter(table, m, m.pattern) ==
        (if m.name in table then EntryAfter(table, m.name, m.kind.Confirms?, m.kind.Drops?) else table)
  {
    var table := if m.pattern then s.patterns else s.channels;
    if m.name in table {
      assert (map k | k in table && k != m.name :: table[k]) == table - {m.name};
    }
  }

  /** And that callback runs: the message adds its call to the log, before anything that follows from it. */
  lemma {:induction false} PushReaches(s: State, reply: Reply, cb: Callback, walk: Walk)
    requires Walks(walk) && !s.freed && !s.inCallback && s.subscribed && s.replies == []
    requires reply.Array? && |reply.elements| >= 2 && reply.elements[0].Bulk? && reply.elements[1].Bulk?
    requires var es := reply.elements; SaysUnsubscribe(es[0].text) ==> |es| > 2 && es[2].Integer?
    ensures var table := if ForPatterns(reply.elements[0].text) then s.patterns else s.channels;
      var own := if reply.elements[1].text in table then table[reply.elements[1].text] else cb;
      s.log.calls + (if own.fn.Some? then [Call(own.fn.value, own.data, Some(reply))] else [])
        <= OneReply(s, reply, cb, walk).state.log.calls
  {
    hide Route, ForPatterns, SaysSubscribe, SaysUnsubscribe, EntryAfter, FreeContext, RunCallback;
    PushRouted(s, reply, cb);
    var found := Route(s, reply, cb);
    RunGrows(found.state, found.cb, Some(reply));
    RunQueue(found.state, found.cb, Some(reply));
    var r := RunCallback(found.state, found.cb, Some(reply));
    if found.cb.fn != None && r.freeing {
      TeardownLogs(r, walk);
    }
  }

  lemma {:induction false} DrainLogs(s: State, turns: nat)
    requires !s.inCallback
    ensures s.log.calls <= Drained(s, turns).state.log.calls
    decreases turns
  {
    hide RunCallback;
    if s.replies != [] && turns > 0 {
      RunGrows(Shifted(s, None), s.replies[0], None);
      DrainLogs(DrainTurn(s), turns - 1);
    }
  }

  lemma {:induction false} InvalidLogs(s: State)
    requires Closing(s) && !s.inCallback
    ensures s.log.calls <= DrainInvalid(s).log.calls
    decreases |s.invalid|
  {
    hide RunCallback;
    if s.invalid != [] {
      var cb, rest := s.invalid[0], s.(invalid := s.invalid[1..]);
      RunQueue(rest, cb, None);
      RunGrows(rest, cb, None);
      InvalidLogs(RunCallback(rest, cb, None));
    }
  }

  lemma {:induction false} FarewellLogs(s: State, table: Table, names: seq<Bytes>)
    requires Closing(s) && !s.inCallback && forall n :: n in names ==> n in table
    ensures s.log.calls <= Farewell(s, table, names).log.calls
    decreases |names|
  {
    hide RunCallback;
    if names != [] {
      RunQueue(s, table[names[0]], None);
      RunGrows(s, table[names[0]], None);
      FarewellLogs(RunCallback(s, table[names[0]], None), table, names[1..]);
    }
  }

  /** Teardown only adds to the log. */
  lemma {:induction false} TeardownLogs(s: State, walk: Walk)
    requires Walks(walk) && Closing(s) && !s.freed && !s.inCallback
    ensures s.log.calls <= FreeContext(s, walk).log.calls
  {
    hide Drained, DrainInvalid, Farewell;
    DrainLogs(s, |s.replies|);
    var s1 := DrainReplies(s);
    InvalidLogs(s1);
    var s2 := DrainInvalid(s1);
    assert Lists(walk(s2.channels.Keys), s2.channels.Keys);
    FarewellLogs(s2, s2.channels, walk(s2.channels.Keys));
    var s3 := Farewell(s2, s2.channels, walk(s2.channels.Keys));
    assert Lists(walk(s3.patterns.Keys), s3.patterns.Keys);
    FarewellLogs(s3, s3.patterns, walk(s3.patterns.Keys));
  }
}
