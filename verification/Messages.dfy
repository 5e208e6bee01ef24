// GetMessagesNoRepeat of manager/messages.cpp: runs of up to seven messages that repeat the
// ones before them are shown as one line that says so.
module Messages {
  import opened Options

  const LIMIT := 7

  // The line that stands for the last n messages once more.
  function Marker(n: nat): string
    requires 1 <= n <= LIMIT
  {
    PREFIX + (if n == 1 then "message" else [('0' as int + n) as char] + " messages") + " repeated</font>"
  }

  const PREFIX := "<font color=green>Last "

  predicate IsMarker(s: string) {
    exists n :: 1 <= n <= LIMIT && s == Marker(n)
  }

  // The n messages from i on are the n before them once more.
  predicate Repeats(messages: seq<string>, i: nat, n: nat) {
    n <= i && i + n <= |messages| && messages[i - n..i] == messages[i..i + n]
  }

  // What is shown tells what it stands for: a marker for the last n of all messages so far.
  function Expanded(shown: seq<string>): seq<string> {
    if shown == [] then []
    else
      var before := Expanded(shown[..|shown| - 1]);
      var s := shown[|shown| - 1];
      before + Meaning(s, before)
  }

  function Meaning(s: string, before: seq<string>): seq<string> {
    if s == Marker(1) then Tail(before, 1)
    else if s == Marker(2) then Tail(before, 2)
    else if s == Marker(3) then Tail(before, 3)
    else if s == Marker(4) then Tail(before, 4)
    else if s == Marker(5) then Tail(before, 5)
    else if s == Marker(6) then Tail(before, 6)
    else if s == Marker(7) then Tail(before, 7)
    else [s]
  }

  function Tail(s: seq<string>, n: nat): seq<string> {
    if |s| < n then s else s[|s| - n..]
  }

  lemma MarkersDiffer(m: nat, n: nat)
    requires 1 <= m < n <= LIMIT
    ensures Marker(m) != Marker(n)
  {
    var k := |PREFIX|;
    assert Marker(n)[k] == ('0' as int + n) as char;
    assert Marker(m)[k] == if m == 1 then 'm' else ('0' as int + m) as char;
  }

  lemma MeaningOfMarker(n: nat, before: seq<string>)
    requires 1 <= n <= LIMIT
    ensures Meaning(Marker(n), before) == Tail(before, n)
  {
    hide Marker;
    forall m | 1 <= m < n
      ensures Marker(m) != Marker(n)
    {
      MarkersDiffer(m, n);
    }
  }

  lemma MeaningOfOther(s: string, before: seq<string>)
    requires !IsMarker(s)
    ensures Meaning(s, before) == [s]
  {
    hide Marker;
    assert forall n :: 1 <= n <= LIMIT ==> s != Marker(n);
  }

  // The comparison of one pack with what is before it, from the end backwards.
  method ComparePack(messages: seq<string>, i: nat, n: nat) returns (equal: bool)
    requires 0 < n && i + n <= |messages|
    ensures equal <==> Repeats(messages, i, n)
  {
    var k := 1;
    while k <= n
      invariant 1 <= k <= n + 1 && k - 1 <= i
      invariant forall x :: i - k < x < i ==> messages[x] == messages[x + n]
    {
      if i < k {
        return false;
      }
      if messages[i - k] != messages[i + n - k] {
        NoRepeat(messages, i, n, k);
        return false;
      }
      k := k + 1;
    }
    assert messages[i - n..i] == messages[i..i + n];
    return true;
  }

  lemma NoRepeat(messages: seq<string>, i: nat, n: nat, k: nat)
    requires 0 < k <= n && k <= i && i + n <= |messages| && messages[i - k] != messages[i + n - k]
    ensures !Repeats(messages, i, n)
  {
    if n <= i {
      assert messages[i - n..i][n - k] == messages[i - k] && messages[i..i + n][n - k] == messages[i + n - k];
    }
  }

  // The longest run, of those that are tried, that repeats; 0 if there is none.
  function Longest(messages: seq<string>, i: nat, n: nat): (r: nat)
    ensures r <= n && (r > 0 ==> Repeats(messages, i, r))
    ensures forall m :: r < m <= n ==> !Repeats(messages, i, m)
  {
    if n == 0 || Repeats(messages, i, n) then n else Longest(messages, i, n - 1)
  }

  method LongestRepeat(messages: seq<string>, i: nat) returns (n: nat)
    requires i < |messages|
    ensures n == Longest(messages, i, LIMIT)
  {
    hide Repeats;
    var equal: seq<bool> := [];
    var j := 0;
    while j < LIMIT
      invariant j == |equal| <= LIMIT
      invariant forall l :: 0 <= l < j ==> (equal[l] <==> Repeats(messages, i, l + 1))
    {
      if i + j < |messages| {
        var e := ComparePack(messages, i, j + 1);
        equal := equal + [e];
      } else {
        TooFar(messages, i, j + 1);
        equal := equal + [false];
      }
      j := j + 1;
    }
    n := LIMIT;
    while n > 0 && !equal[n - 1]
      invariant n <= LIMIT && Longest(messages, i, LIMIT) == Longest(messages, i, n)
    {
      n := n - 1;
    }
  }

  lemma TooFar(messages: seq<string>, i: nat, n: nat)
    requires i + n > |messages|
    ensures !Repeats(messages, i, n)
  {
  }

  // What is shown for the messages from i on: the longest run that repeats is replaced.
  function Shown(messages: seq<string>, i: nat): seq<string>
    decreases |messages| - i
  {
    if i >= |messages| then []
    else
      var n := Longest(messages, i, LIMIT);
      if n > 0 then [Marker(n)] + Shown(messages, i + n) else [messages[i]] + Shown(messages, i + 1)
  }

  method GetMessagesNoRepeat(messages: seq<string>) returns (output: seq<string>)
    ensures output == Shown(messages, 0)
  {
    hide Marker, Longest, Shown;
    output := [];
    var i := 0;
    NothingMore(messages, Shown(messages, 0));
    while i < |messages|
      invariant i <= |messages| && output + Shown(messages, i) == Shown(messages, 0)
    {
      var n := LongestRepeat(messages, i);
      LongestFits(messages, i);
      var line := if n > 0 then Marker(n) else messages[i];
      var next := if n > 0 then i + n else i + 1;
      ShownStep(messages, i, output);
      output := output + [line];
      i := next;
    }
    NothingMore(messages, output);
  }

  lemma NothingMore(messages: seq<string>, s: seq<string>)
    ensures Shown(messages, |messages|) == [] && s + [] == s && [] + s == s
  {
  }

  lemma ShownStep(messages: seq<string>, i: nat, before: seq<string>)
    requires i < |messages|
    ensures var n := Longest(messages, i, LIMIT);
      before + Shown(messages, i) ==
        if n > 0 then before + [Marker(n)] + Shown(messages, i + n) else before + [messages[i]] + Shown(messages, i + 1)
  {
    hide Longest, Marker;
    var n := Longest(messages, i, LIMIT);
    if n > 0 {
      assert before + ([Marker(n)] + Shown(messages, i + n)) == before + [Marker(n)] + Shown(messages, i + n);
    } else {
      assert before + ([messages[i]] + Shown(messages, i + 1)) == before + [messages[i]] + Shown(messages, i + 1);
    }
  }

  lemma LongestFits(messages: seq<string>, i: nat)
    requires i < |messages|
    ensures i + Longest(messages, i, LIMIT) <= |messages|
  {
  }

  // ---- what is shown

  lemma MarkersAre(n: nat)
    requires 1 <= n <= 7
    ensures Marker(n) == if n == 1 then "<font color=green>Last message repeated</font>"
      else "<font color=green>Last " + ["2", "3", "4", "5", "6", "7"][n - 2] + " messages repeated</font>"
  {
    if n > 1 {
      assert [('0' as int + n) as char] == ["2", "3", "4", "5", "6", "7"][n - 2];
    }
  }

  // A run of up to seven messages that repeats those before it is shown as one line, the
  // longest if there are several; where there is none, the message itself is shown.
  lemma ShownIs(messages: seq<string>, i: nat)
    requires i < |messages|
    ensures (forall n :: 1 <= n <= 7 ==> !Repeats(messages, i, n)) ==> Shown(messages, i) == [messages[i]] + Shown(messages, i + 1)
    ensures forall n: nat :: 1 <= n <= 7 && Repeats(messages, i, n) && (forall m :: n < m <= 7 ==> !Repeats(messages, i, m)) ==>
      Shown(messages, i) == [Marker(n)] + Shown(messages, i + n)
  {
    hide Marker, Repeats;
  }

  // ---- nothing is lost

  lemma ExpandedAppend(shown: seq<string>, s: string)
    ensures Expanded(shown + [s]) == Expanded(shown) + Meaning(s, Expanded(shown))
  {
    assert (shown + [s])[..|shown|] == shown;
  }

  // What has been shown so far and what will be, together, tell all the messages.
  lemma {:induction false} ShownExpands(messages: seq<string>, i: nat, before: seq<string>)
    requires i <= |messages| && Expanded(before) == messages[..i] && forall m :: m in messages ==> !IsMarker(m)
    ensures Expanded(before + Shown(messages, i)) == messages
    decreases |messages| - i
  {
    hide Expanded, Meaning, Marker, IsMarker, Longest, Shown;
    if i == |messages| {
      NothingMore(messages, before);
      assert messages[..i] == messages;
    } else {
      var n := Longest(messages, i, LIMIT);
      LongestFits(messages, i);
      var line := if n > 0 then Marker(n) else messages[i];
      var next := if n > 0 then i + n else i + 1;
      ExpandedAppend(before, line);
      if n > 0 {
        MeaningOfMarker(n, messages[..i]);
        assert Tail(messages[..i], n) == messages[i - n..i] == messages[i..i + n] by { LongestRepeats(messages, i); }
      } else {
        MeaningOfOther(messages[i], messages[..i]);
      }
      assert messages[..next] == messages[..i] + messages[i..next] && messages[i..i + 1] == [messages[i]];
      ShownExpands(messages, next, before + [line]);
      ShownStep(messages, i, before);
    }
  }

  lemma LongestRepeats(messages: seq<string>, i: nat)
    ensures var n := Longest(messages, i, LIMIT); n > 0 ==> Repeats(messages, i, n)
  {
  }

  // Expanding the markers gives the messages back, if none of them is a marker itself.
  lemma NothingIsLost(messages: seq<string>)
    requires forall m :: m in messages ==> !IsMarker(m)
    ensures Expanded(Shown(messages, 0)) == messages
  {
    assert messages[..0] == [] && [] + Shown(messages, 0) == Shown(messages, 0);
    ShownExpands(messages, 0, []);
  }
}
