// A value of one line that is written raw and asks for another line takes in what stands
// behind it. What it comes to is never the value itself: the lines of a configuration file
// bring an equals sign, a bracket or a comment sign before any backslash.
module ConfigSwallow {
  import opened Options
  import opened ConfigText
  import opened ConfigParse
  import opened ConfigRewrite
  import opened ConfigTheory
  import opened ConfigValues
  import opened ConfigExact
  import opened ConfigPattern

  // ---- signs, which unescaping neither drops nor adds

  predicate Sign(c: char) {
    c == '=' || c == '[' || c == '#' || c == ';'
  }

  predicate Mark(c: char) {
    c == '"' || c == '\\'
  }

  function Signs(s: string): nat {
    if s == [] then 0 else (if Sign(s[0]) then 1 else 0) + Signs(s[1..])
  }

  lemma {:induction false} SignsConcat(a: string, b: string)
    ensures Signs(a + b) == Signs(a) + Signs(b)
  {
    if a == [] {
      assert a + b == b;
    } else {
      assert (a + b)[1..] == a[1..] + b;
      SignsConcat(a[1..], b);
    }
  }

  lemma {:induction false} NoSigns(s: string)
    requires forall i :: 0 <= i < |s| ==> !Sign(s[i])
    ensures Signs(s) == 0
  {
    if s != [] {
      NoSigns(s[1..]);
    }
  }

  lemma {:induction false} SignCounts(s: string, i: nat)
    requires i < |s| && Sign(s[i])
    ensures Signs(s) > 0
  {
    if i > 0 {
      SignCounts(s[1..], i - 1);
    }
  }

  lemma {:induction false} UnescapeSigns(s: string)
    requires Unescape(s).Some?
    ensures Signs(Unescape(s).value.0) == Signs(s)
  {
    if s != [] {
      if s[0] == '"' {
        UnescapeSigns(s[1..]);
      } else if s[0] != '\\' {
        UnescapeSigns(s[1..]);
        var v := Unescape(s[1..]).value.0;
        assert ([s[0]] + v)[1..] == v;
      } else if |s| == 1 {
        assert s[1..] == [];
      } else {
        UnescapeSigns(s[2..]);
        var v := Unescape(s[2..]).value.0;
        var c := Unescaped(s[1]).value;
        assert ([c] + v)[1..] == v;
        assert s[1..][1..] == s[2..];
      }
    }
  }

  // ---- lines

  // A sign comes before any quote or backslash.
  ghost predicate SignFirst(s: string) {
    forall j :: 0 <= j < |s| && Mark(s[j]) ==> exists i :: 0 <= i < j && Sign(s[i])
  }

  // At i stands the first sign or mark of the line, and it is a sign; or there is none.
  predicate Guard(line: string, i: nat) {
    && i <= |line| && (i < |line| ==> Sign(line[i]))
    && forall j :: 0 <= j < i ==> !Sign(line[j]) && !Mark(line[j])
  }

  // What a guarded line adds to a value, if anything.
  lemma GuardAdds(line: string, i: nat, s: string, more: string)
    requires Guard(line, i) && s <= line && Unescape(s).Some?
    ensures var (v, multi) := Unescape(s).value;
      (multi ==> SignFirst(v + more)) && (!multi ==> SignFirst(v))
  {
    if |s| <= i {
      MarklessReads(s, []);
      assert s + [] == s;
      EscapeNothing([]);
      var v := Unescape(s).value.0;
      assert v == s + [];
    } else {
      var a, b := s[..i + 1], s[i + 1..];
      assert s == a + b;
      MarklessReads(a, b);
      var v := Unescape(s).value.0;
      assert v[..i + 1] == a && Sign(v[i]);
      SignEarly(v, more, i);
    }
  }

  lemma SignEarly(v: string, more: string, i: nat)
    requires i < |v| && Sign(v[i]) && forall j :: 0 <= j < i ==> !Mark(v[j])
    ensures SignFirst(v + more) && SignFirst(v)
  {
    assert (v + more)[i] == v[i];
    assert forall j :: 0 <= j < i ==> (v + more)[j] == v[j];
    forall j | 0 <= j < |v + more| && Mark((v + more)[j])
      ensures exists k :: 0 <= k < j && Sign((v + more)[k])
    {
      assert i < j;
    }
    forall j | 0 <= j < |v| && Mark(v[j])
      ensures exists k :: 0 <= k < j && Sign(v[k])
    {
      assert i < j;
    }
  }

  // The first line of t, as it continues a value.
  function FirstOf(t: string): string {
    ReadLine(t, false).0
  }

  // A value that goes on in t takes a sign first, or only what goes on behind the line.
  lemma GuardContinues(t: string, i: nat, quotes: nat) returns (q: nat)
    requires t != [] && Guard(FirstOf(t), i) && Continue(t, quotes).Some?
    ensures var line := FirstOf(t); var k := ReadLine(t, false).1; var v := Continue(t, quotes).value.value;
      SignFirst(v) || (line != [] && Strip(line, if quotes > 0 then 1 else 0) == ([], q)
                       && Continue(t[k..], q).Some? && v == Continue(t[k..], q).value.value)
  {
    hide ReadLine, Scan, Guard;
    var (line, k) := ReadLine(t, false);
    q := 0;
    if line != [] {
      var (s, q') := Strip(line, if quotes > 0 then 1 else 0);
      q := q';
      if s == [] {
        var r := Continue(t[k..], q).value.value;
        assert [] + r == r;
      } else {
        TrimFacts(line[..Scan(line, 0, if quotes > 0 then 1 else 0, 0).0]);
        var (v, multi) := Unescape(s).value;
        if multi {
          GuardAdds(line, i, s, Continue(t[k..], q).value.value);
        } else {
          GuardAdds(line, i, s, []);
        }
      }
    }
  }

  // A line that begins with neither a comment sign nor a space is not stripped away.
  lemma StripKeeps(line: string, i: nat, q: nat)
    requires i < |line| && !IsSpace(line[i]) && forall j :: 0 <= j <= i ==> line[j] != ';' && line[j] != '#'
    ensures Strip(line, q).0 != []
  {
    hide Scan, TrimEnd;
    var end := Scan(line, 0, q, 0).0;
    ScanReaches(line, 0, i + 1, q, 0);
    TrimReaches(line[..end], i);
  }

  // ---- blocks

  // A line that has been found in a file, or one that is new.
  ghost predicate Stays(b: Block) {
    && b.text != [] && Line(b.text) == b.text
    && (Next(b.text) == Found(b) || exists name :: IsName(name) && "\t" + name + " = " <= b.text)
  }

  ghost predicate AllStay(bs: seq<Block>) {
    forall i :: 0 <= i < |bs| ==> Stays(bs[i])
  }

  lemma FirstOfBlock(t: string, u: string)
    requires t != [] && Line(t) == t
    ensures FirstOf(t + u) == TrimEnd(t[..LineEnd(t)]) && ReadLine(t + u, false).1 == LineEnd(t)
  {
    hide TrimEnd, LineEnd, Line;
    LineEndSame(t, u);
    assert (t + u)[0..] == t + u;
    assert (t + u)[..LineEnd(t)] == t[..LineEnd(t)];
  }

  lemma LineEndSame(t: string, u: string)
    requires t != [] && Line(t) == t
    ensures LineEnd(t + u) == LineEnd(t)
  {
    hide LineEnd;
    LineEndFacts(t);
    LineEndIs(t + u, LineEnd(t));
  }

  // What can be said of the first line of a block: its guard, and whether it is a line that
  // is never stripped away, or else is all of the block.
  ghost predicate Guarded(t: string, i: nat) {
    var line := TrimEnd(t[..LineEnd(t)]);
    && Guard(line, i)
    && (LineEnd(t) == |t| || (exists j :: 0 <= j < |line| && Sticks(line, j)))
  }

  predicate Sticks(line: string, j: nat)
    requires j < |line|
  {
    !IsSpace(line[j]) && forall k :: 0 <= k <= j ==> line[k] != ';' && line[k] != '#'
  }

  lemma {:induction false} NameLengthFacts(s: string)
    ensures forall j :: 0 <= j < NameLength(s) ==> IsNameChar(s[j])
  {
    if s != [] && IsNameChar(s[0]) {
      NameLengthFacts(s[1..]);
    }
  }

  lemma {:induction false} BlankFacts(t: string)
    ensures forall j :: 0 <= j < Blank(t) ==> IsSpace(t[j]) && t[j] != '\n'
  {
    if t != [] && IsSpace(t[0]) && t[0] != '\n' {
      BlankFacts(t[1..]);
    }
  }

  // A character that is no space is in the line as it is trimmed.
  lemma InLine(t: string, i: nat)
    requires i < LineEnd(t) && !IsSpace(t[i])
    ensures var line := TrimEnd(t[..LineEnd(t)]); i < |line| && line <= t
  {
    TrimReaches(t[..LineEnd(t)], i);
  }

  // Comments and headers: the first character that is no space is a sign.
  lemma SignGuards(t: string)
    requires Blank(t) < |t| && Sign(t[Blank(t)]) && (t[Blank(t)] == '[' || LineEnd(t) == |t|)
    ensures Guarded(t, Blank(t))
  {
    hide TrimEnd, LineEnd, Blank, Leading;
    var i := Blank(t);
    BlankFacts(t);
    BlankBeforeLine(t);
    InLine(t, i);
    var line := TrimEnd(t[..LineEnd(t)]);
    BlanksGuard(t, line, i);
  }

  lemma BlanksGuard(t: string, line: string, i: nat)
    requires i < |line| && line <= t && Sign(t[i]) && forall j :: 0 <= j < i ==> IsSpace(t[j])
    ensures Guard(line, i) && (t[i] == '[' ==> Sticks(line, i))
  {
    assert forall j :: 0 <= j <= i ==> line[j] == t[j];
  }

  // A new line: the equals sign behind the name.
  lemma NewGuards(t: string, name: string)
    requires IsName(name) && "\t" + name + " = " <= t
    ensures Guarded(t, |name| + 2)
  {
    hide TrimEnd, LineEnd;
    var i := |name| + 2;
    assert t[0] == '\t' && t[1..|name| + 1] == name && t[|name| + 1] == ' ' && t[i] == '=';
    assert forall j :: 1 <= j <= |name| ==> t[j] == name[j - 1];
    LineEndFacts(t);
    InLine(t, i);
    assert Sticks(TrimEnd(t[..LineEnd(t)]), 1);
  }

  // A variable of the old file: the name, and an equals sign, a comment sign or nothing
  // behind it.
  lemma VariableGuards(t: string) returns (i: nat)
    requires t != [] && Line(t) == t && Blank(t) < |t| && t[Blank(t)] != '\n' && Variable(t).Some?
    ensures Guarded(t, i)
  {
    hide TrimEnd, LineEnd, Leading, NameLength, Scan, Unescape, Continue, Blank;
    var b := Blank(t);
    BlankFacts(t);
    BlankBeforeLine(t);
    var line := TrimEnd(t[..LineEnd(t)]);
    var rest := TrimEnd(t[b..][..LineEnd(t[b..])]);
    LineBehindBlank(t, b);
    ReadsBehind(t, b);
    assert line == t[..b] + rest;
    i := NameGuards(rest);
    assert forall j :: 0 <= j < b ==> line[j] == t[j];
    assert forall j :: b <= j < |line| ==> line[j] == rest[j - b];
    assert Sticks(line, b);
    i := b + i;
  }

  lemma TrimBehind(spaces: string, y: string)
    requires Spaces(spaces) && y != [] && !IsSpace(y[0])
    ensures TrimEnd(spaces + y) == spaces + TrimEnd(y) && TrimEnd(y) != [] && TrimEnd(y)[0] == y[0]
  {
    hide TrimEnd;
    TrimReaches(y, 0);
    TrimFacts(y);
    TrimEndIs(spaces + y, spaces + TrimEnd(y));
  }

  lemma LineBehindBlank(t: string, b: nat)
    requires t != [] && Line(t) == t && b < LineEnd(t) && !IsSpace(t[b]) && forall j :: 0 <= j < b ==> IsSpace(t[j]) && t[j] != '\n'
    ensures var rest := TrimEnd(t[b..][..LineEnd(t[b..])]);
      TrimEnd(t[..LineEnd(t)]) == t[..b] + rest && rest != [] && rest[0] == t[b]
  {
    hide TrimEnd, LineEnd, Line;
    LineEndBehind(t, b);
    var y := t[b..][..LineEnd(t[b..])];
    assert t[..LineEnd(t)] == t[..b] + y && y[0] == t[b];
    TrimBehind(t[..b], y);
  }

  lemma ReadsBehind(t: string, b: nat)
    requires b < |t| && !IsSpace(t[b]) && forall j :: 0 <= j < b ==> IsSpace(t[j])
    ensures ReadLine(t, true).0 == TrimEnd(t[b..][..LineEnd(t[b..])])
  {
    hide TrimEnd, LineEnd, Leading;
    LeadingIs(t, b);
    assert t[b..b + LineEnd(t[b..])] == t[b..][..LineEnd(t[b..])];
  }

  lemma LineEndBehind(t: string, b: nat)
    requires t != [] && Line(t) == t && b < LineEnd(t) && forall j :: 0 <= j < b ==> t[j] != '\n'
    ensures LineEnd(t[b..]) == LineEnd(t) - b
  {
    hide LineEnd;
    LineEndFacts(t);
    LineEndIs(t[b..], LineEnd(t) - b);
  }

  lemma NameGuards(rest: string) returns (i: nat)
    requires rest != [] && Assignment(Strip(rest, 0).0).Some?
    ensures Guard(rest, i) && IsNameChar(rest[0])
  {
    hide TrimEnd, Leading, NameLength, Scan, Unescape;
    var end := Scan(rest, 0, 0, 0).0;
    ScanStops(rest, 0, 0, 0);
    TrimFacts(rest[..end]);
    var s := Strip(rest, 0).0;
    var m := NameLength(s);
    NameLengthFacts(s);
    LeadingFacts(s[m..]);
    i := m + Leading(s[m..]);
    assert forall j :: m <= j < i ==> s[j] == s[m..][j - m];
    if i == |s| {
      i := end;
      assert forall j :: |s| <= j < end ==> IsSpace(rest[..end][j]);
    }
  }

  lemma BlockGuards(b: Block) returns (i: nat)
    requires Stays(b)
    ensures Guarded(b.text, i)
  {
    hide TrimEnd, LineEnd, Blank, Guard, Variable, Section, Line;
    var t := b.text;
    if Next(t) == Found(b) {
      var k := Blank(t);
      if t[k] == '\n' {
        BlankLine(t);
        i := 0;
      } else if t[k] == ';' || t[k] == '#' || t[k] == '[' {
        SignGuards(t);
        i := k;
      } else {
        i := VariableGuards(t);
      }
    } else {
      var name :| IsName(name) && "\t" + name + " = " <= t;
      NewGuards(t, name);
      i := |name| + 2;
    }
  }

  lemma BlankLine(t: string)
    requires Blank(t) < |t| && t[Blank(t)] == '\n' && |t| == LineEnd(t)
    ensures Guarded(t, 0)
  {
    hide TrimEnd, LineEnd, Blank;
    BlankFacts(t);
    LineEndFacts(t);
    TrimEndIs(t[..LineEnd(t)], []);
  }

  // Whatever lines a value goes on in, what they add has a sign before any mark.
  lemma {:induction false} BlocksContinue(bs: seq<Block>, quotes: nat)
    requires AllStay(bs) && Continue(Texts(bs), quotes).Some?
    ensures SignFirst(Continue(Texts(bs), quotes).value.value)
    decreases |bs|
  {
    if bs != [] {
      hide Continue, ReadLine, TrimEnd, LineEnd, Strip, Guard, Stays, SignFirst, Texts, FirstOf, Sticks;
      var t, u := bs[0].text, Texts(bs[1..]);
      assert Texts(bs) == t + u by { TextsFirst(bs); }
      assert t != [] && Line(t) == t by { StaysText(bs[0]); }
      var i := BlockGuards(bs[0]);
      FirstOfBlock(t, u);
      var q := GuardContinues(t + u, i, quotes);
      if !SignFirst(Continue(t + u, quotes).value.value) {
        var line := TrimEnd(t[..LineEnd(t)]);
        if j :| 0 <= j < |line| && Sticks(line, j) {
          SticksStays(line, j, if quotes > 0 then 1 else 0);
        }
        assert (t + u)[|t|..] == u;
        BlocksContinue(bs[1..], q);
      }
    }
  }

  lemma SticksStays(line: string, j: nat, q: nat)
    requires j < |line| && Sticks(line, j)
    ensures Strip(line, q).0 != []
  {
    StripKeeps(line, j, q);
  }

  lemma TextsFirst(bs: seq<Block>)
    requires bs != []
    ensures Texts(bs) == bs[0].text + Texts(bs[1..])
  {
  }

  lemma StaysText(b: Block)
    requires Stays(b)
    ensures b.text != [] && Line(b.text) == b.text
  {
  }

  // ---- the value

  // A text that ends in a backslash, behind spaces, cannot become what it begins.
  lemma Clash(v: string, lead: string, b: string, val: string, s: string)
    requires lead + b <= v && Spaces(lead) && b != [] && b[|b| - 1] == '\\'
    requires |val| < |b| && Signs(val) == Signs(b) && SignFirst(s)
    ensures v != val + s
  {
    hide Signs;
    if v == val + s {
      var n := |lead| + |b| - 1;
      var m := n - |val|;
      assert v[n] == (lead + b)[n] == '\\';
      assert s[m] == v[n];
      var i :| 0 <= i < m && Sign(s[i]);
      SignCounts(s[..m], i);
      SignsBefore(v, lead, b, n);
      assert v[..n] == val + s[..m];
      SignsConcat(val, s[..m]);
    }
  }

  lemma SignsBefore(v: string, lead: string, b: string, n: nat)
    requires lead + b <= v && Spaces(lead) && b != [] && b[|b| - 1] == '\\' && n == |lead| + |b| - 1
    ensures Signs(v[..n]) == Signs(b)
  {
    hide Signs;
    var front, last := b[..|b| - 1], [b[|b| - 1]];
    assert v[..n] == (lead + b)[..n] == lead + front;
    SignsConcat(lead, front);
    NoSigns(lead);
    assert b == front + last;
    SignsConcat(front, last);
    NoSigns(last);
  }

  lemma UnquotedSwallows(v: string, w: string, q: nat, rest: string)
    requires v != [] && QuotesFor(v) == [] && w <= " " + v && (w == [] || !IsSpace(w[|w| - 1]))
    requires Given(w, q, rest) == Some(v) && (Continue(rest, q).Some? ==> SignFirst(Continue(rest, q).value.value))
    ensures Unescape(w[Leading(w)..]).Some? && !Unescape(w[Leading(w)..]).value.1
  {
    hide Unescape, Continue, Leading, QuotesFor, Signs, SignFirst;
    if w == [] {
      EscapeNothing([]);
    } else {
      FirstPart(w, v);
      LeadingFacts(w);
      var n := Leading(w);
      var b := w[n..];
      UnescapeShortens(b);
      UnescapeSigns(b);
      if Unescape(b).value.1 {
        var lead := w[1..n];
        assert lead + b == w[1..];
        Tails(w, v);
        Clash(v, lead, b, Unescape(b).value.0, Continue(rest, q).value.value);
      }
    }
  }

  lemma Tails(w: string, v: string)
    requires w != [] && w <= " " + v
    ensures w[1..] <= v
  {
    assert (" " + v)[1..] == v;
  }

  lemma QuotedSwallows(v: string, w: string, q: nat, rest: string)
    requires var x := "\"" + v + "\""; w <= " " + x && (w == [] || !IsSpace(w[|w| - 1]))
    requires Given(w, q, rest) == Some(v) && (Continue(rest, q).Some? ==> SignFirst(Continue(rest, q).value.value))
    ensures Unescape(w[Leading(w)..]).Some? && !Unescape(w[Leading(w)..]).value.1
  {
    hide Unescape, Continue, Leading, Signs, SignFirst;
    var x := "\"" + v + "\"";
    if w == [] {
      EscapeNothing([]);
    } else {
      FirstPart(w, x);
      var b := w[Leading(w)..];
      UnescapeShortens(b);
      UnescapeSigns(b);
      if Unescape(b).value.1 {
        var b' := BehindQuote(v, b);
        assert [] + b' == b';
        Clash(v, [], b', Unescape(b).value.0, Continue(rest, q).value.value);
      }
    }
  }

  lemma BehindQuote(v: string, b: string) returns (b': string)
    requires b != [] && b <= "\"" + v + "\"" && b[|b| - 1] == '\\'
    ensures b == "\"" + b' && b' <= v && b' != [] && b'[|b'| - 1] == '\\' && Signs(b') == Signs(b)
  {
    hide Signs;
    var x := "\"" + v + "\"";
    assert b[0] == x[0] == '"' && x[|x| - 1] == '"';
    b' := b[1..];
    assert b == "\"" + b';
    assert |b| < |x| && b' == x[1..|b|] && x[1..|b|] == v[..|b| - 1];
    SignsConcat("\"", b');
    NoSigns("\"");
  }

  lemma GivenAlone(w: string, q: nat, rest: string)
    requires Unescape(w[Leading(w)..]).Some? && !Unescape(w[Leading(w)..]).value.1
    ensures Given(w, q, rest) == Given(w, q, [])
  {
  }

  // A value without newlines that reads as itself in a file is plain, whatever comes behind.
  lemma OnlyPlainStays(name: string, v: string, bs: seq<Block>)
    requires IsName(name) && '\n' !in v && AllStay(bs)
    ensures match Next(ValueText(name, v) + Texts(bs))
      case End => false
      case Fail(_) => true
      case Found(b) => b.VariableBlock? && b.name == name && (b.value == Some(v) ==> Plain(v))
  {
    hide Next, Given, ValueText, Plain, AllStay, Texts, Continue, Unescape, SignFirst;
    var qs := QuotesFor(v);
    var x := qs + v + qs;
    var rest := Texts(bs);
    assert '\n' !in x && First(x, '\n') == |x|;
    TextParts(name, v, |x|);
    assert x[..|x|] == x;
    var text := "\t" + (name + " = " + x) + "\n";
    assert ValueText(name, v) == text by { assert text + [] == text; }
    var w, q := FirstLine(name, x, rest);
    if Given(w, q, rest) == Some(v) {
      if Continue(rest, q).Some? {
        BlocksContinue(bs, q);
      }
      if v == [] {
        assert Plain(v) by { NothingIsPlain(); }
      } else if qs == [] {
        assert x == v && v[..|v|] == v;
        UnquotedSwallows(v, w, q, rest);
        GivenAlone(w, q, rest);
        UnquotedOnly(v, w, q, [], |v|);
      } else {
        assert x == "\"" + v + "\"";
        QuotedParts(v, x, |x|);
        QuotedSwallows(v, w, q, rest);
        GivenAlone(w, q, rest);
        QuotedOnly(v, w, q, [], |x|);
      }
    }
  }
}
