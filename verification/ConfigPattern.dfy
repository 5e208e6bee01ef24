// Values that config_set_multivar writes: they are not escaped, and read back as themselves
// exactly if there is nothing in them that would have had to be.
module ConfigPattern {
  import opened Options
  import opened ConfigText
  import opened ConfigParse
  import opened ConfigRewrite
  import opened ConfigValues
  import opened ConfigExact

  // Neither a quote nor a backslash.
  predicate NoMarks(v: string) {
    forall i :: 0 <= i < |v| ==> v[i] != '"' && v[i] != '\\'
  }

  // The value stands on one line, and is put between quotes or has no spaces at its ends.
  predicate Plain(v: string) {
    && NoMarks(v) && '\n' !in v
    && (QuotesFor(v) != [] || (!IsSpace(v[0]) && !IsSpace(v[|v| - 1])))
  }

  // ---- values that come back

  lemma {:induction false} MarklessReads(v: string, rest: string)
    requires NoMarks(v)
    ensures Unescape(v + rest) == Behind(v, Unescape(rest))
  {
    if v == [] {
      assert v + rest == rest;
      assert Unescape(rest).Some? ==> [] + Unescape(rest).value.0 == Unescape(rest).value.0;
    } else {
      assert (v + rest)[1..] == v[1..] + rest;
      MarklessReads(v[1..], rest);
      BeforeBehind(v, Unescape(rest));
    }
  }

  lemma PlainReads(name: string, v: string)
    requires IsName(name) && Plain(v)
    ensures var x := QuotesFor(v) + v + QuotesFor(v);
      '\n' !in x && Assignment(Strip(TrimEnd(name + " = " + x), 0).0) == Some((name, Some((v, false))))
  {
    hide Assignment, Strip, TrimEnd, Unescape, Scan;
    var q := QuotesFor(v);
    var x := q + v + q;
    var line := name + " = " + x;
    if q == [] {
      assert x == v;
      ScanPlain(line, 0, 0, 0);
      MarklessReads(v, []);
      EscapeNothing(v);
    } else {
      assert x == "\"" + v + "\"";
      QuotedScans(name, v);
      MarklessReads(v, "\"");
      assert x[1..] == v + "\"" && x[0] == '"';
      QuoteAlone(x, v);
    }
    assert x != [] && line[|line| - 1] == x[|x| - 1];
    TrimEndIs(line, line);
    StripWhole(line);
    assert line == name + " =" + " " + x;
    AssignmentOf(name, " ", x);
  }

  lemma QuoteAlone(x: string, v: string)
    requires |x| > 0 && x[0] == '"' && Unescape(x[1..]) == Behind(v, Unescape("\""))
    ensures Unescape(x) == Some((v, false))
  {
    assert "\""[1..] == [] && v + [] == v;
    assert Unescape("\"") == Some(([], false));
  }

  lemma PlainStands(ch: Change, v: string)
    requires IsName(ch.name) && Plain(v)
    ensures ReadBack(ch.name, v) == v && Standing(NewLine(ch, v))
  {
    hide Assignment, Strip, TrimEnd, Next, Plain;
    PlainReads(ch.name, v);
    var q := QuotesFor(v);
    assert ValueText(ch.name, v) == "\t" + ch.name + " = " + (q + v + q) + "\n";
    AssignmentStands(ch.name, q + v + q, v);
    StandingNext(VariableBlock(ValueText(ch.name, v), ch.name, Some(v), false), []);
    assert ValueText(ch.name, v) + [] == ValueText(ch.name, v);
  }

  // ---- the others come back shorter, or changed

  // Quotes and backslashes only shorten a text.
  lemma {:induction false} UnescapeShortens(s: string)
    requires Unescape(s).Some?
    ensures var (v, multi) := Unescape(s).value;
      && |v| <= |s| - (if multi then 1 else 0) && (s != [] && s[0] == '"' ==> |v| <= |s| - (if multi then 2 else 1))
      && (|v| == |s| ==> v == s && NoMarks(s) && !multi)
      && (multi ==> s[|s| - 1] == '\\')
  {
    if s == [] {
    } else if s[0] == '"' || s[0] != '\\' {
      UnescapeShortens(s[1..]);
    } else if |s| > 1 {
      UnescapeShortens(s[2..]);
    }
  }

  // With a quote behind it, a text without marks is the only one that reads as itself.
  lemma {:induction false} QuotedShortens(v: string)
    requires Unescape(v + "\"").Some?
    ensures |Unescape(v + "\"").value.0| <= |v|
    ensures Unescape(v + "\"").value.0 == v ==> NoMarks(v)
  {
    var s := v + "\"";
    if v == [] {
      assert s[1..] == [];
    } else if v[0] == '"' || v[0] != '\\' {
      assert s[1..] == v[1..] + "\"";
      QuotedShortens(v[1..]);
    } else if |v| == 1 {
      assert s[2..] == [] && Unescape(s[2..]) == Some(([], false));
      assert Unescape(s).value.0 == ['"'];
    } else {
      assert s[2..] == v[2..] + "\"";
      QuotedShortens(v[2..]);
    }
  }

  // What a value continues with is shorter than the text it is read from.
  lemma {:induction false} ContinueShortens(t: string, quotes: nat)
    requires Continue(t, quotes).Some? && Line(t) == t
    ensures |Continue(t, quotes).value.value| <= if t == [] then 0 else |t| - 1
    decreases |t|
  {
    hide Scan, Leading;
    var (line, k) := ReadLine(t, false);
    if t != [] && line != [] {
      LineShortens(t);
      var (s, q) := Strip(line, if quotes > 0 then 1 else 0);
      TrimFacts(line[..Scan(line, 0, if quotes > 0 then 1 else 0, 0).0]);
      RestIsComplete(t, k);
      if s == [] {
        ContinueShortens(t[k..], q);
      } else if Unescape(s).Some? {
        UnescapeShortens(s);
        if Unescape(s).value.1 {
          ContinueShortens(t[k..], q);
        }
      }
    }
  }

  lemma LineShortens(t: string)
    requires t != [] && Line(t) == t
    ensures var (line, k) := ReadLine(t, false); |line| < k <= |t|
  {
    hide TrimEnd, LineEnd;
    var n := LineEnd(t);
    LineEndFacts(t);
    TrimFacts(t[..n]);
    assert IsSpace(t[..n][n - 1]);
    assert t[0..] == t;
  }

  lemma {:induction false} ScanReaches(line: string, i: nat, k: nat, quotes: nat, slashes: nat)
    requires i <= k <= |line| && forall j :: i <= j < k ==> line[j] != ';' && line[j] != '#'
    ensures Scan(line, i, quotes, slashes).0 >= k
    decreases |line| - i
  {
    if i < k {
      var q := if line[i] == '"' && i > 0 && line[i - 1] != '\\' then quotes + 1 else quotes;
      ScanReaches(line, i + 1, k, q, if line[i] == '\\' then slashes + 1 else 0);
    }
  }

  lemma TrimReaches(s: string, k: nat)
    requires k < |s| && !IsSpace(s[k])
    ensures |TrimEnd(s)| > k && TrimEnd(s) <= s
  {
    TrimFacts(s);
  }

  // The line as it is stripped: the name, the equals sign, and what is left of x. A quote
  // at the end goes only with what a comment takes.
  lemma StrippedLine(name: string, x: string) returns (w: string)
    requires IsName(name) && '\n' !in x
    ensures Strip(TrimEnd(name + " = " + x), 0).0 == name + " =" + w
    ensures w <= " " + x && (w == [] || !IsSpace(w[|w| - 1]))
    ensures x != [] && x[|x| - 1] == '"' ==> |w| == |x| + 1 || |w| < |x|
  {
    hide TrimEnd, Scan;
    var line := name + " = " + x;
    var k := |name| + 1;
    assert line[..k + 1] == name + " =" && line[k + 1..] == " " + x;
    TrimReaches(line, k);
    var t := TrimEnd(line);
    ScanReaches(t, 0, k + 1, 0, 0);
    var end := Scan(t, 0, 0, 0).0;
    TrimReaches(t[..end], k);
    TrimFacts(t[..end]);
    var s := TrimEnd(t[..end]);
    w := s[k + 1..];
    assert s == name + " =" + w;
    assert s <= t[..end] <= line && w == line[k + 1..][..|w|];
    assert w != [] ==> w[|w| - 1] == s[|s| - 1];
    if x != [] && x[|x| - 1] == '"' {
      assert line[|line| - 1] == '"' && |s| == |w| + k + 1 && |line| == |x| + k + 2;
      QuoteLast(line);
    }
  }

  lemma QuoteLast(line: string)
    requires line != [] && line[|line| - 1] == '"'
    ensures var s := Strip(TrimEnd(line), 0).0; |s| == |line| || |s| < |line| - 1
  {
    hide TrimEnd, Scan;
    TrimReaches(line, |line| - 1);
    assert TrimEnd(line) == line;
    var end := Scan(line, 0, 0, 0).0;
    ScanStops(line, 0, 0, 0);
    TrimFacts(line[..end]);
    if end == |line| {
      assert line[..end] == line;
    }
  }

  // What is read of a line that assigns a value, and of the lines behind it.
  ghost function Given(w: string, q: nat, rest: string): Option<string> {
    match Unescape(w[Leading(w)..])
    case None => None
    case Some((val, multi)) =>
      if !multi then Some(val)
      else match Continue(rest, q)
        case None => None
        case Some(more) => Some(val + more.value)
  }

  lemma FirstLine(name: string, first: string, rest: string) returns (w: string, q: nat)
    requires IsName(name) && '\n' !in first
    ensures w <= " " + first && (w == [] || !IsSpace(w[|w| - 1]))
    ensures first != [] && first[|first| - 1] == '"' ==> |w| == |first| + 1 || |w| < |first|
    ensures match Next("\t" + (name + " = " + first) + "\n" + rest)
      case End => false
      case Fail(_) => Given(w, q, rest) == None
      case Found(b) => b.VariableBlock? && b.name == name && b.value == Given(w, q, rest) && b.value.Some?
  {
    hide Strip, TrimEnd, Unescape, Blank, ReadLine, ParseName, Continue;
    w := StrippedLine(name, first);
    var body := name + " = " + first;
    q := Strip(TrimEnd(body), 0).1;
    var t := "\t" + body + "\n" + rest;
    assert body[0] == name[0];
    LineReads(body, rest);
    NameOf(name, w);
    assert t[|body| + 2..] == rest;
  }

  lemma NothingGiven(q: nat, rest: string)
    ensures Given([], q, rest) == Some([])
  {
  }

  lemma FirstPart(w: string, first: string)
    requires w <= " " + first && w != [] && !IsSpace(w[|w| - 1])
    ensures var b := w[Leading(w)..];
      && b != [] && |b| < |w| <= |first| + 1 && !IsSpace(b[0]) && b[|b| - 1] == w[|w| - 1]
      && (|b| == |w| - 1 ==> b == first[..|b|])
      && (first != [] && !IsSpace(first[0]) && |w| > 1 ==> |b| == |w| - 1)
  {
    LeadingFacts(w);
    assert w[0] == ' ';
    assert |w| > 1 ==> w[1] == first[0];
  }

  lemma UnquotedOnly(v: string, w: string, q: nat, rest: string, n: nat)
    requires v != [] && QuotesFor(v) == [] && n <= |v| && (n == |v| ==> '\n' !in v)
    requires w <= " " + v[..n] && (w == [] || !IsSpace(w[|w| - 1]))
    requires rest == if n < |v| then v[n + 1..] + "\n" else []
    requires Given(w, q, rest) == Some(v)
    ensures Plain(v)
  {
    hide Unescape, Continue, Leading, QuotesFor;
    if w == [] {
      NothingGiven(q, rest);
    } else {
      FirstPart(w, v[..n]);
      var b := w[Leading(w)..];
      UnescapeShortens(b);
      var (val, multi) := Unescape(b).value;
      if multi {
        ContinueShortens(rest, q);
      } else {
        assert |b| == n == |v| && b == v[..n] == v;
      }
    }
  }

  lemma QuotedOnly(v: string, w: string, q: nat, rest: string, n: nat)
    requires v != [] && QuotesFor(v) == "\"" && n <= |v| + 2 && (n == |v| + 2 ==> '\n' !in v)
    requires var x := "\"" + v + "\"";
      && w <= " " + x[..n] && (n == |x| ==> |w| == |x| + 1 || |w| < |x|)
      && (n < |x| ==> 0 < n < |x| - 1 && rest == x[n + 1..] + "\n") && (n == |x| ==> rest == [])
    requires (w == [] || !IsSpace(w[|w| - 1])) && Given(w, q, rest) == Some(v)
    ensures Plain(v)
  {
    hide Unescape, Continue, Leading, QuotesFor;
    var x := "\"" + v + "\"";
    if w == [] {
      NothingGiven(q, rest);
    } else {
      FirstPart(w, x[..n]);
      var b := w[Leading(w)..];
      UnescapeShortens(b);
      var (val, multi) := Unescape(b).value;
      assert |w| > 1;
      assert b[0] == '"';
      if multi {
        ContinueShortens(rest, q);
      } else {
        assert |b| == |x| && b == x;
        QuoteDropped(x, v);
        QuotedShortens(v);
      }
    }
  }

  lemma QuoteDropped(x: string, v: string)
    requires x == "\"" + v + "\""
    ensures Unescape(x) == Unescape(v + "\"")
  {
    assert x[1..] == v + "\"";
  }

  // The written line, up to the first newline in it, and what comes behind.
  lemma TextParts(name: string, v: string, n: nat)
    requires var x := QuotesFor(v) + v + QuotesFor(v); n == First(x, '\n')
    ensures var x := QuotesFor(v) + v + QuotesFor(v);
      var rest := if n < |x| then x[n + 1..] + "\n" else [];
      n <= |x| && '\n' !in x[..n] && ValueText(name, v) == "\t" + (name + " = " + x[..n]) + "\n" + rest
  {
    hide QuotesFor;
    var q := QuotesFor(v);
    var x := q + v + q;
    assert ValueText(name, v) == "\t" + (name + " = " + x) + "\n";
    if n < |x| {
      assert x == x[..n] + "\n" + x[n + 1..];
    } else {
      assert x[..n] == x;
    }
  }

  // A value that reads back as itself is plain. If the line that is written asks for
  // another one, what that adds is part of the text as well, so that it comes out shorter.
  lemma OnlyPlainReads(name: string, v: string)
    requires IsName(name)
    requires var n := Next(ValueText(name, v)); n.Found? && n.block.VariableBlock? && n.block.value == Some(v)
    ensures Plain(v)
  {
    hide Next, Given, ValueText, Plain;
    var q := QuotesFor(v);
    var x := q + v + q;
    var n := First(x, '\n');
    TextParts(name, v, n);
    var rest := if n < |x| then x[n + 1..] + "\n" else [];
    var w, k := FirstLine(name, x[..n], rest);
    if v == [] {
      assert Plain(v) by { NothingIsPlain(); }
    } else if q == [] {
      assert x == v;
      UnquotedOnly(v, w, k, rest, n);
    } else {
      QuotedParts(v, x, n);
      QuotedOnly(v, w, k, rest, n);
    }
  }

  lemma NothingIsPlain()
    ensures Plain([])
  {
  }

  lemma QuotedParts(v: string, x: string, n: nat)
    requires x == "\"" + v + "\"" && n == First(x, '\n')
    ensures 0 < n && (n < |x| ==> n < |x| - 1) && (n == |x| ==> '\n' !in v && x[..n] == x)
  {
    assert forall i :: 0 <= i < |v| ==> v[i] == x[i + 1];
    assert n < |x| ==> x[n] == '\n';
  }

  lemma ReadBackIff(name: string, v: string)
    requires IsName(name)
    ensures ReadBack(name, v) == v <==> Plain(v)
  {
    hide Next, Standing, ValueText;
    if Plain(v) {
      PlainStands(Change([], name, None, None), v);
    } else if ReadBack(name, v) == v {
      OnlyPlainReads(name, v);
    }
  }
}
