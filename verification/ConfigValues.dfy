// The lines that config_write makes, read again: what becomes of a value that is escaped
// and put between quotes where that is needed, and of a section header.
module ConfigValues {
  import opened Options
  import opened ConfigText
  import opened ConfigParse
  import opened ConfigRewrite

  predicate IsName(s: string) {
    s != [] && forall i :: 0 <= i < |s| ==> IsNameChar(s[i])
  }

  predicate Spaces(s: string) {
    forall i :: 0 <= i < |s| ==> IsSpace(s[i])
  }

  // ---- one line

  lemma {:induction false} NameLengthIs(name: string, rest: string)
    requires (forall i :: 0 <= i < |name| ==> IsNameChar(name[i])) && (rest == [] || !IsNameChar(rest[0]))
    ensures NameLength(name + rest) == |name|
  {
    if name == [] {
      assert name + rest == rest;
    } else {
      assert (name + rest)[1..] == name[1..] + rest;
      NameLengthIs(name[1..], rest);
    }
  }

  lemma {:induction false} LeadingOf(spaces: string, x: string)
    requires Spaces(spaces) && (x == [] || !IsSpace(x[0]))
    ensures Leading(spaces + x) == |spaces|
  {
    if spaces == [] {
      assert spaces + x == x;
    } else {
      assert (spaces + x)[1..] == spaces[1..] + x;
      LeadingOf(spaces[1..], x);
    }
  }

  lemma AssignmentOf(name: string, spaces: string, x: string)
    requires IsName(name) && Spaces(spaces) && (x == [] || !IsSpace(x[0])) && Unescape(x).Some?
    ensures Assignment(name + " =" + spaces + x) == Some((name, Some(Unescape(x).value)))
  {
    hide Unescape, IsName, ParseName, Leading;
    NameOf(name, spaces + x);
    assert name + " =" + spaces + x == name + " =" + (spaces + x);
    LeadingOf(spaces, x);
    assert (spaces + x)[|spaces|..] == x;
  }

  lemma NameOf(name: string, rest: string)
    requires IsName(name)
    ensures ParseName(name + " =" + rest) == Some((name, Some(rest)))
  {
    hide Leading, NameLength;
    var s := name + " =" + rest;
    NameLengthIs(name, " =" + rest);
    assert s == name + (" =" + rest);
    assert s[|name|..] == " =" + rest && s[..|name|] == name;
    LeadingOf(" ", "=" + rest);
    assert " =" + rest == " " + ("=" + rest);
    assert s[|name| + 1] == '=' && s[|name| + 2..] == rest;
  }

  lemma LineEndOf(body: string, u: string)
    requires '\n' !in body
    ensures LineEnd(body + "\n" + u) == |body| + 1
  {
    LineEndIs(body + "\n" + u, |body| + 1);
  }

  lemma TrimNewline(body: string)
    ensures TrimEnd(body + "\n") == TrimEnd(body)
  {
    TrimFacts(body);
    TrimEndIs(body + "\n", TrimEnd(body));
  }

  // Spaces within a line.
  predicate Blanks(s: string) {
    forall i :: 0 <= i < |s| ==> IsSpace(s[i]) && s[i] != '\n'
  }

  lemma {:induction false} BlankIs(lead: string, s: string)
    requires Blanks(lead) && (s == [] || !IsSpace(s[0]) || s[0] == '\n')
    ensures Blank(lead + s) == |lead|
  {
    if lead == [] {
      assert lead + s == s;
    } else {
      assert (lead + s)[1..] == lead[1..] + s;
      BlankIs(lead[1..], s);
    }
  }

  // One line, between the spaces around it.
  lemma LineReadsAt(lead: string, body: string, u: string)
    requires Blanks(lead) && '\n' !in body && body != [] && !IsSpace(body[0])
    ensures var t := lead + body + "\n" + u;
      && Blank(t) == |lead| && t[|lead|] == body[0]
      && ReadLine(t, true) == (TrimEnd(body), |lead| + |body| + 1)
  {
    hide TrimEnd, ReadLine, Blank;
    var s := body + "\n" + u;
    assert lead + body + "\n" + u == lead + s && s[0] == body[0];
    BlankIs(lead, s);
    ReadsBehindBlanks(lead, body, s, u);
  }

  lemma ReadsBehindBlanks(lead: string, body: string, s: string, u: string)
    requires Blanks(lead) && '\n' !in body && body != [] && !IsSpace(body[0]) && s == body + "\n" + u
    ensures ReadLine(lead + s, true) == (TrimEnd(body), |lead| + |body| + 1)
  {
    hide TrimEnd, LineEnd, LineFrom, Leading;
    assert s[0] == body[0] && s[..|body| + 1] == body + "\n";
    LeadingOf(lead, s);
    LineEndOf(body, u);
    LineFromIs(lead, s);
    TrimNewline(body);
  }

  lemma LineReads(body: string, u: string)
    requires '\n' !in body && body != [] && !IsSpace(body[0])
    ensures var t := "\t" + body + "\n" + u;
      && Blank(t) == 1 && t[1] == body[0]
      && ReadLine(t, true) == (TrimEnd(body), |body| + 2)
  {
    hide TrimEnd, Blank, ReadLine;
    LineReadsAt("\t", body, u);
  }

  // A line that assigns v in its own right stands on its own.
  lemma AssignmentStands(name: string, x: string, v: string)
    requires IsName(name) && '\n' !in x
    requires Assignment(Strip(TrimEnd(name + " = " + x), 0).0) == Some((name, Some((v, false))))
    ensures Standing(VariableBlock("\t" + name + " = " + x + "\n", name, Some(v), false))
  {
    hide Assignment, Strip, TrimEnd, Blank, ReadLine;
    var body := name + " = " + x;
    var text := "\t" + name + " = " + x + "\n";
    forall u
      ensures Next(text + u) == Found(VariableBlock(text, name, Some(v), false))
    {
      assert text + u == "\t" + body + "\n" + u;
      assert body[0] == name[0];
      LineReads(body, u);
      assert (text + u)[..|body| + 2] == text;
    }
  }

  // ---- comment signs

  lemma {:induction false} ScanPlain(line: string, i: nat, quotes: nat, slashes: nat)
    requires i <= |line| && forall j :: i <= j < |line| ==> line[j] != ';' && line[j] != '#'
    ensures Scan(line, i, quotes, slashes).0 == |line|
    decreases |line| - i
  {
    if i < |line| {
      var q := if line[i] == '"' && i > 0 && line[i - 1] != '\\' then quotes + 1 else quotes;
      ScanPlain(line, i + 1, q, if line[i] == '\\' then slashes + 1 else 0);
    }
  }

  // Inside quotes nothing is a comment as long as each quote follows a backslash.
  lemma {:induction false} ScanQuoted(line: string, i: nat, quotes: nat, slashes: nat)
    requires 0 < i < |line| && quotes % 2 == 1 && line[|line| - 1] == '"'
    requires forall j :: i <= j < |line| - 1 && line[j] == '"' ==> line[j - 1] == '\\'
    ensures Scan(line, i, quotes, slashes).0 == |line|
    decreases |line| - i
  {
    if i < |line| - 1 {
      ScanQuoted(line, i + 1, quotes, if line[i] == '\\' then slashes + 1 else 0);
    }
  }

  lemma {:induction false} ScanUpTo(line: string, i: nat, k: nat, slashes: nat)
    requires i <= k < |line| && 0 < k && line[k] == '"' && line[k - 1] != '\\'
    requires forall j :: i <= j < k ==> line[j] != ';' && line[j] != '#' && line[j] != '"' && line[j] != '\\'
    requires i > 0 ==> slashes == 0
    ensures Scan(line, i, 0, slashes) == Scan(line, k + 1, 1, 0)
    decreases k - i
  {
    if i < k {
      ScanUpTo(line, i + 1, k, 0);
    }
  }

  // ---- escaped values

  lemma {:induction false} EscapedIsPlain(v: string)
    ensures var e := Escape(v);
      && '\n' !in e && (v != [] ==> e != [])
      && (forall j :: 0 <= j < |e| && e[j] == '"' ==> j > 0 && e[j - 1] == '\\')
  {
    if v != [] {
      EscapedIsPlain(v[1..]);
      var a, e := EscapeChar(v[0]), Escape(v[1..]);
      forall j | 0 <= j < |a + e| && (a + e)[j] == '"'
        ensures j > 0 && (a + e)[j - 1] == '\\'
      {
        if j >= |a| {
          assert e[j - |a|] == '"';
        }
      }
    }
  }

  lemma {:induction false} EscapeConcat(a: string, b: string)
    ensures Escape(a + b) == Escape(a) + Escape(b)
  {
    if a == [] {
      assert a + b == b;
    } else {
      assert (a + b)[1..] == a[1..] + b;
      EscapeConcat(a[1..], b);
    }
  }

  // The spaces that are written as they are.
  predicate IsRaw(c: char) {
    c == ' ' || c == '\U{C}' || c == '\r' || c == '\U{B}'
  }

  predicate AllRaw(s: string) {
    forall i :: 0 <= i < |s| ==> IsRaw(s[i])
  }

  lemma {:induction false} EscapeRaw(s: string)
    requires AllRaw(s)
    ensures Escape(s) == s
  {
    if s != [] {
      EscapeRaw(s[1..]);
    }
  }

  lemma {:induction false} EscapeEnds(m: string)
    requires m != []
    ensures var e := Escape(m); e != [] && (IsSpace(e[0]) <==> IsRaw(m[0])) && (IsSpace(e[|e| - 1]) <==> IsRaw(m[|m| - 1]))
  {
    var a := EscapeChar(m[0]);
    if |m| == 1 {
      assert Escape(m[1..]) == [];
    } else {
      EscapeEnds(m[1..]);
    }
  }

  function DropRaw(v: string): string {
    if v == [] || !IsRaw(v[0]) then v else DropRaw(v[1..])
  }

  function CutRaw(v: string): string {
    if v == [] || !IsRaw(v[|v| - 1]) then v else CutRaw(v[..|v| - 1])
  }

  lemma {:induction false} DropFacts(v: string) returns (a: string)
    ensures v == a + DropRaw(v) && AllRaw(a) && (DropRaw(v) == [] || !IsRaw(DropRaw(v)[0]))
  {
    if v == [] || !IsRaw(v[0]) {
      a := [];
    } else {
      a := DropFacts(v[1..]);
      a := [v[0]] + a;
    }
  }

  lemma {:induction false} CutFacts(v: string) returns (c: string)
    ensures v == CutRaw(v) + c && AllRaw(c) && (CutRaw(v) == [] || !IsRaw(CutRaw(v)[|CutRaw(v)| - 1]))
  {
    if v == [] || !IsRaw(v[|v| - 1]) {
      c := [];
    } else {
      c := CutFacts(v[..|v| - 1]);
      c := c + [v[|v| - 1]];
    }
  }

  // What a value reads as after it has been set: spaces at its ends that are neither
  // escaped nor quoted are lost.
  function Kept(v: string): string {
    if QuotesFor(Escape(v)) != [] then v else CutRaw(DropRaw(v))
  }

  lemma QuotedReads(name: string, v: string)
    requires IsName(name)
    ensures var x := "\"" + Escape(v) + "\"";
      '\n' !in x && Assignment(Strip(TrimEnd(name + " = " + x), 0).0) == Some((name, Some((v, false))))
  {
    hide Escape, Scan, TrimEnd, Strip, Assignment, Unescape, IsName;
    var x := "\"" + Escape(v) + "\"";
    var line := name + " = " + x;
    EscapedIsPlain(v);
    QuotedScans(name, Escape(v));
    assert line[|line| - 1] == '"';
    TrimEndIs(line, line);
    StripWhole(line);
    QuotedUnescapes(v);
    assert line == name + " =" + " " + x;
    AssignmentOf(name, " ", x);
  }

  lemma QuotedUnescapes(v: string)
    ensures Unescape("\"" + Escape(v) + "\"") == Some((v, false))
  {
    hide Escape;
    var x := "\"" + Escape(v) + "\"";
    assert x[1..] == Escape(v) + "\"";
    UnescapeEscape(v, "\"");
    assert "\""[1..] == [] && v + [] == v;
  }

  lemma QuotedScans(name: string, e: string)
    requires IsName(name) && forall j :: 0 <= j < |e| && e[j] == '"' ==> j > 0 && e[j - 1] == '\\'
    ensures var line := name + " = " + ("\"" + e + "\""); Scan(line, 0, 0, 0).0 == |line|
  {
    var line := name + " = " + ("\"" + e + "\"");
    var k := |name| + 3;
    assert line[k] == '"' && line[k - 1] == ' ';
    ScanUpTo(line, 0, k, 0);
    forall j | k + 1 <= j < |line| - 1 && line[j] == '"'
      ensures line[j - 1] == '\\'
    {
      assert line[j] == e[j - k - 1];
      assert line[j - 1] == e[j - k - 2];
    }
    ScanQuoted(line, k + 1, 1, 0);
  }

  // A value is what is kept of it between spaces that are written as they are.
  lemma ValueParts(v: string) returns (a: string, m: string, c: string)
    ensures m == CutRaw(DropRaw(v)) && AllRaw(a) && AllRaw(c) && Escape(v) == a + Escape(m) + c
    ensures m == [] || (!IsRaw(m[0]) && !IsRaw(m[|m| - 1]))
  {
    hide Escape, DropRaw, CutRaw;
    a := DropFacts(v);
    m := CutRaw(DropRaw(v));
    c := CutFacts(DropRaw(v));
    assert m != [] ==> m[0] == DropRaw(v)[0];
    EscapeConcat(a, m + c);
    EscapeConcat(m, c);
    EscapeRaw(a);
    EscapeRaw(c);
    assert a + (Escape(m) + c) == a + Escape(m) + c;
  }

  lemma TrimmedReads(name: string, a: string, m: string, line: string)
    requires IsName(name) && AllRaw(a) && (m == [] || !IsRaw(m[0]))
    requires line == (if m == [] then name + " =" else name + " = " + a + Escape(m))
    ensures Assignment(line) == Some((name, Some((m, false))))
  {
    hide Assignment, Escape, Unescape;
    UnescapeEscape(m, []);
    EscapeNothing(m);
    if m == [] {
      assert line == name + " =" + [] + [];
      AssignmentOf(name, [], []);
    } else {
      EscapeEnds(m);
      assert line == name + " =" + (" " + a) + Escape(m);
      AssignmentOf(name, " " + a, Escape(m));
    }
  }

  lemma UnquotedReads(name: string, v: string)
    requires IsName(name) && QuotesFor(Escape(v)) == []
    ensures '\n' !in Escape(v)
    ensures Assignment(Strip(TrimEnd(name + " = " + Escape(v)), 0).0) == Some((name, Some((CutRaw(DropRaw(v)), false))))
  {
    hide Assignment, Strip, TrimEnd, Escape, DropRaw, CutRaw;
    EscapedIsPlain(v);
    var a, m, c := ValueParts(v);
    var line := TrimmedLine(name, a, m, c);
    assert forall j :: 0 <= j < |line| ==> line[j] == (name + " = " + Escape(v))[j];
    ScanPlain(line, 0, 0, 0);
    StripWhole(line);
    TrimmedReads(name, a, m, line);
  }

  lemma EscapeNothing(m: string)
    ensures Escape([]) == [] && Unescape([]) == Some(([], false)) && Escape(m) + [] == Escape(m) && m + [] == m
  {
  }

  // The line without the spaces at its end.
  lemma TrimmedLine(name: string, a: string, m: string, c: string) returns (line: string)
    requires IsName(name) && AllRaw(a) && AllRaw(c) && (m == [] || !IsRaw(m[|m| - 1]))
    ensures line == (if m == [] then name + " =" else name + " = " + a + Escape(m))
    ensures TrimEnd(name + " = " + (a + Escape(m) + c)) == line && line != [] && !IsSpace(line[|line| - 1])
    ensures line <= name + " = " + (a + Escape(m) + c)
  {
    hide TrimEnd, Escape;
    var whole := name + " = " + (a + Escape(m) + c);
    EscapeNothing(m);
    if m == [] {
      line := name + " =";
      assert whole == line + (" " + a + c);
    } else {
      EscapeEnds(m);
      line := name + " = " + a + Escape(m);
      assert whole == line + c;
      assert line[|line| - 1] == Escape(m)[|Escape(m)| - 1];
    }
    TrimEndIs(whole, line);
  }

  lemma StripWhole(line: string)
    requires line != [] && !IsSpace(line[|line| - 1]) && Scan(line, 0, 0, 0).0 == |line|
    ensures Strip(line, 0).0 == line
  {
    assert line[..|line|] == line;
    TrimEndIs(line, line);
  }

  // The line of a value that has been set always stands, and reads as what is kept of it.
  lemma ValueStands(ch: Change, v: string)
    requires IsName(ch.name)
    ensures ReadBack(ch.name, Escape(v)) == Kept(v) && Standing(NewLine(ch, Escape(v)))
  {
    hide Assignment, Strip, TrimEnd, Next, Escape;
    var e := Escape(v);
    var q := QuotesFor(e);
    var x := q + e + q;
    assert ValueText(ch.name, e) == "\t" + ch.name + " = " + x + "\n";
    if q == [] {
      UnquotedReads(ch.name, v);
      assert x == e;
    } else {
      QuotedReads(ch.name, v);
      assert x == "\"" + e + "\"";
    }
    AssignmentStands(ch.name, x, Kept(v));
    StandingNext(VariableBlock(ValueText(ch.name, e), ch.name, Some(Kept(v)), false), []);
    assert ValueText(ch.name, e) + [] == ValueText(ch.name, e);
  }

  // A value reads back as itself unless it begins or ends with a carriage return, a form
  // feed or a vertical tab and nothing else makes the source put it between quotes.
  predicate Keeps(v: string) {
    QuotesFor(Escape(v)) != [] || (v != [] && !IsRaw(v[0]) && !IsRaw(v[|v| - 1]))
  }

  lemma KeptIffKeeps(v: string)
    ensures Kept(v) == v <==> Keeps(v)
  {
    hide Escape;
    if QuotesFor(Escape(v)) == [] {
      assert v != [] by { EscapeNothing(v); }
      var a := DropFacts(v);
      var c := CutFacts(DropRaw(v));
      if IsRaw(v[0]) {
        assert |DropRaw(v)| < |v|;
      } else if IsRaw(v[|v| - 1]) {
        assert |CutRaw(v)| < |v|;
      }
    }
  }

  // ---- headers

  // A section as its own header reads it: an escaped character of the subsection stands
  // for the letter it is written with.
  function Misread(s: string): string {
    if s == [] then [] else [if Escaped(s[0]).Some? then Escaped(s[0]).value else s[0]] + Misread(s[1..])
  }

  function ReadAs(section: string): string {
    var dot := First(section, '.');
    if dot == |section| then section else section[..dot] + "." + Misread(section[dot + 1..])
  }

  // What git_config__normalize_name makes sure of.
  predicate IsSection(section: string) {
    var base := section[..First(section, '.')];
    IsName(base) && LowerAll(base) == base
  }

  lemma {:induction false} ExtReads(line: string, r: nat, s: string, name: string)
    requires r <= |line| && line[r..] == Escape(s) + "\"]"
    ensures ExtFrom(line, r, r + |Escape(s)|, name) == Some(name + Misread(s))
    decreases |s|
  {
    if s == [] {
      assert line[r] == line[r..][0] && line[r + 1] == line[r..][1];
      assert name + [] == name;
    } else {
      var a, rest := EscapeChar(s[0]), Escape(s[1..]);
      var p := r + |a| - 1;
      var name' := name + [a[|a| - 1]];
      ExtStep(line, r, a, rest);
      ExtReads(line, p + 1, s[1..], name');
      assert name' + Misread(s[1..]) == name + Misread(s);
      if s[1..] != [] {
        EscapedIsPlain(s[1..]);
      }
    }
  }

  lemma ExtStep(line: string, r: nat, a: string, rest: string)
    requires r <= |line| && line[r..] == a + rest + "\"]" && 0 < |a| <= 2
    ensures var p := r + |a| - 1;
      && p < |line| && line[r] == a[0] && line[p] == a[|a| - 1] && line[p + 1..] == rest + "\"]"
      && (rest == [] ==> p + 2 < |line| && line[p + 1] == '"' && line[p + 2] == ']')
  {
    var p := r + |a| - 1;
    assert line[r] == line[r..][0] && line[p] == line[r..][|a| - 1];
    assert line[p + 1..] == line[r..][|a|..];
    if rest == [] {
      assert line[p + 1] == line[p + 1..][0] && line[p + 2] == line[p + 1..][1];
    }
  }

  // What a header may begin with: names and dots.
  predicate IsBase(n: string) {
    n != [] && forall i :: 0 <= i < |n| ==> IsNameChar(n[i]) || n[i] == '.'
  }

  // The base is taken in lower case, whatever case it is written in.
  lemma {:induction false} BaseReads(line: string, n: string, i: nat)
    requires IsBase(n) && i < |n| && |line| > |n| + 1 && line[1..|n| + 1] == n
    requires line[|n| + 1] == ']' || line[|n| + 1] == ' '
    ensures HeaderFrom(line, i + 1, LowerAll(n[..i])) == if line[|n| + 1] == ']' then Some(LowerAll(n)) else HeaderExt(line, LowerAll(n))
    decreases |n| - i
  {
    hide HeaderExt;
    assert line[i + 1] == line[1..|n| + 1][i] == n[i];
    assert LowerAll(n[..i]) + [Lower(n[i])] == LowerAll(n[..i + 1]);
    if i + 1 < |n| {
      assert line[i + 2] == line[1..|n| + 1][i + 1] == n[i + 1];
      BaseReads(line, n, i + 1);
    } else {
      assert n[..i + 1] == n;
    }
  }

  lemma FirstIs(s: string, c: char, k: nat)
    requires k < |s| && s[k] == c && forall j :: 0 <= j < k ==> s[j] != c
    ensures First(s, c) == k
  {
  }

  lemma LastIs(s: string, c: char, k: nat)
    requires k < |s| && s[k] == c && forall j :: k < j < |s| ==> s[j] != c
    ensures c in s && Last(s, c) == k
  {
  }

  // The header line without its newline.
  function HeaderLine(section: string): string {
    var dot := First(section, '.');
    "[" + section[..dot] + (if dot == |section| then "]" else " \"" + Escape(section[dot + 1..]) + "\"]")
  }

  lemma PlainHeaderSays(n: string)
    requires IsBase(n)
    ensures Header("[" + n + "]") == Some(LowerAll(n))
  {
    var line := "[" + n + "]";
    assert line[1..|n| + 1] == n && LowerAll(n[..0]) == [] && line[|n| + 1] == ']';
    BaseReads(line, n, 0);
  }

  lemma ExtHeaderSays(n: string, sub: string)
    requires IsBase(n)
    ensures Header("[" + n + " \"" + Escape(sub) + "\"]") == Some(LowerAll(n) + "." + Misread(sub))
  {
    hide Escape, Misread, ExtFrom;
    var e := Escape(sub);
    var line := "[" + n + " \"" + e + "\"]";
    assert line[1..|n| + 1] == n && LowerAll(n[..0]) == [] && line[|n| + 1] == ' ' && line[|line| - 1] == ']';
    BaseReads(line, n, 0);
    QuotesInHeader(line, n, e);
    assert line[|n| + 3..] == e + "\"]";
    ExtReads(line, |n| + 3, sub, LowerAll(n) + ".");
  }

  lemma HeaderLineSays(section: string)
    requires IsSection(section)
    ensures var line := HeaderLine(section);
      && line != [] && HeaderText(section) == line + "\n" && '\n' !in line && line[0] == '[' && line[|line| - 1] == ']'
      && Header(line) == Some(ReadAs(section))
  {
    hide Header, Escape, Misread;
    var dot := First(section, '.');
    var base := section[..dot];
    if dot == |section| {
      assert base == section;
      PlainHeaderSays(base);
      assert HeaderLine(section) == "[" + base + "]";
    } else {
      ExtHeaderSays(base, section[dot + 1..]);
      ExtLine(base, section[dot + 1..]);
      assert HeaderLine(section) == "[" + base + (" \"" + Escape(section[dot + 1..]) + "\"]");
    }
  }

  lemma ExtLine(base: string, sub: string)
    requires IsName(base)
    ensures var line := "[" + base + " \"" + Escape(sub) + "\"]";
      && '\n' !in line && line[0] == '[' && line[|line| - 1] == ']'
      && line == "[" + base + (" \"" + Escape(sub) + "\"]")
      && "[" + base + " \"" + Escape(sub) + "\"]\n" == line + "\n"
  {
    hide Escape;
    EscapedIsPlain(sub);
  }

  lemma QuotesInHeader(line: string, base: string, e: string)
    requires IsBase(base) && line == "[" + base + " \"" + e + "\"]"
    ensures '"' in line && First(line, '"') == |base| + 2 && Last(line, '"') == |line| - 2
  {
    assert forall j :: 0 < j <= |base| ==> line[j] == base[j - 1];
    assert line[|base| + 2] == '"' && line[|line| - 2] == '"';
    FirstIs(line, '"', |base| + 2);
    LastIs(line, '"', |line| - 2);
  }

  lemma HeaderStands(ch: Change)
    requires IsSection(ch.section)
    ensures ReadSection(ch.section) == ReadAs(ch.section) && Standing(NewSection(ch))
  {
    hide Header, ReadAs, HeaderText, HeaderLine, ReadLine;
    var text := HeaderText(ch.section);
    var line := HeaderLine(ch.section);
    var b := SectionBlock(text, ReadAs(ch.section));
    HeaderLineSays(ch.section);
    forall u
      ensures Next(text + u) == Found(b)
    {
      HeaderLineReads(line, u);
      assert text + u == line + "\n" + u && (text + u)[..|text|] == text;
    }
    assert Standing(b);
    StandingNext(b, []);
    assert text + [] == text;
  }

  lemma HeaderLineReads(line: string, u: string)
    requires line != [] && '\n' !in line && line[0] == '[' && line[|line| - 1] == ']'
    ensures var t := line + "\n" + u; Blank(t) == 0 && t[0] == '[' && ReadLine(t, true) == (line, |line| + 1)
  {
    var t := line + "\n" + u;
    LineEndOf(line, u);
    assert [] + t == t;
    assert t[..|line| + 1] == line + "\n";
    LineFromIs([], t);
    TrimEndIs(line + "\n", line);
  }

  lemma {:induction false} MisreadIff(s: string)
    ensures Misread(s) == s <==> forall i :: 0 <= i < |s| ==> s[i] != '\t' && s[i] != '\n' && s[i] != '\U{8}'
  {
    if s != [] {
      MisreadIff(s[1..]);
      assert s == [s[0]] + s[1..];
    }
  }
}
