// What the lines of a configuration file read as, for files as people write them: in any
// case and spacing, with comments, quotes and continued lines.
module ConfigReads {
  import opened Options
  import opened ConfigText
  import opened ConfigParse
  import opened ConfigRewrite
  import opened ConfigTheory
  import opened ConfigValues
  import opened ConfigExact
  import opened ConfigPattern

  // ---- lower case

  const UPPER := "ABCDEFGHIJKLM" + "NOPQRSTUVWXYZ"
  const LOWER := "abcdefghijklm" + "nopqrstuvwxyz"

  lemma Letters(k: nat)
    requires k < 26
    ensures |UPPER| == |LOWER| == 26 && UPPER[k] as int == 'A' as int + k && LOWER[k] as int == 'a' as int + k
  {
  }

  lemma LowerIs(s: string, i: nat)
    requires i < |s|
    ensures forall k :: 0 <= k < 26 && s[i] == UPPER[k] ==> LowerAll(s)[i] == LOWER[k]
    ensures s[i] !in UPPER ==> LowerAll(s)[i] == s[i]
  {
    forall k | 0 <= k < 26 && s[i] == UPPER[k]
      ensures LowerAll(s)[i] == LOWER[k]
    {
      Letters(k);
    }
    if 'A' <= s[i] <= 'Z' {
      Letters(s[i] as int - 'A' as int);
    }
  }

  // ---- characters

  const FIGURES := "0123456789"
  const SPACES := " \t\n\U{B}\U{C}\r"
  // What may stand behind a backslash in a value, and what it stands for.
  const ESCAPES := "ntb\"\\"
  const ESCAPED := "\n\t\U{8}\"\\"

  lemma CharsAre(c: char)
    ensures IsNameChar(c) <==> c in UPPER || c in LOWER || c in FIGURES || c == '-'
    ensures IsSpace(c) <==> c in SPACES
  {
    InUpper(c);
    InLower(c);
    hide UPPER, LOWER;
    if '0' <= c <= '9' {
      assert FIGURES[c as int - '0' as int] == c;
    }
  }

  lemma InUpper(c: char)
    ensures c in UPPER <==> 'A' <= c <= 'Z'
  {
    if 'A' <= c <= 'Z' {
      Letters(c as int - 'A' as int);
    }
  }

  lemma InLower(c: char)
    ensures c in LOWER <==> 'a' <= c <= 'z'
  {
    if 'a' <= c <= 'z' {
      Letters(c as int - 'a' as int);
    }
  }

  // Any other sign behind a backslash is an error.
  lemma EscapesAre(c: char, t: string)
    ensures forall k :: 0 <= k < 5 && c == ESCAPES[k] ==> Unescape(['\\', c] + t) == Before(ESCAPED[k], Unescape(t))
    ensures c !in ESCAPES ==> Unescape(['\\', c] + t) == None
    ensures forall k :: 0 <= k < 5 && c == ESCAPED[k] ==> Escape([c] + t) == ['\\', ESCAPES[k]] + Escape(t)
    ensures c !in ESCAPED ==> Escape([c] + t) == [c] + Escape(t)
  {
    assert (['\\', c] + t)[2..] == t && ([c] + t)[1..] == t;
  }

  // ---- headers

  // The name of a section is the one in the header, in lower case.
  lemma HeaderReads(n: string, u: string)
    requires IsBase(n)
    ensures Next("[" + n + "]\n" + u) == Found(SectionBlock("[" + n + "]\n", LowerAll(n)))
  {
    hide Header, ReadLine;
    var line := "[" + n + "]";
    PlainHeaderSays(n);
    HeaderLineReads(line, u);
    assert "[" + n + "]\n" + u == line + "\n" + u && (line + "\n" + u)[..|line| + 1] == "[" + n + "]\n";
  }

  // A character that may not stand in the name of a section makes the header an error, and so
  // does a name of no characters.
  lemma HeaderRefuses(n: string, c: char, rest: string)
    requires (n == [] || IsBase(n)) && !IsSpace(c) && !IsNameChar(c) && c != '.' && (c == ']' ==> n == [])
    ensures Header("[" + n + [c] + rest) == None
  {
    var line := "[" + n + [c] + rest;
    assert line[|n| + 1] == c && forall j :: 0 <= j < |n| ==> line[j + 1] == n[j];
    HeaderStops(line, 1, |n| + 1, []);
  }

  lemma {:induction false} HeaderStops(line: string, i: nat, k: nat, name: string)
    requires 0 < i <= k < |line| && (line[k] == ']' ==> i == k)
    requires !IsSpace(line[k]) && !IsNameChar(line[k]) && line[k] != '.'
    requires forall j :: i <= j < k ==> IsNameChar(line[j]) || line[j] == '.'
    ensures HeaderFrom(line, i, name) == None
    decreases k - i
  {
    if i < k {
      HeaderStops(line, i + 1, k, name + [Lower(line[i])]);
    }
  }

  function Subheader(n: string, e: string): string {
    "[" + n + " \"" + e + "\"]"
  }

  // A subsection is taken as it is written, with a backslash before quotes and backslashes.
  lemma SubsectionReads(n: string, sub: string, u: string)
    requires IsBase(n) && forall i :: 0 <= i < |sub| ==> sub[i] != '\t' && sub[i] != '\n' && sub[i] != '\U{8}'
    ensures var text := Subheader(n, Escape(sub)) + "\n";
      Next(text + u) == Found(SectionBlock(text, LowerAll(n) + "." + sub))
  {
    hide Header, ReadLine, Escape, Misread, Subheader;
    var line := Subheader(n, Escape(sub));
    SubheaderSays(n, sub);
    HeaderLineReads(line, u);
    assert line + "\n" + u == (line + "\n") + u && (line + "\n" + u)[..|line| + 1] == line + "\n";
  }

  lemma SubheaderSays(n: string, sub: string)
    requires IsBase(n) && forall i :: 0 <= i < |sub| ==> sub[i] != '\t' && sub[i] != '\n' && sub[i] != '\U{8}'
    ensures var line := Subheader(n, Escape(sub));
      && Header(line) == Some(LowerAll(n) + "." + sub)
      && line != [] && '\n' !in line && line[0] == '[' && line[|line| - 1] == ']'
  {
    hide Header, Escape, Misread;
    ExtHeaderSays(n, sub);
    MisreadIff(sub);
    EscapedIsPlain(sub);
    assert '\n' !in n;
  }

  // Without quotes and backslashes it stands for itself.
  lemma PlainSubsectionReads(n: string, sub: string, u: string)
    requires IsBase(n) && NoMarks(sub) && forall i :: 0 <= i < |sub| ==> sub[i] != '\t' && sub[i] != '\n' && sub[i] != '\U{8}'
    ensures var text := Subheader(n, sub) + "\n";
      Next(text + u) == Found(SectionBlock(text, LowerAll(n) + "." + sub))
  {
    hide Next, Escape, Subheader;
    EscapeIsSame(sub);
    SubsectionReads(n, sub, u);
  }

  // The value holds nothing that would have to be escaped.
  predicate NeedsNoEscape(v: string) {
    forall i :: 0 <= i < |v| ==> Escaped(v[i]).None?
  }

  lemma {:induction false} EscapeIsSame(v: string)
    requires NeedsNoEscape(v)
    ensures Escape(v) == v
  {
    if v != [] {
      EscapeIsSame(v[1..]);
    }
  }

  // ---- variables

  // What may stand behind a value: nothing, or a comment.
  predicate IsComment(c: string) {
    (c != [] ==> c[0] == ';' || c[0] == '#') && '\n' !in c
  }

  // A text that stands for itself where it stands for a value.
  predicate Bare(v: string) {
    && NoMarks(v) && (v != [] ==> !IsSpace(v[0]) && !IsSpace(v[|v| - 1]))
    && forall i :: 0 <= i < |v| ==> v[i] != '\n' && v[i] != ';' && v[i] != '#'
  }

  // Where a comment begins outside quotes, the line ends.
  lemma {:induction false} ScanCuts(line: string, i: nat, k: nat, quotes: nat, slashes: nat)
    requires i <= k < |line| && (line[k] == ';' || line[k] == '#') && quotes % 2 == 0 && (slashes == 0 || i < k)
    requires forall j :: i <= j < k ==> line[j] != ';' && line[j] != '#' && line[j] != '"' && line[j] != '\\'
    ensures Scan(line, i, quotes, slashes) == (k, quotes)
    decreases k - i
  {
    if i < k {
      ScanCuts(line, i + 1, k, quotes, 0);
    }
  }

  lemma TrimSpaces(s: string, blanks: string)
    requires Spaces(blanks) && (s == [] || !IsSpace(s[|s| - 1]))
    ensures TrimEnd(s + blanks) == s
  {
    TrimEndIs(s + blanks, s);
  }

  // A line without quotes and backslashes, up to its comment.
  lemma StripIs(s: string, blanks: string, c: string)
    requires NoMarks(s) && Blanks(blanks) && IsComment(c) && s != [] && !IsSpace(s[|s| - 1])
    requires forall i :: 0 <= i < |s| ==> s[i] != ';' && s[i] != '#'
    ensures Strip(TrimEnd(s + blanks + c), 0) == (s, 0)
  {
    hide Scan, TrimEnd;
    var line := s + blanks + c;
    if c == [] {
      assert line == s + blanks;
      TrimSpaces(s, blanks);
      ScanPlain(s, 0, 0, 0);
      ScanCounts(s, 0);
      assert s[..|s|] == s;
      TrimSpaces(s, []);
      assert s + [] == s;
    } else {
      var k := |s + blanks|;
      assert line[k] == c[0];
      TrimReaches(line, k);
      var t := TrimEnd(line);
      assert forall j :: 0 <= j < k ==> t[j] == (s + blanks)[j];
      ScanCuts(t, 0, k, 0, 0);
      assert t[..k] == s + blanks;
      TrimSpaces(s, blanks);
    }
  }

  lemma {:induction false} ScanCounts(s: string, i: nat)
    requires NoMarks(s) && i <= |s| && forall j :: 0 <= j < |s| ==> s[j] != ';' && s[j] != '#'
    ensures Scan(s, i, 0, 0) == (|s|, 0)
    decreases |s| - i
  {
    if i < |s| {
      ScanCounts(s, i + 1);
    }
  }

  // A name alone: the variable is there without a value.
  lemma NameReads(lead: string, name: string, blanks: string, c: string, u: string)
    requires Blanks(lead) && IsName(name) && Blanks(blanks) && IsComment(c)
    ensures var text := lead + name + blanks + c + "\n";
      Next(text + u) == Found(VariableBlock(text, name, None, false))
  {
    hide Scan, TrimEnd, Blank, ReadLine, Strip, Leading, NameLength;
    var body := name + blanks + c;
    var text := lead + name + blanks + c + "\n";
    assert body[0] == name[0];
    LineReadsAt(lead, body, u);
    assert text + u == lead + body + "\n" + u && (text + u)[..|lead| + |body| + 1] == text;
    StripIs(name, blanks, c);
    NameLengthIs(name, []);
    assert name + [] == name && name[|name|..] == [];
    LeadingOf([], []);
    assert [] + [] == "";
    assert ParseName(name) == Some((name, None));
  }

  // What follows a name is nothing or an equals sign; everything else is an error.
  lemma NameRefuses(name: string, blanks: string, c: char, rest: string)
    requires if name == [] then blanks == [] && !IsNameChar(c)
      else IsName(name) && Spaces(blanks) && c != '=' && !IsSpace(c) && (IsNameChar(c) ==> blanks != [])
    ensures ParseName(name + blanks + [c] + rest) == None
  {
    hide Leading, NameLength;
    var line, tail := name + blanks + [c] + rest, blanks + ([c] + rest);
    assert line == name + tail && tail[0] == if blanks == [] then c else blanks[0];
    if name == [] {
      NoName(line);
    } else {
      NameLengthIs(name, tail);
      assert line[|name|..] == tail;
      LeadingOf(blanks, [c] + rest);
    }
  }

  lemma NoName(line: string)
    requires line != [] && !IsNameChar(line[0])
    ensures NameLength(line) == 0
  {
  }

  // A name, an equals sign and a value, between any spaces and before any comment.
  lemma ValueReads(lead: string, name: string, b1: string, b2: string, v: string, b3: string, c: string, u: string)
    requires Blanks(lead) && IsName(name) && Blanks(b1) && Blanks(b2) && Bare(v) && Blanks(b3) && IsComment(c)
    ensures var text := lead + (name + b1 + "=" + b2 + v + b3 + c) + "\n";
      Next(text + u) == Found(VariableBlock(text, name, Some(v), false))
  {
    hide TrimEnd, Blank, ReadLine, Strip, Assignment;
    var body := name + b1 + "=" + b2 + v + b3 + c;
    assert body[0] == name[0];
    if v == [] {
      EmptyStrips(name, b1, b2, b3, c);
      assert body == name + b1 + "=" + (b2 + b3) + c;
    } else {
      BareStrips(name, b1, b2, v, b3, c);
    }
    LineGives(lead, body, name, v, u);
  }

  lemma EmptyStrips(name: string, b1: string, b2: string, b3: string, c: string)
    requires IsName(name) && Blanks(b1) && Blanks(b2) && Blanks(b3) && IsComment(c)
    ensures var (s, q) := Strip(TrimEnd(name + b1 + "=" + (b2 + b3) + c), 0); Assignment(s) == Some((name, Some(([], false))))
  {
    hide Scan, TrimEnd, Strip, Leading, NameLength, Unescape;
    var s := name + b1 + "=";
    assert s[|s| - 1] == '=';
    StripIs(s, b2 + b3, c);
    GivesName(name, b1, []);
    assert s + [] == s;
    LeadingOf([], []);
    assert [] + [] == "" && ""[0..] == "";
    EscapeNothing([]);
  }

  lemma BareStrips(name: string, b1: string, b2: string, v: string, b3: string, c: string)
    requires IsName(name) && Blanks(b1) && Blanks(b2) && Bare(v) && v != [] && Blanks(b3) && IsComment(c)
    ensures var (s, q) := Strip(TrimEnd(name + b1 + "=" + b2 + v + b3 + c), 0); Assignment(s) == Some((name, Some((v, false))))
  {
    hide Scan, TrimEnd, Strip, Leading, NameLength, Unescape;
    var s := name + b1 + "=" + b2 + v;
    FrontIsClean(name, b1, b2);
    assert s == (name + b1 + "=" + b2) + v;
    assert s[|s| - 1] == v[|v| - 1] && name + b1 + "=" + b2 + v + b3 + c == s + b3 + c;
    StripIs(s, b3, c);
    MarklessReads(v, []);
    EscapeNothing(v);
    Assigns(name, b1, b2, v);
  }

  // Nothing in front of a value is a sign of its own.
  lemma FrontIsClean(name: string, b1: string, b2: string)
    requires IsName(name) && Blanks(b1) && Blanks(b2)
    ensures var front := name + b1 + "=" + b2; Clear(front) && NoMarks(front)
  {
  }

  predicate Clear(s: string) {
    forall i :: 0 <= i < |s| ==> s[i] != '\n' && s[i] != ';' && s[i] != '#'
  }

  lemma Assigns(name: string, b1: string, b2: string, x: string)
    requires IsName(name) && Blanks(b1) && Blanks(b2) && x != [] && !IsSpace(x[0]) && Unescape(x).Some?
    ensures Assignment(name + b1 + "=" + b2 + x) == Some((name, Some(Unescape(x).value)))
  {
    hide Leading, NameLength, Unescape, ParseName;
    GivesName(name, b1, b2 + x);
    assert name + b1 + "=" + b2 + x == name + b1 + "=" + (b2 + x);
    LeadingOf(b2, x);
    assert (b2 + x)[|b2|..] == x;
  }

  lemma GivesName(name: string, b1: string, rest: string)
    requires IsName(name) && Blanks(b1)
    ensures ParseName(name + b1 + "=" + rest) == Some((name, Some(rest)))
  {
    hide Leading, NameLength;
    var s := name + b1 + "=" + rest;
    assert s == name + (b1 + "=" + rest);
    assert (b1 + "=" + rest)[0] == if b1 == [] then '=' else b1[0];
    NameLengthIs(name, b1 + "=" + rest);
    assert s[|name|..] == b1 + ("=" + rest) && s[..|name|] == name;
    LeadingOf(b1, "=" + rest);
    assert s[|name| + |b1|] == '=' && s[|name| + |b1| + 1..] == rest;
  }

  // ---- quotes

  predicate Inside(line: string, i: nat, k: nat)
    requires 0 < i <= k <= |line|
  {
    forall j :: i <= j < k && line[j] == '"' ==> line[j - 1] == '\\'
  }

  // From one quote to the next that does not follow a backslash.
  lemma {:induction false} ScanInside(line: string, i: nat, k: nat, quotes: nat, slashes: nat)
    requires 0 < i <= k < |line| && quotes % 2 == 1 && line[k] == '"' && line[k - 1] != '\\'
    requires Inside(line, i, k)
    ensures Scan(line, i, quotes, slashes) == Scan(line, k + 1, quotes + 1, 0)
    decreases k - i
  {
    if i < k {
      ScanInside(line, i + 1, k, quotes, if line[i] == '\\' then slashes + 1 else 0);
    }
  }

  // Every quote follows a backslash.
  predicate Slashed(e: string) {
    forall j :: 0 <= j < |e| && e[j] == '"' ==> j > 0 && e[j - 1] == '\\'
  }

  lemma EscapedIsSlashed(v: string)
    ensures Slashed(Escape(v)) && '\n' !in Escape(v)
  {
    EscapedIsPlain(v);
  }

  function Quoted(e: string): string {
    "\"" + e + "\""
  }

  // The line name = "..." with a comment behind it: signs inside the quotes are no comments.
  lemma QuotedStrips(front: string, e: string, b3: string, c: string)
    requires front != [] && Clear(front) && NoMarks(front) && Blanks(b3) && IsComment(c) && c != []
    requires Slashed(e) && (e == [] || e[|e| - 1] != '\\')
    ensures Strip(TrimEnd(front + Quoted(e) + b3 + c), 0).0 == front + Quoted(e)
  {
    hide Scan, TrimEnd, Slashed, Quoted;
    var s := front + Quoted(e);
    var line := s + b3 + c;
    var k := |s + b3|;
    assert line[k] == c[0];
    TrimReaches(line, k);
    var t := TrimEnd(line);
    assert t[..k] == s + b3 && t[k] == c[0];
    assert s <= t;
    QuoteScans(t, front, e);
    AfterQuote(t, s, b3, k);
    QuoteLast(e);
    assert s[|s| - 1] == '"';
    TrimSpaces(s, b3);
  }

  lemma QuoteLast(e: string)
    ensures var q := Quoted(e); |q| == |e| + 2 && q[0] == '"' && q[|q| - 1] == '"' && q[1..|q| - 1] == e
  {
  }

  lemma AfterQuote(t: string, s: string, b3: string, k: nat)
    requires k == |s + b3| < |t| && t[..k] == s + b3 && Blanks(b3) && (t[k] == ';' || t[k] == '#')
    ensures Scan(t, |s|, 2, 0) == (k, 2)
  {
    assert forall j :: |s| <= j < k ==> t[j] == t[..k][j] == b3[j - |s|];
    ScanCuts(t, |s|, k, 2, 0);
  }

  lemma QuoteScans(t: string, front: string, e: string)
    requires front != [] && Clear(front) && NoMarks(front) && Slashed(e) && (e == [] || e[|e| - 1] != '\\')
    requires front + Quoted(e) <= t
    ensures |Quoted(e)| == |e| + 2 && Scan(t, 0, 0, 0) == Scan(t, |front| + |e| + 2, 2, 0)
  {
    hide Scan, Clear, NoMarks, Slashed, Inside, Quoted;
    var m, n := |front|, |front| + |e| + 1;
    QuoteParts(t, front, e);
    FrontScans(t, front);
    InsideIs(t, m, n, e);
    ScanInside(t, m + 1, n, 1, 0);
  }

  lemma QuoteParts(t: string, front: string, e: string)
    requires front + Quoted(e) <= t
    ensures |Quoted(e)| == |e| + 2
    ensures var m, n := |front|, |front| + |e| + 1; front <= t && n < |t| && t[m] == '"' && t[m + 1..n] == e && t[n] == '"'
  {
    hide Quoted;
    QuoteLast(e);
    var q := Quoted(e);
    assert t[..|front + q|] == front + q;
    assert t[|front|..|front + q|] == q;
  }

  lemma FrontScans(t: string, front: string)
    requires front != [] && Clear(front) && NoMarks(front) && front <= t && |front| < |t| && t[|front|] == '"'
    ensures Scan(t, 0, 0, 0) == Scan(t, |front| + 1, 1, 0)
  {
    hide Scan;
    assert forall j :: 0 <= j < |front| ==> t[j] == front[j];
    ScanUpTo(t, 0, |front|, 0);
  }

  lemma InsideIs(t: string, m: nat, n: nat, e: string)
    requires m < n < |t| && t[m + 1..n] == e && t[m] == '"' && (e == [] || e[|e| - 1] != '\\')
    requires Slashed(e)
    ensures t[n - 1] != '\\' && Inside(t, m + 1, n)
  {
    assert forall j :: 0 <= j < |e| ==> e[j] == t[m + 1 + j];
    forall j | m < j < n && t[j] == '"'
      ensures t[j - 1] == '\\'
    {
      assert e[j - m - 1] == '"';
      assert e[j - m - 2] == t[j - 1];
    }
  }

  // A value in quotes reads as it is, whatever signs it holds, with a comment behind it.
  lemma QuotedReads(lead: string, name: string, b1: string, b2: string, v: string, b3: string, c: string, u: string)
    requires Blanks(lead) && IsName(name) && Blanks(b1) && Blanks(b2) && Blanks(b3) && IsComment(c)
    requires c != [] && (v == [] || v[|v| - 1] != '\\')
    ensures var text := lead + (name + b1 + "=" + b2 + Quoted(Escape(v)) + b3 + c) + "\n";
      Next(text + u) == Found(VariableBlock(text, name, Some(v), false))
  {
    hide Next, TrimEnd, Strip, Assignment, Escape, IsComment, Quoted;
    var x := Quoted(Escape(v));
    var body := name + b1 + "=" + b2 + x + b3 + c;
    QuotedGives(name, b1, b2, v, b3, c);
    LineGives(lead, body, name, v, u);
  }

  // A line that assigns a value in its own right.
  lemma LineGives(lead: string, body: string, name: string, v: string, u: string)
    requires Blanks(lead) && IsName(name) && '\n' !in body && body != [] && body[0] == name[0]
    requires Assignment(Strip(TrimEnd(body), 0).0) == Some((name, Some((v, false))))
    ensures Next(lead + body + "\n" + u) == Found(VariableBlock(lead + body + "\n", name, Some(v), false))
  {
    hide TrimEnd, Blank, ReadLine, Strip, Assignment;
    LineReadsAt(lead, body, u);
    assert (lead + body + "\n" + u)[..|lead| + |body| + 1] == lead + body + "\n";
  }

  lemma QuotedGives(name: string, b1: string, b2: string, v: string, b3: string, c: string)
    requires IsName(name) && Blanks(b1) && Blanks(b2) && Blanks(b3) && IsComment(c)
    requires c != [] && (v == [] || v[|v| - 1] != '\\')
    ensures var body := name + b1 + "=" + b2 + Quoted(Escape(v)) + b3 + c;
      && '\n' !in body && body != [] && body[0] == name[0]
      && Assignment(Strip(TrimEnd(body), 0).0) == Some((name, Some((v, false))))
  {
    hide TrimEnd, Strip, Assignment, Escape, Unescape, Clear, NoMarks, Slashed, IsComment, Quoted;
    var front, x := name + b1 + "=" + b2, Quoted(Escape(v));
    FrontIsClean(name, b1, b2);
    EscapedIsSlashed(v);
    FrontIsLine(front, x, b3, c);
    EscapedEnd(v);
    QuotedStrips(front, Escape(v), b3, c);
    InQuotes(v);
    Assigns(name, b1, b2, x);
  }

  lemma InQuotes(v: string)
    ensures var x := Quoted(Escape(v)); Unescape(x) == Some((v, false)) && x != [] && !IsSpace(x[0]) && '\n' !in x
  {
    hide Unescape, Escape;
    QuotedUnescapes(v);
    EscapedIsSlashed(v);
  }

  lemma FrontIsLine(front: string, x: string, b3: string, c: string)
    requires front != [] && Clear(front) && Blanks(b3) && IsComment(c)
    ensures var body := front + x + b3 + c; body[0] == front[0] && ('\n' !in x ==> '\n' !in body)
  {
  }

  lemma {:induction false} EscapedEnd(v: string)
    requires v == [] || v[|v| - 1] != '\\'
    ensures Escape(v) == [] || Escape(v)[|Escape(v)| - 1] != '\\'
  {
    if |v| > 1 {
      assert v[1..][|v| - 2] == v[|v| - 1];
      EscapedEnd(v[1..]);
      EscapedIsPlain(v[1..]);
    }
  }

  // ---- continued lines

  // A backslash at the end of a line is dropped, and the next line is part of the value with
  // the spaces that it begins with.
  lemma ContinuedReads(lead: string, name: string, b1: string, b2: string, v: string, b3: string, w: string, b4: string, u: string)
    requires Blanks(lead) && IsName(name) && Blanks(b1) && Blanks(b2) && Blanks(b3) && Blanks(b4)
    requires NoMarks(v) && v != [] && !IsSpace(v[0]) && NoMarks(w) && w != [] && !IsSpace(w[|w| - 1])
    requires forall i :: 0 <= i < |v| ==> v[i] != '\n' && v[i] != ';' && v[i] != '#'
    requires forall i :: 0 <= i < |w| ==> w[i] != '\n' && w[i] != ';' && w[i] != '#'
    ensures var text := lead + name + b1 + "=" + b2 + v + "\\" + b3 + "\n" + w + b4 + "\n";
      Next(text + u) == Found(VariableBlock(text, name, Some(v + w), false))
  {
    hide TrimEnd, Blank, ReadLine, Strip, Assignment, Unescape, Continue;
    var x := v + "\\";
    var body := name + b1 + "=" + b2 + x + b3;
    var rest := w + b4 + "\n" + u;
    var first := lead + body + "\n";
    var text := lead + name + b1 + "=" + b2 + v + "\\" + b3 + "\n" + w + b4 + "\n";
    assert body[0] == name[0];
    LineReadsAt(lead, body, rest);
    assert text == first + (w + b4 + "\n") && text + u == lead + body + "\n" + rest;
    assert (lead + body + "\n" + rest)[|first|..] == rest;
    SlashStrips(name, b1, b2, v, b3);
    SlashUnescapes(v);
    Assigns(name, b1, b2, x);
    RestReads(w, b4, u);
    assert (text + u)[..|first| + |w + b4| + 1] == text;
  }

  lemma SlashUnescapes(v: string)
    requires NoMarks(v)
    ensures Unescape(v + "\\") == Some((v, true))
  {
    MarklessReads(v, "\\");
    assert v + [] == v;
  }

  lemma SlashStrips(name: string, b1: string, b2: string, v: string, b3: string)
    requires IsName(name) && Blanks(b1) && Blanks(b2) && Blanks(b3) && NoMarks(v)
    requires forall i :: 0 <= i < |v| ==> v[i] != ';' && v[i] != '#'
    ensures Strip(TrimEnd(name + b1 + "=" + b2 + (v + "\\") + b3), 0) == (name + b1 + "=" + b2 + (v + "\\"), 0)
  {
    hide Scan, TrimEnd;
    var s := name + b1 + "=" + b2 + (v + "\\");
    assert s[|s| - 1] == '\\';
    TrimSpaces(s, b3);
    var front := name + b1 + "=" + b2 + v;
    assert s == front + "\\";
    ScanToSlash(s, 0);
    assert s[..|s|] == s && s + [] == s;
    TrimSpaces(s, []);
  }

  lemma {:induction false} ScanToSlash(s: string, i: nat)
    requires s != [] && i <= |s| && s[|s| - 1] == '\\' && NoMarks(s[..|s| - 1])
    requires forall j :: 0 <= j < |s| ==> s[j] != ';' && s[j] != '#'
    ensures Scan(s, i, 0, 0) == (|s|, 0)
    decreases |s| - i
  {
    if i < |s| - 1 {
      assert s[..|s| - 1][i] == s[i];
      ScanToSlash(s, i + 1);
    } else if i == |s| - 1 {
      assert Scan(s, i + 1, 0, 1) == (|s|, 0);
    }
  }

  lemma RestReads(w: string, b4: string, u: string)
    requires NoMarks(w) && w != [] && !IsSpace(w[|w| - 1]) && Blanks(b4)
    requires forall i :: 0 <= i < |w| ==> w[i] != '\n' && w[i] != ';' && w[i] != '#'
    ensures Continue(w + b4 + "\n" + u, 0) == Some(Rest(w, |w| + |b4| + 1, false))
  {
    hide Scan, TrimEnd, LineEnd, Unescape;
    var body := w + b4;
    var t := w + b4 + "\n" + u;
    assert t == body + "\n" + u && '\n' !in body;
    LineEndOf(body, u);
    assert t[0..] == t && t[..|body| + 1] == w + (b4 + "\n");
    TrimSpaces(w, b4 + "\n");
    assert ReadLine(t, false) == (w, |body| + 1);
    ScanCounts(w, 0);
    assert w[..|w|] == w && w + [] == w;
    TrimSpaces(w, []);
    MarklessReads(w, []);
    EscapeNothing(w);
  }

  // ---- comments and empty lines

  lemma CommentReads(lead: string, c: string, u: string)
    requires Blanks(lead) && IsComment(c)
    ensures Next(lead + c + "\n" + u) == Found(CommentBlock(lead + c + "\n"))
  {
    hide Blank, LineEnd;
    var t := lead + c + "\n" + u;
    assert t == lead + (c + "\n" + u);
    BlankIs(lead, c + "\n" + u);
    LineEndOf(lead + c, u);
    assert t[|lead|] == if c == [] then '\n' else c[0];
    assert t[..|lead + c| + 1] == lead + c + "\n";
  }

  // ---- a section

  // A header and a variable: names in any case stand for the same in lower case.
  lemma SectionSays(n: string, lead: string, name: string, b1: string, b2: string, v: string, b3: string, c: string)
    requires IsBase(n) && Blanks(lead) && IsName(name) && Blanks(b1) && Blanks(b2) && Bare(v) && Blanks(b3) && IsComment(c)
    ensures var file := "[" + n + "]\n" + (lead + (name + b1 + "=" + b2 + v + b3 + c) + "\n");
      Parse(file).1 == Clean && EntriesOf(file) == [Entry(Some(LowerAll(n)), LowerAll(name), Some(v))]
  {
    hide Next, Blocks;
    var head := "[" + n + "]\n";
    var line := lead + (name + b1 + "=" + b2 + v + b3 + c) + "\n";
    var h, b := SectionBlock(head, LowerAll(n)), VariableBlock(line, name, Some(v), false);
    HeaderReads(n, line);
    ValueReads(lead, name, b1, b2, v, b3, c, []);
    assert line + [] == line;
    assert SkipBom(head + line) == head + line;
    BlockFound(head + line);
    assert (head + line)[|head|..] == line;
    BlockFound(line);
    assert line[|line|..] == [];
    NextOfNothing();
    NothingFound([]);
    assert [b] + [] == [b] && [h] + [b] == [h, b] && [h, b][1..] == [b] && [b][1..] == [];
    assert Entries([b], Some(LowerAll(n))) == [Entry(Some(LowerAll(n)), LowerAll(name), Some(v))];
    assert Entries([h, b], None) == Entries([b], Some(LowerAll(n)));
  }

  // ---- which values are put between quotes

  predicate InNeed(v: string) {
    v == [] || v[0] == ' ' || v[|v| - 1] == ' ' || ';' in v || '#' in v
  }

  // Carriage return, form feed and vertical tab, which are written as they are.
  predicate Odd(c: char) {
    c == '\r' || c == '\U{C}' || c == '\U{B}'
  }

  lemma {:induction false} EscapeSigns(v: string, c: char)
    requires c == ';' || c == '#'
    ensures c in Escape(v) <==> c in v
  {
    if v != [] {
      EscapeSigns(v[1..], c);
      assert c in v <==> c == v[0] || c in v[1..];
      assert c in Escape(v) <==> c in EscapeChar(v[0]) || c in Escape(v[1..]);
    }
  }

  lemma {:induction false} EscapeBounds(v: string)
    requires v != []
    ensures var e := Escape(v); e != [] && (e[0] == ' ' <==> v[0] == ' ') && (e[|e| - 1] == ' ' <==> v[|v| - 1] == ' ')
  {
    if |v| > 1 {
      EscapeBounds(v[1..]);
      assert v[1..][|v| - 2] == v[|v| - 1];
    }
  }

  // The values that come back from setting them, without a pattern and with one, said in
  // terms of their characters.
  lemma KeepsExactly(v: string)
    ensures QuotesFor(Escape(v)) == (if InNeed(v) then "\"" else "")
    ensures Keeps(v) <==> InNeed(v) || (!Odd(v[0]) && !Odd(v[|v| - 1]))
  {
    hide Escape;
    EscapeSigns(v, ';');
    EscapeSigns(v, '#');
    EscapeNothing(v);
    if v != [] {
      EscapeBounds(v);
    }
  }

  lemma PlainExactly(v: string)
    ensures QuotesFor(v) == (if InNeed(v) then "\"" else "")
    ensures Plain(v) <==>
      && '"' !in v && '\\' !in v && '\n' !in v
      && (InNeed(v) || (!IsSpace(v[0]) && !IsSpace(v[|v| - 1])))
  {
  }
}
