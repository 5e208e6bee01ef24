// Lines and values of a configuration file, libgit2/src/config_file.c: what the reader
// takes for a line, comments, quotes and escapes. Strings are C strings, that is, they
// hold no NUL.
module ConfigText {
  import opened Options

  // git__isspace
  predicate IsSpace(c: char) {
    c == ' ' || c == '\t' || c == '\n' || c == '\U{C}' || c == '\r' || c == '\U{B}'
  }

  predicate IsAlnum(c: char) {
    '0' <= c <= '9' || 'a' <= c <= 'z' || 'A' <= c <= 'Z'
  }

  // is_namechar and config_keychar
  predicate IsNameChar(c: char) {
    IsAlnum(c) || c == '-'
  }

  function Lower(c: char): char {
    if 'A' <= c <= 'Z' then (c as int + 32) as char else c
  }

  function LowerAll(s: string): (r: string)
    ensures |r| == |s|
  {
    seq(|s|, i requires 0 <= i < |s| => Lower(s[i]))
  }

  // How many spaces s begins with.
  function Leading(s: string): (n: nat)
    ensures n <= |s|
  {
    if s == [] || !IsSpace(s[0]) then 0 else 1 + Leading(s[1..])
  }

  function TrimEnd(s: string): (r: string)
    ensures |r| <= |s|
  {
    if s == [] || !IsSpace(s[|s| - 1]) then s else TrimEnd(s[..|s| - 1])
  }

  // Where the first line of s ends, behind its newline if it has one.
  function LineEnd(s: string): (n: nat)
    ensures n <= |s| && (s != [] ==> n > 0)
  {
    if s == [] then 0 else if s[0] == '\n' then 1 else 1 + LineEnd(s[1..])
  }

  // reader_readline on what is left of the file: the line without the spaces around it,
  // and how much of the text it took.
  function ReadLine(t: string, skip: bool): (r: (string, nat))
    ensures r.1 <= |t| && (t != [] ==> r.1 > 0)
  {
    LineFrom(t, if skip then Leading(t) else 0)
  }

  function LineFrom(t: string, i: nat): (r: (string, nat))
    requires i <= |t|
    ensures r.1 <= |t| && (t != [] ==> r.1 > 0)
  {
    var n := LineEnd(t[i..]);
    (TrimEnd(t[i..i + n]), i + n)
  }

  // write_line_to: a line always ends with a newline when it is written.
  function Line(s: string): string {
    if s != [] && s[|s| - 1] != '\n' then s + "\n" else s
  }

  lemma {:induction false} LeadingFacts(s: string)
    ensures var n := Leading(s);
      (forall i :: 0 <= i < n ==> IsSpace(s[i])) && (n < |s| ==> !IsSpace(s[n]))
  {
    if s != [] && IsSpace(s[0]) {
      LeadingFacts(s[1..]);
    }
  }

  lemma {:induction false} TrimFacts(s: string)
    ensures var r := TrimEnd(s);
      r <= s && (r == [] || !IsSpace(r[|r| - 1])) && forall i :: |r| <= i < |s| ==> IsSpace(s[i])
  {
    if s != [] && IsSpace(s[|s| - 1]) {
      TrimFacts(s[..|s| - 1]);
    }
  }

  lemma {:induction false} LineEndFacts(s: string)
    ensures var n := LineEnd(s);
      (n < |s| ==> s[n - 1] == '\n') && forall i :: 0 <= i < n - 1 ==> s[i] != '\n'
  {
    if s != [] && s[0] != '\n' {
      LineEndFacts(s[1..]);
    }
  }

  lemma {:induction false} TrimEndIs(s: string, r: string)
    requires r <= s && (r == [] || !IsSpace(r[|r| - 1])) && forall i :: |r| <= i < |s| ==> IsSpace(s[i])
    ensures TrimEnd(s) == r
  {
    if |r| < |s| {
      TrimEndIs(s[..|s| - 1], r);
    }
  }

  lemma {:induction false} LineEndIs(s: string, n: nat)
    requires 0 < n <= |s| && s[n - 1] == '\n' && forall i :: 0 <= i < n - 1 ==> s[i] != '\n'
    ensures LineEnd(s) == n
  {
    if n > 1 {
      LineEndIs(s[1..], n - 1);
    }
  }

  lemma {:induction false} LeadingIs(s: string, n: nat)
    requires n < |s| && !IsSpace(s[n]) && forall i :: 0 <= i < n ==> IsSpace(s[i])
    ensures Leading(s) == n
  {
    if n > 0 {
      LeadingIs(s[1..], n - 1);
    }
  }

  lemma FirstLineLocal(s: string, u: string)
    requires s != []
    ensures var first := s[..LineEnd(s)]; var w := Line(first);
      && LineEnd(w + u) == |w| > 0 && w[|w| - 1] == '\n' && TrimEnd(w) == TrimEnd(first)
      && (LineEnd(s) < |s| ==> w == first) && forall i :: 0 <= i < |w| - 1 ==> w[i] != '\n'
  {
    var first := s[..LineEnd(s)];
    var w := Line(first);
    LineEndFacts(s);
    TrimFacts(first);
    LineEndIs(w + u, |w|);
    TrimEndIs(w, TrimEnd(first));
  }

  lemma LineBehind(lead: string, s: string)
    requires s != []
    ensures Line(lead + s) == lead + Line(s)
  {
    assert lead + s + "\n" == lead + (s + "\n");
  }

  lemma LineFromIs(lead: string, s: string)
    ensures LineFrom(lead + s, |lead|) == (TrimEnd(s[..LineEnd(s)]), |lead| + LineEnd(s))
  {
    hide TrimEnd, LineEnd;
    var t, i, n := lead + s, |lead|, LineEnd(s);
    assert t[i..] == s;
    assert t[i..i + n] == s[..n];
  }

  // A line reads the same with its newline restored and whatever comes after it.
  lemma ReadLineLocal(t: string, skip: bool, u: string)
    requires t != [] && (skip ==> Leading(t) < |t|)
    ensures var (l, k) := ReadLine(t, skip); var w := Line(t[..k]);
      && k > 0 && |w| > 0 && ReadLine(w + u, skip) == (l, |w|)
      && (k < |t| ==> w == t[..k])
  {
    hide TrimEnd, LineEnd, Line, Leading, LineFrom;
    var i := if skip then Leading(t) else 0;
    var s, lead := t[i..], t[..i];
    var first := s[..LineEnd(s)];
    assert t == lead + s && t[..i + |first|] == lead + first;
    LineFromIs(lead, s);
    FirstLineLocal(s, u);
    LineBehind(lead, first);
    FirstChar(first);
    LeadingFacts(t);
    var w := Line(first);
    if skip {
      LeadingIs(lead + (w + u), i);
    }
    LineFromIs(lead, w + u);
    assert lead + (w + u) == lead + w + u && (w + u)[..|w|] == w;
  }

  lemma FirstChar(s: string)
    requires s != []
    ensures Line(s) != [] && Line(s)[0] == s[0]
  {
  }

  // ---- comments

  // strip_comments from position i on: where the line is cut off, and the quotes counted.
  function Scan(line: string, i: nat, quotes: nat, slashes: nat): (r: (nat, nat))
    requires i <= |line|
    ensures i <= r.0 <= |line|
    decreases |line| - i
  {
    if i == |line| then (i, quotes)
    else
      var q := if line[i] == '"' && i > 0 && line[i - 1] != '\\' then quotes + 1 else quotes;
      if (line[i] == ';' || line[i] == '#') && q % 2 == 0 && slashes % 2 == 0 then (i, q)
      else Scan(line, i + 1, q, if line[i] == '\\' then slashes + 1 else 0)
  }

  function Strip(line: string, quotes: nat): (string, nat) {
    var (end, q) := Scan(line, 0, quotes, 0);
    (TrimEnd(line[..end]), q)
  }

  // ---- escapes

  // The strings escaped and escapes of the source, side by side.
  function Escaped(c: char): Option<char> {
    match c
    case '\n' => Some('n')
    case '\t' => Some('t')
    case '\U{8}' => Some('b')
    case '"' => Some('"')
    case '\\' => Some('\\')
    case _ => None
  }

  function Unescaped(c: char): Option<char> {
    match c
    case 'n' => Some('\n')
    case 't' => Some('\t')
    case 'b' => Some('\U{8}')
    case '"' => Some('"')
    case '\\' => Some('\\')
    case _ => None
  }

  // escape_value
  function Escape(s: string): string {
    if s == [] then [] else EscapeChar(s[0]) + Escape(s[1..])
  }

  function EscapeChar(c: char): string {
    match Escaped(c)
    case None => [c]
    case Some(e) => ['\\', e]
  }

  // unescape_line: the value, and whether it goes on in the next line. Quotes vanish
  // wherever they stand.
  function Unescape(s: string): Option<(string, bool)> {
    if s == [] then Some(([], false))
    else if s[0] == '"' then Unescape(s[1..])
    else if s[0] != '\\' then Before(s[0], Unescape(s[1..]))
    else if |s| == 1 then Some(([], true))
    else match Unescaped(s[1])
      case None => None
      case Some(c) => Before(c, Unescape(s[2..]))
  }

  function Before(c: char, r: Option<(string, bool)>): Option<(string, bool)> {
    match r
    case None => None
    case Some((v, multi)) => Some(([c] + v, multi))
  }

  function Behind(v: string, r: Option<(string, bool)>): Option<(string, bool)> {
    match r
    case None => None
    case Some((w, multi)) => Some((v + w, multi))
  }

  lemma {:induction false} UnescapeEscape(s: string, rest: string)
    ensures Unescape(Escape(s) + rest) == Behind(s, Unescape(rest))
  {
    if s == [] {
      assert Escape(s) + rest == rest;
      if Unescape(rest).Some? {
        assert [] + Unescape(rest).value.0 == Unescape(rest).value.0;
      }
    } else {
      UnescapeEscape(s[1..], rest);
      EscapeOne(s[0], Escape(s[1..]) + rest);
      hide EscapeChar, Unescape;
      assert Escape(s) + rest == EscapeChar(s[0]) + (Escape(s[1..]) + rest);
      BeforeBehind(s, Unescape(rest));
    }
  }

  lemma BeforeBehind(s: string, r: Option<(string, bool)>)
    requires s != []
    ensures Before(s[0], Behind(s[1..], r)) == Behind(s, r)
  {
    if r.Some? {
      assert [s[0]] + (s[1..] + r.value.0) == s + r.value.0;
    }
  }

  lemma EscapeOne(c: char, t: string)
    ensures Unescape(EscapeChar(c) + t) == Before(c, Unescape(t))
  {
    var e := EscapeChar(c);
    if |e| == 1 {
      assert (e + t)[1..] == t;
    } else {
      assert (e + t)[2..] == t;
    }
  }
}
