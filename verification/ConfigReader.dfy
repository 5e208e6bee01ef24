// The reader of libgit2/src/config_file.c: a position in the file's text that the parsing
// functions move on.
module ConfigReader {
  import opened Options
  import opened ConfigText
  import opened ConfigParse

  // strip_comments; the line is cut in place there.
  method StripComments(line: string, inQuotes: nat) returns (s: string, quotes: nat)
    ensures (s, quotes) == Strip(line, inQuotes)
  {
    quotes := inQuotes;
    var slashes, i := 0, 0;
    var cut := false;
    while i < |line| && !cut
      invariant i <= |line|
      invariant if cut then Scan(line, 0, inQuotes, 0) == (i, quotes) else Scan(line, 0, inQuotes, 0) == Scan(line, i, quotes, slashes)
      decreases |line| - i, !cut
    {
      if line[i] == '"' && i > 0 && line[i - 1] != '\\' {
        quotes := quotes + 1;
      }
      if (line[i] == ';' || line[i] == '#') && quotes % 2 == 0 && slashes % 2 == 0 {
        cut := true;
      } else {
        slashes := if line[i] == '\\' then slashes + 1 else 0;
        i := i + 1;
      }
    }
    s := TrimSpaces(line[..i]);
  }

  method TrimSpaces(s: string) returns (r: string)
    ensures r == TrimEnd(s)
  {
    var n := |s|;
    assert s[..n] == s;
    while n > 0 && IsSpace(s[n - 1])
      invariant n <= |s| && TrimEnd(s) == TrimEnd(s[..n])
    {
      assert s[..n][..n - 1] == s[..n - 1];
      n := n - 1;
    }
    r := s[..n];
  }

  // unescape_line; None stands for an escape that is not known.
  method UnescapeLine(s: string) returns (r: Option<(string, bool)>)
    ensures r == Unescape(s)
  {
    var fixed: string := [];
    var i := 0;
    UnescapePrefix([], Unescape(s));
    assert s[0..] == s;
    while i < |s|
      invariant i <= |s| && Unescape(s) == Behind(fixed, Unescape(s[i..]))
    {
      assert s[i..][1..] == s[i + 1..] && s[i..][0] == s[i];
      if s[i] == '"' {
        i := i + 1;
      } else if s[i] != '\\' {
        UnescapePlace(fixed, s[i], Unescape(s[i + 1..]));
        fixed := fixed + [s[i]];
        i := i + 1;
      } else {
        i := i + 1;
        if i == |s| {
          UnescapeTail(fixed);
          return Some((fixed, true));
        }
        var esc := Unescaped(s[i]);
        assert s[i - 1..][1] == s[i] && s[i - 1..][2..] == s[i + 1..];
        if esc.None? {
          return None;
        }
        UnescapePlace(fixed, esc.value, Unescape(s[i + 1..]));
        fixed := fixed + [esc.value];
        i := i + 1;
      }
    }
    assert s[i..] == [] && fixed + [] == fixed;
    return Some((fixed, false));
  }

  lemma UnescapePrefix(v: string, r: Option<(string, bool)>)
    ensures Behind([], r) == r
  {
    if r.Some? {
      assert [] + r.value.0 == r.value.0;
    }
  }

  lemma UnescapePlace(v: string, c: char, r: Option<(string, bool)>)
    ensures Behind(v, Before(c, r)) == Behind(v + [c], r)
  {
    if r.Some? {
      assert v + ([c] + r.value.0) == v + [c] + r.value.0;
    }
  }

  lemma UnescapeTail(v: string)
    ensures Behind(v, Some(([], true))) == Some((v, true))
  {
    assert v + [] == v;
  }

  // escape_value
  method EscapeValue(s: string) returns (r: string)
    ensures r == Escape(s)
  {
    r := [];
    var i := 0;
    assert s[0..] == s;
    while i < |s|
      invariant i <= |s| && r + Escape(s[i..]) == Escape(s)
    {
      EscapeStep(r, s, i);
      var esc := Escaped(s[i]);
      if esc.Some? {
        r := r + ['\\', esc.value];
      } else {
        r := r + [s[i]];
      }
      i := i + 1;
    }
    assert r + [] == r;
  }

  lemma EscapeStep(r: string, s: string, i: nat)
    requires i < |s|
    ensures r + Escape(s[i..]) == r + EscapeChar(s[i]) + Escape(s[i + 1..])
  {
    hide EscapeChar;
    assert s[i..][0] == s[i] && s[i..][1..] == s[i + 1..];
  }

  // parse_name on what strip_comments has left of the line.
  method SplitName(line: string) returns (r: Option<(string, Option<string>)>)
    ensures r == ParseName(line)
  {
    var nameEnd := 0;
    assert line[0..] == line;
    while nameEnd < |line| && IsNameChar(line[nameEnd])
      invariant nameEnd <= |line| && NameLength(line) == nameEnd + NameLength(line[nameEnd..])
    {
      assert line[nameEnd..][1..] == line[nameEnd + 1..];
      nameEnd := nameEnd + 1;
    }
    if nameEnd == 0 {
      return None;
    }
    var start := SkipSpaces(line, nameEnd);
    if start < |line| && line[start] == '=' {
      return Some((line[..nameEnd], Some(line[start + 1..])));
    } else if start < |line| {
      return None;
    }
    return Some((line[..nameEnd], None));
  }

  method SkipSpaces(s: string, from: nat) returns (i: nat)
    requires from <= |s|
    ensures i == from + Leading(s[from..])
  {
    i := from;
    while i < |s| && IsSpace(s[i])
      invariant from <= i <= |s| && from + Leading(s[from..]) == i + Leading(s[i..])
    {
      assert s[i..][1..] == s[i + 1..];
      i := i + 1;
    }
  }

  // parse_section_header_ext
  method ParseHeaderExt(line: string, base: string) returns (r: Option<string>)
    ensures r == HeaderExt(line, base)
  {
    if '"' !in line {
      return None;
    }
    var firstQuote, lastQuote := First(line, '"'), Last(line, '"');
    if firstQuote == lastQuote {
      return None;
    }
    var buf := base + ".";
    var rpos := firstQuote + 1;
    var more := true;
    while more
      invariant more ==> ExtFrom(line, rpos, lastQuote, buf) == HeaderExt(line, base)
      invariant !more ==> EndQuote(line, rpos, buf) == HeaderExt(line, base)
      invariant rpos <= |line|
      decreases |line| - rpos, more
    {
      if rpos == |line| {
        return None;
      }
      if line[rpos] == '"' {
        more := false;
      } else {
        var p := rpos;
        if line[p] == '\\' {
          p := p + 1;
          if p == |line| {
            return None;
          }
        }
        buf := buf + [line[p]];
        rpos := p + 1;
        more := rpos < lastQuote;
      }
    }
    if rpos + 1 < |line| && line[rpos] == '"' && line[rpos + 1] == ']' {
      return Some(buf);
    }
    return None;
  }

  // parse_section_header on the line that it has read.
  method ParseHeaderLine(line: string) returns (r: Option<string>)
    ensures r == Header(line)
  {
    if ']' !in line {
      return None;
    }
    var name: string := [];
    var pos := 1;
    while true
      invariant HeaderFrom(line, pos, name) == Header(line)
      decreases |line| - pos
    {
      if pos >= |line| {
        return None;
      }
      var c := line[pos];
      if IsSpace(c) {
        r := ParseHeaderExt(line, name);
        return;
      }
      if !IsNameChar(c) && c != '.' {
        return None;
      }
      name := name + [Lower(c)];
      pos := pos + 1;
      if pos < |line| && line[pos] == ']' {
        return Some(name);
      }
    }
  }

  // What a continuing line adds to the value, and whether the value goes on after it.
  function Added(line: string, inQuotes: nat): (Option<(string, bool)>, nat) {
    var (s, q) := Strip(line, if inQuotes > 0 then 1 else 0);
    (if s == [] then Some(([], true)) else Unescape(s), q)
  }

  method AddedBy(line: string, inQuotes: nat) returns (added: Option<(string, bool)>, quotes: nat)
    ensures (added, quotes) == Added(line, inQuotes)
  {
    hide Strip, Unescape;
    var s;
    s, quotes := StripComments(line, if inQuotes > 0 then 1 else 0);
    if s == [] {
      added := Some(([], true));
    } else {
      added := UnescapeLine(s);
    }
  }

  lemma ContinueIs(t: string, inQuotes: nat)
    ensures var (line, k) := ReadLine(t, false); var (added, q) := Added(line, inQuotes);
      Continue(t, inQuotes) ==
        if line == [] || t == [] then Some(Rest([], k, t == []))
        else if added.None? then None
        else if added.value.1 then Further(added.value.0, k, Continue(t[k..], q))
        else Some(Rest(added.value.0, k, false))
  {
    hide ReadLine, Strip, Unescape;
  }

  method Join(value: string, ghost k: nat, size: nat, more: Option<Rest>) returns (r: Option<Rest>)
    requires more.Some? ==> size == k + more.value.size
    ensures r == Further(value, k, more) && (r.Some? ==> r.value.size == size)
  {
    if more.None? {
      return None;
    }
    return Some(Rest(value + more.value.value, size, more.value.dangling));
  }

  class Reader {
    const text: string
    var pos: nat
    var eof: bool

    ghost predicate Valid()
      reads this
    {
      pos <= |text| && (eof ==> Blank(Ahead()) == |Ahead()|)
    }

    ghost function Ahead(): string
      reads this
      requires pos <= |text|
    {
      text[pos..]
    }

    // config_read and config_write set the reading position, config_parse skips the byte
    // order mark.
    constructor (file: string)
      ensures Valid() && Ahead() == SkipBom(file) && !eof
    {
      text, pos, eof := file, 0, false;
      new;
      if |file| >= 3 && file[0] == '\U{EF}' && file[1] == '\U{BB}' && file[2] == '\U{BF}' {
        pos := 3;
      }
    }

    // reader_peek, skipping spaces; None stands for the end of the file. A newline with a
    // carriage return before it counts as a newline.
    method Peek() returns (c: Option<char>)
      requires Valid()
      ensures c == if Blank(Ahead()) == |Ahead()| then None else Some(Ahead()[Blank(Ahead())])
    {
      var p := pos;
      while true
        invariant pos <= p <= |text| && Blank(Ahead()) == p - pos + Blank(text[p..])
        decreases |text| - p
      {
        if p == |text| {
          return None;
        }
        assert text[p..][0] == text[p] && text[p..][1..] == text[p + 1..];
        var d := text[p];
        if d == '\r' && p + 1 < |text| && text[p + 1] == '\n' {
          assert text[p + 1..][0] == '\n';
          d := '\n';
        }
        if d == '\n' || !IsSpace(d) {
          return Some(d);
        }
        p := p + 1;
      }
    }

    method FindLineEnd(start: nat) returns (e: nat)
      requires start <= |text|
      ensures e == start + LineEnd(text[start..])
    {
      e := start;
      while e < |text| && text[e] != '\n'
        invariant start <= e <= |text| && start + LineEnd(text[start..]) == e + LineEnd(text[e..])
      {
        assert text[e..][1..] == text[e + 1..];
        e := e + 1;
      }
      if e < |text| {
        e := e + 1;
      }
    }

    method MoveTo(end: nat)
      requires Valid() && pos <= end <= |text| && (eof ==> end == |text|)
      modifies this
      ensures Valid() && pos == end
    {
      eof := end == |text| || eof;
      pos := end;
    }

    method AtEnd() returns (b: bool)
      requires Valid()
      ensures b <==> Ahead() == []
      ensures pos <= |text|
    {
      b := pos == |text|;
    }

    // reader_readline
    method ReadNext(skip: bool) returns (line: string)
      requires Valid()
      modifies this
      ensures Valid() && old(pos) <= pos <= |text| && (line, pos - old(pos)) == ReadLine(old(Ahead()), skip)
      ensures Ahead() == old(Ahead())[pos - old(pos)..]
    {
      hide ReadLine, TrimEnd, LineEnd, Leading, Blank;
      var src := pos;
      if skip {
        src := SkipSpaces(text, pos);
      }
      var end := FindLineEnd(src);
      LineAt(text, pos, src, skip);
      BlankToTheEnd(text, pos, src);
      line := TrimSpaces(text[src..end]);
      MoveTo(end);
    }

    // reader_consume_line
    method ConsumeLine()
      requires Valid()
      modifies this
      ensures Valid() && pos == old(pos) + LineEnd(old(Ahead()))
    {
      var end := FindLineEnd(pos);
      BlankToTheEnd(text, pos, pos);
      eof := end == |text| || eof;
      pos := end;
    }

    // parse_multiline_variable: the lines that the value continues on.
    method ParseMultiline(inQuotes: nat) returns (r: Option<Rest>)
      requires Valid()
      modifies this
      ensures Valid() && old(pos) <= pos <= |text| && r == Continue(old(Ahead()), inQuotes)
      ensures r.Some? ==> r.value.size == pos - old(pos)
      decreases |text| - pos
    {
      hide ReadLine, Further, Added, Continue, Reader.Ahead, Reader.Valid;
      var start := pos;
      var atEnd := AtEnd();
      ghost var rest := Ahead();
      var line := ReadNext(false);
      ContinueIs(rest, inQuotes);
      if line == [] || atEnd {
        return Some(Rest([], pos - start, atEnd));
      }
      var added, quotes := AddedBy(line, inQuotes);
      if added.None? {
        return None;
      }
      if !added.value.1 {
        return Some(Rest(added.value.0, pos - start, false));
      }
      ghost var k := pos - start;
      var more := ParseMultiline(quotes);
      r := Join(added.value.0, k, pos - start, more);
    }

    // parse_variable; the block also holds the text that was read.
    method ParseVariable() returns (r: Option<Block>)
      requires Valid()
      modifies this
      ensures pos >= old(pos) && Valid() && r == Variable(old(Ahead()))
      ensures r.Some? ==> r.value.text == text[old(pos)..pos]
    {
      hide Strip, ReadLine, Unescape, Blank, ParseName, Continue, Leading;
      ghost var rest := Ahead();
      var start := pos;
      var line := ReadNext(true);
      var s, quotes := StripComments(line, 0);
      var name := SplitName(s);
      assert rest[pos - start..] == Ahead() && rest[..pos - start] == text[start..pos];
      if name.None? {
        return None;
      }
      if name.value.1.None? {
        return Some(VariableBlock(text[start..pos], name.value.0, None, false));
      }
      var v := name.value.1.value;
      var i := SkipSpaces(v, 0);
      assert v[0..] == v;
      var u := UnescapeLine(v[i..]);
      if u.None? {
        return None;
      }
      if !u.value.1 {
        return Some(VariableBlock(text[start..pos], name.value.0, Some(u.value.0), false));
      }
      ghost var k := pos - start;
      var more := ParseMultiline(quotes);
      if more.None? {
        return None;
      }
      assert rest[..k + more.value.size] == text[start..pos];
      return Some(VariableBlock(text[start..pos], name.value.0, Some(u.value.0 + more.value.value), more.value.dangling));
    }

    // parse_section_header
    method ParseHeader() returns (r: Option<Block>)
      requires Valid()
      modifies this
      ensures pos >= old(pos) && Valid() && r == Section(old(Ahead()))
      ensures r.Some? ==> r.value.text == text[old(pos)..pos]
    {
      hide ReadLine, Header, Blank;
      ghost var rest := Ahead();
      var start := pos;
      var line := ReadNext(true);
      var name := ParseHeaderLine(line);
      assert rest[..pos - start] == text[start..pos];
      if name.None? {
        return None;
      }
      return Some(SectionBlock(text[start..pos], name.value));
    }

    // One round of the loop of config_parse.
    method ParseBlock() returns (s: Step)
      requires Valid()
      modifies this
      ensures pos >= old(pos) && Valid() && s == Next(old(Ahead()))
      ensures s.Found? ==> |s.block.text| == pos - old(pos) && Ahead() == old(Ahead())[|s.block.text|..]
      ensures s.End? ==> eof && pos == old(pos)
      ensures eof ==> Next(Ahead()) == End
    {
      hide Section, Variable;
      ghost var rest := Ahead();
      var start := pos;
      var c := Peek();
      if c.None? {
        eof := true;
        return End;
      }
      if c.value == '[' {
        var b := ParseHeader();
        if b.None? {
          return Fail(true);
        }
        assert rest[pos - start..] == Ahead();
        return Found(b.value);
      } else if c.value == '\n' || c.value == ';' || c.value == '#' {
        ConsumeLine();
        assert rest[..pos - start] == text[start..pos] && rest[pos - start..] == Ahead();
        return Found(CommentBlock(text[start..pos]));
      }
      var b := ParseVariable();
      if b.None? {
        return Fail(false);
      }
      assert rest[pos - start..] == Ahead();
      return Found(b.value);
    }
  }

  lemma LineAt(text: string, pos: nat, src: nat, skip: bool)
    requires pos <= src <= |text| && src == pos + if skip then Leading(text[pos..]) else 0
    ensures var end := src + LineEnd(text[src..]);
      && (TrimEnd(text[src..end]), end - pos) == ReadLine(text[pos..], skip)
      && text[end..] == text[pos..][end - pos..]
  {
    hide TrimEnd, LineEnd, Leading;
    var t, i := text[pos..], src - pos;
    assert t[i..] == text[src..];
    var n := LineEnd(text[src..]);
    assert t[i..i + n] == text[src..src + n];
    assert text[src + n..] == t[i + n..];
  }

  lemma BlankToTheEnd(text: string, pos: nat, src: nat)
    requires pos <= src <= |text| && (src == pos || src == pos + Leading(text[pos..]))
    ensures Blank(text[pos..]) == |text| - pos ==> src + LineEnd(text[src..]) == |text|
  {
    if Blank(text[pos..]) == |text| - pos {
      NoLineEnd(text[pos..]);
      if src != pos {
        assert text[src..] == text[pos..][src - pos..];
      }
    }
  }

  lemma {:induction false} NoLineEnd(t: string)
    requires Blank(t) == |t|
    ensures LineEnd(t) == |t| == Leading(t)
  {
    if t != [] {
      NoLineEnd(t[1..]);
    }
  }
}
