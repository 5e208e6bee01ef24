// Signed commits in libgit2/src/commit.c: git_commit_create_with_signature puts the
// signature into the header as a field, git_commit_extract_signature takes it out again.
module CommitSignature {
  import opened Options

  // ---- lines

  // Where the first newline of s is, or the length of s.
  function Newline(s: string): (n: nat)
    ensures n <= |s| && (n < |s| ==> s[n] == '\n')
    ensures forall i :: 0 <= i < n ==> s[i] != '\n'
  {
    if s == [] || s[0] == '\n' then 0 else 1 + Newline(s[1..])
  }

  // What a signature looks like in the header: its lines but the first are marked as
  // continued by a space.
  function Continued(s: string): string {
    if s == [] then [] else (if s[0] == '\n' then "\n " else [s[0]]) + Continued(s[1..])
  }

  function Format(field: string, content: string): string {
    field + " " + Continued(content) + "\n"
  }

  lemma Assoc(a: string, b: string, c: string)
    ensures a + (b + c) == a + b + c
  {
  }

  lemma Parts(a: string, b: string)
    ensures (a + b)[|a|..] == b && (a + b)[..|a|] == a
  {
  }

  // format_header_field
  method FormatHeaderField(out: string, field: string, content: string) returns (r: string)
    ensures r == out + Format(field, content)
  {
    hide Continued, Newline;
    r := out + field + " ";
    ghost var head := r;
    var rest := content;
    while Newline(rest) < |rest|
      invariant r + Continued(rest) == head + Continued(content)
      decreases |rest|
    {
      var lf := Newline(rest);
      ContinuedLine(rest);
      Assoc(r, rest[..lf] + "\n ", Continued(rest[lf + 1..]));
      Assoc(r, rest[..lf], "\n ");
      r := r + rest[..lf] + "\n ";
      rest := rest[lf + 1..];
    }
    ContinuedLast(rest);
    r := r + rest + "\n";
    Assoc(out, field, " ");
    Assoc(out, field + " ", Continued(content));
    Assoc(out, field + " " + Continued(content), "\n");
  }

  lemma {:induction false} ContinuedLine(s: string)
    requires Newline(s) < |s|
    ensures var n := Newline(s); Continued(s) == s[..n] + "\n " + Continued(s[n + 1..])
  {
    if s[0] == '\n' {
      assert s[..0] == [];
    } else {
      var n := Newline(s[1..]);
      ContinuedLine(s[1..]);
      assert s[..n + 1] == [s[0]] + s[1..][..n] && s[1..][n + 1..] == s[n + 2..];
    }
  }

  lemma {:induction false} ContinuedLast(s: string)
    requires Newline(s) == |s|
    ensures Continued(s) == s
  {
    if s != [] {
      ContinuedLast(s[1..]);
      assert [s[0]] + s[1..] == s;
    }
  }

  // ---- signing

  // Where the header ends: behind the first newline that another one follows.
  function HeaderEnd(s: string): (r: Option<nat>)
    ensures r.Some? ==> 0 < r.value < |s|
  {
    if |s| < 2 then None
    else if s[0] == '\n' && s[1] == '\n' then Some(1)
    else match HeaderEnd(s[1..])
      case None => None
      case Some(n) => Some(n + 1)
  }

  predicate BlankAt(s: string, i: nat) {
    i + 1 < |s| && s[i] == '\n' && s[i + 1] == '\n'
  }

  // Behind position n stands the first blank line.
  ghost predicate FirstBlank(s: string, n: nat) {
    0 < n && BlankAt(s, n - 1) && forall i: nat :: i < n - 1 ==> !BlankAt(s, i)
  }

  lemma {:induction false} HeaderEndFacts(s: string)
    ensures match HeaderEnd(s)
      case None => forall i: nat :: !BlankAt(s, i)
      case Some(n) => FirstBlank(s, n)
  {
    if |s| >= 2 && !(s[0] == '\n' && s[1] == '\n') {
      HeaderEndFacts(s[1..]);
      forall i: nat | i > 0
        ensures BlankAt(s, i) <==> BlankAt(s[1..], i - 1)
      {
      }
    }
  }

  function Sign(content: string, signature: string, field: string): Option<string> {
    match HeaderEnd(content)
    case None => None
    case Some(n) => Some(content[..n] + Format(field, signature) + content[n..])
  }

  // git_commit_create_with_signature, up to writing the object.
  method CreateWithSignature(content: string, signature: string, field: string) returns (commit: Option<string>)
    ensures commit.None? <==> forall i: nat :: !BlankAt(content, i)
    ensures commit.Some? ==> exists n: nat ::
      (FirstBlank(content, n) && commit.value == content[..n] + Format(field, signature) + content[n..])
    ensures commit == Sign(content, signature, field)
  {
    hide Format, BlankAt;
    HeaderEndFacts(content);
    var end := HeaderEnd(content);
    if end.None? {
      return None;
    }
    assert BlankAt(content, end.value - 1);
    var out := content[..end.value];
    out := FormatHeaderField(out, field, signature);
    return Some(out + content[end.value..]);
  }

  // The field in full: a line of the signature that others follow is followed by a space.
  lemma FormatLine(field: string, line: string, rest: string)
    requires '\n' !in line
    ensures Format(field, line) == field + " " + line + "\n"
    ensures Format(field, line + "\n" + rest) == field + " " + line + "\n" + Format([], rest)
  {
    NewlineWhole(line);
    ContinuedLast(line);
    ContinuedOn(line, rest);
    assert line + "\n " + Continued(rest) == line + "\n" + (" " + Continued(rest));
    assert field + " " + (line + "\n" + (" " + Continued(rest))) + "\n"
        == field + " " + line + "\n" + (" " + Continued(rest) + "\n");
    assert [] + " " + Continued(rest) + "\n" == " " + Continued(rest) + "\n";
  }

  // ---- extracting

  // With an empty name the source may look at the same line again and again.
  datatype Extraction = Extracted(signature: string, data: string) | NotSigned | Malformed | Endless

  predicate StartsWith(s: string, prefix: string) {
    prefix <= s
  }

  // The value of a field with its continued lines, and what comes behind it.
  function ReadValue(s: string): Option<(string, string)>
    decreases |s|
  {
    var n := Newline(s);
    if n == |s| then None
    else if n + 1 >= |s| || s[n + 1] != ' ' then Some((s[..n], s[n + 1..]))
    else match ReadValue(s[n + 2..])
      case None => None
      case Some((v, rest)) => Some((s[..n] + "\n" + v, rest))
  }

  // The loop of git_commit_extract_signature. Where a line begins with the name of the
  // field but goes on without a space, the source drops the name and looks at the rest of
  // the line as if it were a line of its own.
  function ExtractFrom(buf: string, data: string, field: string): Extraction
    decreases |buf|
  {
    var n := Newline(buf);
    if n + 1 >= |buf| then NotSigned
    else if !StartsWith(buf, field) then ExtractFrom(buf[n + 1..], data + buf[..n + 1], field)
    else
      var h := buf[|field|..];
      if h == [] || h[0] != ' ' then (if field == [] then Endless else ExtractFrom(h, data, field))
      else match ReadValue(h[1..])
        case None => Malformed
        case Some((v, rest)) => Extracted(v, data + rest)
  }

  // git_commit_extract_signature on the data of the object. It goes on for ever exactly if
  // the name is empty and the first of several lines does not begin with a space.
  method ExtractSignature(raw: string, field: string) returns (r: Extraction)
    ensures r == Endless <==> field == [] && Newline(raw) + 1 < |raw| && raw[0] != ' '
    ensures r == ExtractFrom(raw, [], field)
  {
    var buf, data: string := raw, [];
    while true
      invariant ExtractFrom(raw, [], field) == ExtractFrom(buf, data, field)
      invariant field == [] ==> buf == raw
      decreases |buf|
    {
      var h := Newline(buf);
      if h + 1 >= |buf| {
        return NotSigned;
      }
      if !StartsWith(buf, field) {
        data := data + buf[..h + 1];
        buf := buf[h + 1..];
      } else {
        var rest := buf[|field|..];
        if rest == [] || rest[0] != ' ' {
          if field == [] {
            return Endless;
          }
          buf := rest;
        } else {
          var value := TakeValue(rest[1..]);
          if value.None? {
            return Malformed;
          }
          return Extracted(value.value.0, data + value.value.1);
        }
      }
    }
  }

  method TakeValue(s: string) returns (r: Option<(string, string)>)
    ensures r == ReadValue(s)
  {
    hide ReadValue;
    var signature: string, h := [], s;
    NothingAhead(ReadValue(s));
    while true
      invariant ReadValue(s) == Behind(signature, ReadValue(h))
      decreases |h|
    {
      var eol := Newline(h);
      ValueStep(signature, h);
      if eol == |h| {
        return None;
      }
      signature := signature + h[..eol];
      if !(eol + 1 < |h| && h[eol + 1] == ' ') {
        return Some((signature, h[eol + 1..]));
      }
      signature := signature + "\n";
      h := h[eol + 2..];
    }
  }

  function Behind(v: string, r: Option<(string, string)>): Option<(string, string)> {
    if r.None? then None else Some((v + r.value.0, r.value.1))
  }

  lemma NothingAhead(r: Option<(string, string)>)
    ensures Behind([], r) == r
  {
    if r.Some? {
      assert [] + r.value.0 == r.value.0;
    }
  }

  lemma {:induction false} ValueStep(v: string, h: string)
    ensures var n := Newline(h);
      Behind(v, ReadValue(h)) ==
        if n == |h| then None
        else if n + 1 >= |h| || h[n + 1] != ' ' then Some((v + h[..n], h[n + 1..]))
        else Behind(v + h[..n] + "\n", ReadValue(h[n + 2..]))
  {
    var n := Newline(h);
    if n + 1 < |h| && h[n + 1] == ' ' && ReadValue(h[n + 2..]).Some? {
      var w := ReadValue(h[n + 2..]).value.0;
      assert v + (h[..n] + "\n" + w) == v + h[..n] + "\n" + w;
    }
  }

  // ---- what comes out again

  lemma NewlineAt(s: string, n: nat)
    requires n < |s| && s[n] == '\n' && forall i :: 0 <= i < n ==> s[i] != '\n'
    ensures Newline(s) == n
  {
  }

  // A line that goes on.
  lemma GoesOn(a: string, c: string, rest: string)
    requires forall i :: 0 <= i < |a| ==> a[i] != '\n'
    ensures var s := a + "\n " + c + "\n" + rest;
      Newline(s) == |a| && |a| + 1 < |s| && s[|a| + 1] == ' ' && s[..|a|] == a && s[|a| + 2..] == c + "\n" + rest
  {
    var s := a + "\n " + c + "\n" + rest;
    NewlineAt(s, |a|);
  }

  lemma LastLine(v: string, rest: string)
    requires Newline(v) == |v|
    ensures var s := v + "\n" + rest;
      Newline(s) == |v| < |s| && s[..|v|] == v && s[|v| + 1..] == rest && (rest != [] ==> s[|v| + 1] == rest[0])
  {
    NewlineAt(v + "\n" + rest, |v|);
  }

  // A formatted value reads as itself.
  lemma {:induction false} ValueReadsBack(v: string, rest: string)
    requires rest == [] || rest[0] != ' '
    ensures ReadValue(Continued(v) + "\n" + rest) == Some((v, rest))
    decreases |v|
  {
    hide Continued, Newline;
    var n := Newline(v);
    if n == |v| {
      ContinuedLast(v);
      LastLine(v, rest);
    } else {
      ContinuedLine(v);
      GoesOn(v[..n], Continued(v[n + 1..]), rest);
      ValueReadsBack(v[n + 1..], rest);
      assert v[..n] + "\n" + v[n + 1..] == v;
    }
  }

  // The text of a value that was read is the formatted value.
  lemma {:induction false} ValueWas(s: string)
    requires ReadValue(s).Some?
    ensures var (v, rest) := ReadValue(s).value; s == Continued(v) + "\n" + rest
    decreases |s|
  {
    hide Continued;
    var n := Newline(s);
    if n + 1 >= |s| || s[n + 1] != ' ' {
      NewlineWhole(s[..n]);
      ContinuedLast(s[..n]);
      assert s == s[..n] + "\n" + s[n + 1..];
    } else {
      ValueWas(s[n + 2..]);
      var (w, rest) := ReadValue(s[n + 2..]).value;
      ContinuedOn(s[..n], w);
      Regroup(s, n, Continued(w), rest);
    }
  }

  lemma ContinuedOn(a: string, w: string)
    requires forall i :: 0 <= i < |a| ==> a[i] != '\n'
    ensures Continued(a + "\n" + w) == a + "\n " + Continued(w)
  {
    var v := a + "\n" + w;
    NewlineAt(v, |a|);
    ContinuedLine(v);
    assert v[..|a|] == a && v[|a| + 1..] == w;
  }

  lemma Regroup(s: string, n: nat, c: string, rest: string)
    requires n + 1 < |s| && s[n] == '\n' && s[n + 1] == ' ' && s[n + 2..] == c + "\n" + rest
    ensures s == s[..n] + "\n " + c + "\n" + rest
  {
    assert s == s[..n] + "\n " + s[n + 2..];
  }

  lemma {:induction false} NewlineWhole(s: string)
    requires forall i :: 0 <= i < |s| ==> s[i] != '\n'
    ensures Newline(s) == |s|
  {
    if s != [] {
      NewlineWhole(s[1..]);
    }
  }

  // A header field has a name, which is one word on one line.
  predicate IsField(field: string) {
    field != [] && field[0] != ' ' && '\n' !in field
  }

  // The text consists of copies of another.
  predicate Copies(h: string, f: string)
    decreases |h|
  {
    h == [] || (f != [] && f <= h && Copies(h[|f|..], f))
  }

  // No line of the header begins with the name of the field, unless it and all that
  // follows are copies of the very signature.
  predicate Harmless(h: string, field: string, f: string)
    decreases |h|
  {
    h == [] || if StartsWith(h, field) then Copies(h, f)
      else Newline(h) < |h| && Harmless(h[Newline(h) + 1..], field, f)
  }

  // Whole lines.
  predicate Lines(h: string) {
    h == [] || h[|h| - 1] == '\n'
  }

  lemma LinesRest(h: string)
    requires Lines(h) && h != []
    ensures Newline(h) < |h| && Lines(h[Newline(h) + 1..])
  {
    var n := Newline(h);
    if n + 1 < |h| {
      assert h[n + 1..][|h| - n - 2] == h[|h| - 1];
    }
  }

  // A line of the header begins with the name exactly if the text from there on does.
  lemma StartsInHeader(h: string, field: string, u: string)
    requires Lines(h) && h != [] && IsField(field)
    ensures StartsWith(h + u, field) <==> StartsWith(h, field)
    ensures StartsWith(h, field) ==> |h| > |field|
    ensures Newline(h + u) == Newline(h) && (u != [] ==> Newline(h) + 1 < |h + u|)
  {
    LinesRest(h);
    NewlineAt(h + u, Newline(h));
    NotBeyond(h, field, u);
    NotBeyond(h, field, []);
    assert h + [] == h;
    if StartsWith(h + u, field) {
      assert field == (h + u)[..|field|] == h[..|field|];
    }
  }

  lemma SameChars(p: string, s: string)
    ensures p <= s ==> forall i :: 0 <= i < |p| ==> p[i] == s[i]
  {
  }

  lemma NotBeyond(h: string, field: string, u: string)
    requires Lines(h) && h != [] && '\n' !in field
    ensures StartsWith(h + u, field) ==> |field| < |h|
  {
    SameChars(field, h + u);
    assert (h + u)[|h| - 1] == '\n';
  }

  // The signature that was put in is found where it is.
  lemma FoundThere(signature: string, field: string, data: string, rest: string)
    requires IsField(field) && rest != [] && rest[0] != ' '
    ensures ExtractFrom(Format(field, signature) + rest, data, field) == Extracted(signature, data + rest)
  {
    hide ReadValue, Continued, Newline;
    var c := Continued(signature);
    var buf := field + " " + c + "\n" + rest;
    Parts(field, " " + (c + "\n" + rest));
    assert buf == field + (" " + (c + "\n" + rest));
    var h := buf[|field|..];
    assert h[1..] == c + "\n" + rest;
    ValueReadsBack(signature, rest);
    NotLast(buf, |field| + 1 + |c|);
  }

  lemma NotLast(s: string, i: nat)
    requires i + 1 < |s| && s[i] == '\n'
    ensures Newline(s) + 1 < |s|
  {
  }

  lemma {:induction false} CopiesTurn(h: string, f: string)
    requires Copies(h, f)
    ensures h + f == f + h
    decreases |h|
  {
    if h == [] {
      assert h + f == f + h;
    } else {
      var t := h[|f|..];
      CopiesTurn(t, f);
      assert h == f + t;
      assert f + (t + f) == f + (f + t);
    }
  }

  lemma {:induction false} ComesOut(h: string, signature: string, field: string, data: string, tail: string)
    requires Lines(h) && IsField(field) && tail != [] && tail[0] == '\n'
    requires Harmless(h, field, Format(field, signature))
    ensures ExtractFrom(h + (Format(field, signature) + tail), data, field) == Extracted(signature, data + (h + tail))
    decreases |h|
  {
    hide StartsWith, ReadValue, Format, ExtractFrom;
    var f := Format(field, signature);
    if h == [] {
      assert h + (f + tail) == f + tail && h + tail == tail;
      FoundThere(signature, field, data, tail);
    } else if StartsWith(h, field) {
      CopiesTurn(h, f);
      Assoc(h, f, tail);
      Assoc(f, h, tail);
      CopiesStart(h, f, field, signature);
      FoundThere(signature, field, data, h + tail);
    } else {
      LinesRest(h);
      LinePassed(h, f + tail, data, field);
      ComesOut(h[Newline(h) + 1..], signature, field, data + h[..Newline(h) + 1], tail);
      Skipped(h, tail, data, field);
    }
  }

  // One line of the header.
  lemma {:induction false} Skipped(h: string, u: string, data: string, field: string)
    requires Newline(h) < |h|
    ensures var n := Newline(h) + 1;
      && (h + u)[n..] == h[n..] + u && (h + u)[..n] == h[..n] && data + (h + u) == data + h[..n] + (h[n..] + u)
  {
    var n := Newline(h) + 1;
    assert h == h[..n] + h[n..];
    assert h[..n] + h[n..] + u == h[..n] + (h[n..] + u);
  }

  lemma CopiesStart(h: string, f: string, field: string, signature: string)
    requires IsField(field) && f == Format(field, signature) && Copies(h, f) && h != []
    ensures h[0] != ' '
  {
    assert h[0] == f[0] == field[0];
  }

  // ---- and nothing else comes out right

  // What comes out is shorter than what goes in by the field that is taken out at least.
  lemma {:induction false} ComesOutShorter(buf: string, data: string, field: string)
    requires field != []
    ensures var r := ExtractFrom(buf, data, field);
      r.Extracted? ==> |r.data| + |Format(field, r.signature)| <= |data| + |buf|
    decreases |buf|
  {
    hide ReadValue;
    var n := Newline(buf);
    if n + 1 < |buf| {
      if !StartsWith(buf, field) {
        ComesOutShorter(buf[n + 1..], data + buf[..n + 1], field);
      } else {
        var h := buf[|field|..];
        if h == [] || h[0] != ' ' {
          ComesOutShorter(h, data, field);
        } else if ReadValue(h[1..]).Some? {
          ValueWas(h[1..]);
        }
      }
    }
  }

  predicate SpaceAfter(s: string, i: nat) {
    i + 1 < |s| && s[i + 1] == ' '
  }

  ghost predicate Spaced(c: string) {
    forall i :: 0 <= i < |c| && c[i] == '\n' ==> SpaceAfter(c, i)
  }

  // In a formatted field, every newline but the last is followed by a space.
  ghost predicate Shaped(f: string) {
    f != [] && f[0] != ' ' && forall i :: 0 <= i < |f| - 1 && f[i] == '\n' ==> SpaceAfter(f, i)
  }

  lemma FormatShape(field: string, v: string)
    requires IsField(field)
    ensures Shaped(Format(field, v))
  {
    ContinuedShape(v);
    var c := Continued(v);
    var f := field + " " + c + "\n";
    var k := |field| + 1;
    assert f[|field|] == ' ' && forall i :: 0 <= i < |field| ==> f[i] == field[i];
    forall i | 0 <= i < |f| - 1 && f[i] == '\n'
      ensures SpaceAfter(f, i)
    {
      var j := i - k;
      assert f[i] == c[j];
      assert SpaceAfter(c, j);
      assert c[j + 1] == f[i + 1];
    }
    assert f[0] == field[0];
  }

  lemma {:induction false} ContinuedShape(v: string)
    ensures Spaced(Continued(v))
  {
    if v != [] {
      ContinuedShape(v[1..]);
      var a := if v[0] == '\n' then "\n " else [v[0]];
      var c := Continued(v[1..]);
      forall i | 0 <= i < |a + c| && (a + c)[i] == '\n'
        ensures SpaceAfter(a + c, i)
      {
        if i >= |a| {
          var j := i - |a|;
          assert (a + c)[i] == c[j];
          assert SpaceAfter(c, j);
          assert (a + c)[i + 1] == c[j + 1];
        } else {
          assert (a + c)[i] == a[i];
        }
      }
    }
  }

  // Texts that can change places with the field are made of copies of it.
  lemma {:induction false} Turns(h: string, f: string)
    requires h + f == f + h && Lines(h)
    requires Shaped(f)
    ensures Copies(h, f)
    decreases |h|
  {
    if h == [] {
    } else if |h| < |f| {
      TooEarly(h, f);
    } else {
      var t := h[|f|..];
      assert f == (f + h)[..|f|] == (h + f)[..|f|] == h[..|f|];
      assert h == f + t;
      assert f + t + f == f + (f + t);
      Parts(f, t + f);
      Parts(f, f + t);
      Assoc(f, t, f);
      assert t == [] || t[|t| - 1] == h[|h| - 1];
      Turns(t, f);
    }
  }

  lemma TooEarly(h: string, f: string)
    requires 0 < |h| < |f| && Lines(h) && Shaped(f)
    ensures h + f != f + h
  {
    var n := |h|;
    assert (h + f)[n] == f[0] && (f + h)[n] == f[n];
    assert (h + f)[n - 1] == '\n' && (f + h)[n - 1] == f[n - 1];
    assert f[n - 1] == '\n' ==> SpaceAfter(f, n - 1);
  }

  lemma {:induction false} NothingElse(h: string, signature: string, field: string, data: string, tail: string)
    requires Lines(h) && IsField(field) && tail != [] && tail[0] == '\n'
    requires ExtractFrom(h + (Format(field, signature) + tail), data, field) == Extracted(signature, data + (h + tail))
    ensures Harmless(h, field, Format(field, signature))
    decreases |h|
  {
    hide ReadValue, Format, Copies, ExtractFrom;
    var f := Format(field, signature);
    if h != [] {
      LinesRest(h);
      if StartsWith(h, field) {
        AtField(h, signature, field, data, tail);
      } else {
        LinePassed(h, f + tail, data, field);
        Skipped(h, tail, data, field);
        NothingElse(h[Newline(h) + 1..], signature, field, data + h[..Newline(h) + 1], tail);
      }
    }
  }

  lemma LinePassed(h: string, u: string, data: string, field: string)
    requires Lines(h) && h != [] && IsField(field) && !StartsWith(h, field) && u != []
    ensures var n := Newline(h) + 1;
      n <= |h| && ExtractFrom(h + u, data, field) == ExtractFrom(h[n..] + u, data + h[..n], field)
  {
    LinesRest(h);
    StartsInHeader(h, field, u);
    Skipped(h, u, data, field);
  }

  // Where something is taken out at once, it is a formatted field.
  lemma TakenAt(buf: string, data: string, field: string, v: string, d: string) returns (after: string)
    requires field != [] && StartsWith(buf, field) && |buf| > |field| && buf[|field|] == ' '
    requires ExtractFrom(buf, data, field) == Extracted(v, d)
    ensures buf == Format(field, v) + after && d == data + after
  {
    hide ReadValue, Continued;
    var rest := buf[|field|..];
    ValueWas(rest[1..]);
    after := ReadValue(rest[1..]).value.1;
    FieldText(buf, field, Continued(v), after);
  }

  lemma FieldText(buf: string, field: string, c: string, after: string)
    requires StartsWith(buf, field) && |buf| > |field| && buf[|field|] == ' ' && buf[|field|..][1..] == c + "\n" + after
    ensures buf == field + " " + c + "\n" + after
  {
    assert buf == field + " " + buf[|field|..][1..];
  }

  lemma NotDropped(h: string, u: string, field: string, data: string, v: string, d: string)
    requires Lines(h) && h != [] && IsField(field) && u != [] && StartsWith(h, field)
    requires ExtractFrom(h + u, data, field) == Extracted(v, d) && |d| + |Format(field, v)| == |data| + |h + u|
    ensures StartsWith(h + u, field) && |h + u| > |field| && (h + u)[|field|] == ' '
  {
    hide ReadValue, Format;
    StartsInHeader(h, field, u);
    ComesOutShorter((h + u)[|field|..], data, field);
  }

  lemma AtField(h: string, signature: string, field: string, data: string, tail: string)
    requires Lines(h) && h != [] && IsField(field) && tail != [] && StartsWith(h, field)
    requires ExtractFrom(h + (Format(field, signature) + tail), data, field) == Extracted(signature, data + (h + tail))
    ensures Copies(h, Format(field, signature))
  {
    hide Copies, ExtractFrom, Format;
    var f := Format(field, signature);
    NotDropped(h, f + tail, field, data, signature, data + (h + tail));
    var after := TakenAt(h + (f + tail), data, field, signature, data + (h + tail));
    Parts(data, after);
    Parts(data, h + tail);
    Swapped(h, f, tail);
    FormatShape(field, signature);
    Turns(h, f);
  }

  lemma Swapped(h: string, f: string, tail: string)
    requires h + (f + tail) == f + (h + tail)
    ensures h + f == f + h
  {
    assert h + (f + tail) == h + f + tail && f + (h + tail) == f + h + tail;
    assert (h + f + tail)[..|h| + |f|] == h + f && (f + h + tail)[..|h| + |f|] == f + h;
  }

  // ---- the theorem

  ghost predicate ComesBack(content: string, signature: string, field: string)
    requires field != [] && HeaderEnd(content).Some?
  {
    ExtractFrom(Sign(content, signature, field).value, [], field) == Extracted(signature, content)
  }

  // The signature and the content come back exactly if no header line begins with the
  // name of the field, but for copies of the signature itself at the end of the header.
  lemma ComesBackIff(content: string, signature: string, field: string)
    requires IsField(field) && HeaderEnd(content).Some?
    ensures ComesBack(content, signature, field) <==>
      Harmless(content[..HeaderEnd(content).value], field, Format(field, signature))
  {
    hide ExtractFrom, Harmless, Format;
    HeaderEndFacts(content);
    var n := HeaderEnd(content).value;
    var h, tail, f := content[..n], content[n..], Format(field, signature);
    assert content == h + tail && [] + (h + tail) == content;
    assert h[|h| - 1] == '\n' && tail[0] == '\n';
    Assoc(h, f, tail);
    if Harmless(h, field, f) {
      ComesOut(h, signature, field, [], tail);
    }
    if ComesBack(content, signature, field) {
      NothingElse(h, signature, field, [], tail);
    }
  }
}
