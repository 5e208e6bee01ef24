// What the line ending filter does under each setting of the attributes, of core.autocrlf
// and of the platform, told from the setting alone.
module CrlfSettings {
  import opened Options
  import opened LineEndings
  import opened CrlfFilter

  // Whether the value of the attribute text, or of its old name crlf, decides anything.
  predicate Says(v: Value) {
    v == True || v == False || v == Text("input") || v == Text("auto")
  }

  function TextAttr(c: Setting): Value {
    if Says(c.text) then c.text else if Says(c.crlf) then c.crlf else Unspecified
  }

  // Lines end in CRLF by configuration or, where that says nothing, by platform.
  predicate WantsCrLf(c: Setting) {
    c.auto == AutoTrue || (c.auto == AutoFalse && c.native == EolCrlf)
  }

  // A zero byte, or more than one control character to 128 printable ones; a Ctrl-Z at the
  // end of the text is left out.
  predicate LooksBinary(s: string) {
    var body := if s != [] && s[|s| - 1] == '\U{1A}' then s[..|s| - 1] else s;
    var odd := Number(body, set c: char | Control(c))
             - Number(body, {'\U{8}', '\t', '\n', '\U{B}', '\U{C}', '\r', '\U{1B}'});
    '\U{0}' in body || (|body| - odd - Number(body, {'\n'}) - Number(body, {'\r'})) / 128 < odd
  }

  lemma {:induction false} SomeNumber(s: string, c: char)
    ensures Number(s, {c}) > 0 <==> c in s
  {
    if s != [] {
      SomeNumber(s[1..], c);
      assert s == [s[0]] + s[1..];
    }
  }

  lemma BinaryLooks(s: string)
    ensures LineEndings.Binary(Gathered(s)) <==> LooksBinary(s)
  {
    hide Count, Number, Control;
    var body := Body(s);
    CountIs(body);
    SomeNumber(body, '\U{0}');
  }

  // The counts in terms of the text, and what it comes to when all newlines have a CR.
  lemma Stated(s: string)
    ensures var st := Gathered(s);
      && (st.cr > 0 <==> '\r' in s) && (st.cr != st.crlf <==> HasLoneCr(s))
      && (st.lf == st.crlf <==> ToCrLf(s) == s) && st.crlf <= st.lf && st.crlf <= st.cr
      && (LineEndings.Binary(st) <==> LooksBinary(s))
  {
    hide Count, ToCrLf;
    BinaryLooks(s);
    LoneCr(Body(s));
    NothingLacks(Body(s));
    CountCrLf(Body(s));
    SameBody(s);
  }

  lemma SameBody(s: string)
    ensures '\r' in Body(s) <==> '\r' in s
    ensures HasLoneCr(Body(s)) <==> HasLoneCr(s)
    ensures ToCrLf(Body(s)) == Body(s) <==> ToCrLf(s) == s
  {
    var b := Body(s);
    if b != s {
      assert s == b + "\U{1A}";
      assert forall i :: 0 <= i < |b| ==> s[i] == b[i] && (CrLfAt(s, i) <==> CrLfAt(b, i));
      if HasLoneCr(s) {
        var i :| 0 <= i < |s| && s[i] == '\r' && !CrLfAt(s, i);
        assert b[i] == '\r' && !CrLfAt(b, i);
      }
      if HasLoneCr(b) {
        var i :| 0 <= i < |b| && b[i] == '\r' && !CrLfAt(b, i);
        assert s[i] == '\r' && !CrLfAt(s, i);
      }
      ToCrLfAppend(b);
      assert (ToCrLf(b) + "\U{1A}")[..|ToCrLf(b)|] == ToCrLf(b) && s[..|b|] == b;
    }
  }

  // ---- on the way out

  // Files that come out as they are in the repository, whatever they hold.
  lemma SmudgeKeeps(c: Setting, blob: string)
    requires || c.eol == Text("lf") || TextAttr(c) == False
             || (c.eol != Text("crlf") && (c.auto == AutoInput || TextAttr(c) == Text("input")))
             || (c.eol != Text("crlf") && c.auto == AutoFalse && (c.native != EolCrlf || TextAttr(c) == Unspecified))
    ensures Smudged(c, blob) == blob
  {
  }

  // Files in which every newline gets a carriage return.
  lemma SmudgeConverts(c: Setting, blob: string)
    requires || (c.eol == Text("crlf") && TextAttr(c) != False)
             || (c.eol != Text("lf") && TextAttr(c) == True && WantsCrLf(c))
    ensures Smudged(c, blob) == ToCrLf(blob) && EveryNewlineHasCr(Smudged(c, blob))
  {
    hide Gathered, LineEndings.Binary, HasLoneCr, LooksBinary;
    Stated(blob);
    CrLfEverywhere(blob);
    NoNewline(blob);
    NothingToConvert(blob);
  }

  lemma NoNewline(s: string)
    ensures Gathered(s).lf == 0 ==> ToCrLf(s) == s
  {
    Stated(s);
  }

  // Files that are looked at first. With the attribute set to auto a lone carriage return
  // saves the file, without any attribute every carriage return does.
  lemma SmudgeLooks(c: Setting, blob: string)
    requires c.eol != Text("lf") && c.eol != Text("crlf")
    requires if TextAttr(c) == Text("auto") then WantsCrLf(c) else TextAttr(c) == Unspecified && c.auto == AutoTrue
    ensures var kept := LooksBinary(blob) || if TextAttr(c) == Text("auto") then HasLoneCr(blob) else '\r' in blob;
      Smudged(c, blob) == if kept then blob else ToCrLf(blob)
  {
    hide Gathered, LineEndings.Binary, HasLoneCr, LooksBinary;
    Stated(blob);
    NothingToConvert(blob);
  }

  // ---- on the way in

  lemma CleanKeeps(c: Setting, file: string)
    requires TextAttr(c) == False || (TextAttr(c) == Unspecified && c.eol != Text("lf") && c.eol != Text("crlf") && c.auto == AutoFalse)
    ensures Cleaned(c, file) == Content(file)
  {
  }

  // A text loses the carriage return of every newline.
  lemma CleanConverts(c: Setting, file: string)
    requires TextAttr(c) == True || TextAttr(c) == Text("input")
             || ((c.eol == Text("lf") || c.eol == Text("crlf")) && TextAttr(c) != False)
    ensures Cleaned(c, file) == Content(ToLf(file))
  {
  }

  // Other files are looked at first. They are refused where the conversion could not be
  // undone and that is to be an error.
  lemma CleanLooks(c: Setting, file: string)
    requires c.eol != Text("lf") && c.eol != Text("crlf")
    requires TextAttr(c) == Text("auto") || (TextAttr(c) == Unspecified && c.auto != AutoFalse)
    ensures Cleaned(c, file) ==
      if LooksBinary(file) || '\r' !in file then Content(file)
      else if c.safe == SafeFail && !c.allowUnsafe && (HasLoneCr(file) || ToCrLf(file) != file) then Refused
      else if HasLoneCr(file) || (TextAttr(c) == Unspecified && c.crInIndex) then Content(file)
      else Content(ToLf(file))
  {
    hide Gathered, LineEndings.Binary, HasLoneCr, LooksBinary;
    Stated(file);
  }
}
