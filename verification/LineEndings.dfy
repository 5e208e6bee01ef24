// The conversions and the statistics of libgit2/src/buf_text.c that the line ending filter
// is built on. A text is a sequence of bytes, written as characters up to U+00FF.
module LineEndings {
  import opened Options

  // ---- conversions

  predicate CrLfAt(s: string, i: nat) {
    i + 1 < |s| && s[i] == '\r' && s[i + 1] == '\n'
  }

  // A carriage return goes if a newline follows.
  function ToLf(s: string): string {
    if s == [] then [] else (if CrLfAt(s, 0) then [] else [s[0]]) + ToLf(s[1..])
  }

  // Every newline gets a carriage return unless it has one.
  function ToCrLf(s: string): string {
    if s == [] then []
    else if CrLfAt(s, 0) then "\r\n" + ToCrLf(s[2..])
    else (if s[0] == '\n' then "\r\n" else [s[0]]) + ToCrLf(s[1..])
  }

  // memchr from a position on; the length of the text if there is none.
  function Next(s: string, c: char, i: nat): (j: nat)
    requires i <= |s|
    ensures i <= j <= |s| && (j < |s| ==> s[j] == c) && forall k :: i <= k < j ==> s[k] != c
    decreases |s| - i
  {
    if i == |s| || s[i] == c then i else Next(s, c, i + 1)
  }

  lemma {:induction false} ToLfPlain(s: string, i: nat, j: nat)
    requires i <= j <= |s| && forall k :: i <= k < j ==> s[k] != '\r'
    ensures ToLf(s[i..]) == s[i..j] + ToLf(s[j..])
    decreases j - i
  {
    if i == j {
      assert s[i..j] == [];
    } else {
      ToLfPlain(s, i + 1, j);
      assert s[i..][1..] == s[i + 1..] && s[i..j] == [s[i]] + s[i + 1..j];
    }
  }

  // git_buf_text_crlf_to_lf
  method CrLfToLf(src: string) returns (tgt: string)
    ensures tgt == ToLf(src)
  {
    hide ToLf, Next;
    var scan := 0;
    var next := Next(src, '\r', 0);
    tgt := [];
    assert src[0..] == src && [] + ToLf(src) == ToLf(src);
    while next < |src|
      invariant scan <= |src| && next == Next(src, '\r', scan)
      invariant tgt + ToLf(src[scan..]) == ToLf(src)
      decreases |src| - scan
    {
      ToLfPlain(src, scan, next);
      ToLfStep(src, next);
      Joined(tgt, src[scan..next], ToLf(src[next..]));
      tgt := tgt + src[scan..next];
      if next + 1 == |src| || src[next + 1] != '\n' {
        Joined(tgt, "\r", ToLf(src[next + 1..]));
        tgt := tgt + "\r";
      }
      scan := next + 1;
      next := Next(src, '\r', scan);
    }
    ToLfPlain(src, scan, |src|);
    NothingLeft(src);
    tgt := tgt + src[scan..];
  }

  lemma Joined(a: string, b: string, c: string)
    ensures a + (b + c) == a + b + c
  {
  }

  lemma NothingLeft(s: string)
    ensures ToLf(s[|s|..]) == [] && ToCrLf(s[|s|..]) == [] && forall i :: 0 <= i <= |s| ==> s[i..|s|] + [] == s[i..]
  {
    assert s[|s|..] == [];
  }

  lemma ToLfStep(s: string, i: nat)
    requires i < |s| && s[i] == '\r'
    ensures ToLf(s[i..]) == (if i + 1 == |s| || s[i + 1] != '\n' then "\r" else []) + ToLf(s[i + 1..])
  {
    assert s[i..][1..] == s[i + 1..];
    if i + 1 < |s| {
      assert s[i..][1] == s[i + 1];
    }
  }

  // A chunk up to a newline, with the carriage return before it if there is one.
  lemma {:induction false} ToCrLfChunk(s: string, i: nat, j: nat)
    requires i <= j < |s| && s[j] == '\n' && forall k :: i <= k < j ==> s[k] != '\n'
    ensures ToCrLf(s[i..]) == s[i..if j > i && s[j - 1] == '\r' then j - 1 else j] + "\r\n" + ToCrLf(s[j + 1..])
    decreases j - i
  {
    var t := s[i..];
    if i == j {
      assert t[1..] == s[j + 1..] && s[i..j] == [];
    } else if i + 1 == j && s[i] == '\r' {
      assert t[1] == s[j] && t[2..] == s[j + 1..] && s[i..i] == [];
    } else {
      assert t[1] == s[i + 1] && t[1..] == s[i + 1..];
      ToCrLfChunk(s, i + 1, j);
      var e := if s[j - 1] == '\r' then j - 1 else j;
      assert s[i..e] == [s[i]] + s[i + 1..e];
      Joined([s[i]], s[i + 1..e], "\r\n");
      Joined([s[i]], s[i + 1..e] + "\r\n", ToCrLf(s[j + 1..]));
    }
  }

  lemma {:induction false} ToCrLfPlain(s: string, i: nat)
    requires i <= |s| && forall k :: i <= k < |s| ==> s[k] != '\n'
    ensures ToCrLf(s[i..]) == s[i..]
    decreases |s| - i
  {
    if i < |s| {
      ToCrLfPlain(s, i + 1);
      assert s[i..][1..] == s[i + 1..] && s[i..] == [s[i]] + s[i + 1..];
    }
  }

  // git_buf_text_lf_to_crlf
  method LfToCrLf(src: string) returns (tgt: string)
    ensures tgt == ToCrLf(src)
  {
    hide ToCrLf, Next;
    var scan := 0;
    var next := Next(src, '\n', 0);
    tgt := [];
    assert src[0..] == src && [] + ToCrLf(src) == ToCrLf(src);
    while next < |src|
      invariant scan <= |src| && next == Next(src, '\n', scan)
      invariant tgt + ToCrLf(src[scan..]) == ToCrLf(src)
      decreases |src| - scan
    {
      ToCrLfChunk(src, scan, next);
      var copylen := next - scan;
      if copylen > 0 && src[next - 1] == '\r' {
        copylen := copylen - 1;
      }
      Joined(tgt, src[scan..scan + copylen], "\r\n");
      Joined(tgt, src[scan..scan + copylen] + "\r\n", ToCrLf(src[next + 1..]));
      tgt := tgt + src[scan..scan + copylen];
      tgt := tgt + "\r\n";
      scan := next + 1;
      next := Next(src, '\n', scan);
    }
    ToCrLfPlain(src, scan);
    tgt := tgt + src[scan..];
  }

  // ---- line by line

  // A line without the carriage return that ends it, if there is one.
  function Bare(line: string): string {
    if line != [] && line[|line| - 1] == '\r' then line[..|line| - 1] else line
  }

  // What both conversions do, from the first line to the last.
  lemma LineConverts(line: string, rest: string)
    requires '\n' !in line
    ensures ToCrLf(line + "\n" + rest) == Bare(line) + "\r\n" + ToCrLf(rest)
    ensures ToLf(line + "\n" + rest) == Bare(line) + "\n" + ToLf(rest)
    ensures ToCrLf(line) == line && ToLf(line) == line
  {
    var n, s := |line|, line + "\n" + rest;
    assert s[0..] == s && s[n + 1..] == rest && s[n..][1..] == rest && forall k :: 0 <= k < n ==> s[k] == line[k];
    ToCrLfChunk(s, 0, n);
    assert Bare(line) == s[0..if n > 0 && s[n - 1] == '\r' then n - 1 else n];
    LinesToLf(line, rest);
    assert line[0..] == line;
    ToCrLfPlain(line, 0);
    ToLfSame(line);
  }

  lemma {:induction false} LinesToLf(line: string, rest: string)
    requires '\n' !in line
    ensures ToLf(line + "\n" + rest) == Bare(line) + "\n" + ToLf(rest)
  {
    var s := line + "\n" + rest;
    if line == [] {
      assert s[1..] == rest && s[0] == '\n';
      assert Bare([]) == [] && [] + "\n" + ToLf(rest) == "\n" + ToLf(rest);
    } else {
      var u := line[1..] + "\n" + rest;
      assert s == [line[0]] + u && s[1..] == u;
      LinesToLf(line[1..], rest);
      BareStep(line);
      if |line| == 1 {
        assert s[1] == '\n' && line[1..] == [];
        assert [] + ToLf(u) == ToLf(u);
      } else {
        assert s[1] == line[1];
        Joined([line[0]], Bare(line[1..]), "\n");
        Joined([line[0]], Bare(line[1..]) + "\n", ToLf(rest));
      }
    }
  }

  lemma BareStep(line: string)
    requires line != []
    ensures Bare(line) == if |line| == 1 && line[0] == '\r' then [] else [line[0]] + Bare(line[1..])
  {
    assert line == [line[0]] + line[1..];
    if |line| > 1 && line[|line| - 1] == '\r' {
      assert line[1..][|line| - 2] == '\r';
      assert line[..|line| - 1] == [line[0]] + line[1..][..|line| - 2];
    }
  }

  ghost predicate EveryNewlineHasCr(s: string) {
    forall i :: 0 <= i < |s| && s[i] == '\n' ==> i > 0 && s[i - 1] == '\r'
  }

  lemma {:induction false} CrLfEverywhere(s: string)
    ensures EveryNewlineHasCr(ToCrLf(s))
    decreases |s|
  {
    if s != [] {
      if CrLfAt(s, 0) {
        CrLfEverywhere(s[2..]);
      } else {
        CrLfEverywhere(s[1..]);
        FirstOfCrLf(s[1..]);
      }
    }
  }

  // ---- one undoes the other

  ghost predicate HasCrLf(s: string) {
    exists i :: 0 <= i < |s| && CrLfAt(s, i)
  }

  lemma HasCrLfRest(s: string)
    requires s != []
    ensures HasCrLf(s) <==> CrLfAt(s, 0) || HasCrLf(s[1..])
  {
    forall i | 0 <= i < |s|
      ensures i > 0 ==> (CrLfAt(s, i) <==> CrLfAt(s[1..], i - 1))
    {
    }
    if HasCrLf(s) {
      var i :| 0 <= i < |s| && CrLfAt(s, i);
      if i > 0 {
        assert CrLfAt(s[1..], i - 1);
      }
    }
    if HasCrLf(s[1..]) {
      var i :| 0 <= i < |s[1..]| && CrLfAt(s[1..], i);
      assert CrLfAt(s, i + 1);
    }
  }

  lemma FirstOfCrLf(s: string)
    ensures s != [] ==> ToCrLf(s) != [] && (ToCrLf(s)[0] == '\n' <==> false) && (s[0] != '\n' ==> ToCrLf(s)[0] == s[0])
  {
  }

  // Dropping the carriage returns does not depend on whether they were put in before.
  lemma {:induction false} ToLfOfCrLf(s: string)
    ensures ToLf(ToCrLf(s)) == ToLf(s)
    decreases |s|
  {
    if s != [] {
      var t := ToCrLf(s);
      if CrLfAt(s, 0) {
        ToLfOfCrLf(s[2..]);
        TwoChars(ToCrLf(s[2..]));
        assert s[1..][1..] == s[2..] && !CrLfAt(s[1..], 0);
        assert s[1..][0] == '\n';
      } else {
        ToLfOfCrLf(s[1..]);
        var u := ToCrLf(s[1..]);
        if s[0] == '\n' {
          TwoChars(u);
        } else {
          assert t[1..] == u && t[0] == s[0];
          FirstOfCrLf(s[1..]);
          NoPair(s, u);
        }
      }
    }
  }

  lemma TwoChars(u: string)
    ensures ToLf("\r\n" + u) == "\n" + ToLf(u)
  {
    var t := "\r\n" + u;
    assert t[1..] == "\n" + u && t[1..][1..] == u;
    assert ToLf(t) == [] + ToLf(t[1..]);
  }

  lemma NoPair(s: string, u: string)
    requires s != [] && !CrLfAt(s, 0) && s[0] != '\n' && (s[1..] == [] ==> u == [])
    requires s[1..] != [] ==> u != [] && u[0] != '\n'
    ensures !CrLfAt([s[0]] + u, 0)
  {
  }

  lemma {:induction false} ToLfSame(s: string)
    ensures |ToLf(s)| <= |s| && (ToLf(s) == s <==> !HasCrLf(s)) && (|ToLf(s)| == |s| <==> !HasCrLf(s))
  {
    if s != [] {
      ToLfSame(s[1..]);
      HasCrLfRest(s);
      assert s == [s[0]] + s[1..];
    }
  }

  lemma {:induction false} ToCrLfTwice(s: string)
    ensures ToCrLf(ToCrLf(s)) == ToCrLf(s)
    decreases |s|
  {
    if s != [] {
      if CrLfAt(s, 0) {
        ToCrLfTwice(s[2..]);
        PairStays(ToCrLf(s[2..]));
      } else {
        ToCrLfTwice(s[1..]);
        var u := ToCrLf(s[1..]);
        if s[0] == '\n' {
          PairStays(u);
        } else {
          FirstOfCrLf(s[1..]);
          NoPair(s, u);
          assert ([s[0]] + u)[1..] == u;
        }
      }
    }
  }

  lemma PairStays(u: string)
    ensures ToCrLf("\r\n" + u) == "\r\n" + ToCrLf(u)
  {
    assert ("\r\n" + u)[2..] == u;
  }

  // ---- statistics

  datatype Stats = Stats(nul: nat, cr: nat, lf: nat, crlf: nat, printable: nat, nonprintable: nat)

  function Plus(a: Stats, b: Stats): Stats {
    Stats(a.nul + b.nul, a.cr + b.cr, a.lf + b.lf, a.crlf + b.crlf, a.printable + b.printable, a.nonprintable + b.nonprintable)
  }

  // What one character adds.
  function One(c: char, crlf: bool): Stats {
    if c > '\U{1F}' && c != '\U{7F}' then Stats(0, 0, 0, 0, 1, 0)
    else if c == '\U{0}' then Stats(1, 0, 0, 0, 0, 1)
    else if c == '\n' then Stats(0, 0, 1, 0, 0, 0)
    else if c == '\r' then Stats(0, 1, 0, if crlf then 1 else 0, 0, 0)
    else if c == '\t' || c == '\U{C}' || c == '\U{B}' || c == '\U{8}' || c == '\U{1B}' then Stats(0, 0, 0, 0, 1, 0)
    else Stats(0, 0, 0, 0, 0, 1)
  }

  function Count(s: string): Stats {
    if s == [] then Stats(0, 0, 0, 0, 0, 0) else Plus(One(s[0], CrLfAt(s, 0)), Count(s[1..]))
  }

  // A Ctrl-Z at the end is not looked at.
  function Body(s: string): string {
    if s != [] && s[|s| - 1] == '\U{1A}' then s[..|s| - 1] else s
  }

  function Gathered(s: string): Stats {
    Count(Body(s))
  }

  function Binary(st: Stats): bool {
    st.nul > 0 || st.printable / 128 < st.nonprintable
  }

  // git_buf_text_gather_stats, without the byte order mark, which the filter does not use.
  method GatherStats(buf: string) returns (st: Stats, binary: bool)
    ensures st == Gathered(buf) && binary == Binary(st)
  {
    hide One, Count, Plus;
    st := Stats(0, 0, 0, 0, 0, 0);
    var end := |buf|;
    if end > 0 && buf[end - 1] == '\U{1A}' {
      end := end - 1;
    }
    ghost var body := buf[..end];
    assert body == Body(buf) && body[0..] == body;
    NothingCounted(Count(body));
    var scan := 0;
    while scan < end
      invariant scan <= end == |body| && body == buf[..end] && Plus(st, Count(body[scan..])) == Count(body)
    {
      var crlf := scan + 1 < end && buf[scan] == '\r' && buf[scan + 1] == '\n';
      CountStep(st, body, scan);
      st := Plus(st, One(buf[scan], crlf));
      scan := scan + 1;
    }
    assert body[scan..] == [];
    NothingCounted(st);
    binary := st.nul > 0 || st.printable / 128 < st.nonprintable;
  }

  lemma NothingCounted(st: Stats)
    ensures Plus(Stats(0, 0, 0, 0, 0, 0), st) == st && Plus(st, Count([])) == st
  {
  }

  lemma CountStep(st: Stats, body: string, i: nat)
    requires i < |body|
    ensures var crlf := i + 1 < |body| && body[i] == '\r' && body[i + 1] == '\n';
      Plus(st, Count(body[i..])) == Plus(Plus(st, One(body[i], crlf)), Count(body[i + 1..]))
  {
    hide One;
    assert body[i..][1..] == body[i + 1..];
    assert i + 1 < |body| ==> body[i..][1] == body[i + 1];
  }

  function In(c: char, cs: set<char>): nat {
    if c in cs then 1 else 0
  }

  // How many characters of s are in the set.
  function Number(s: string, cs: set<char>): nat {
    if s == [] then 0 else In(s[0], cs) + Number(s[1..], cs)
  }

  predicate Control(c: char) {
    c <= '\U{1F}' || c == '\U{7F}'
  }

  // What the counts are. A backspace, a tab, a vertical tab, a form feed and an escape are
  // printable.
  lemma {:induction false} CountIs(s: string)
    ensures var st := Count(s);
      && st.nul == Number(s, {'\U{0}'}) && st.cr == Number(s, {'\r'}) && st.lf == Number(s, {'\n'})
      && st.crlf == |s| - |ToLf(s)|
      && st.nonprintable + Number(s, {'\U{8}', '\t', '\n', '\U{B}', '\U{C}', '\r', '\U{1B}'}) == Number(s, set c: char | Control(c))
      && st.printable + st.nonprintable + st.cr + st.lf == |s|
  {
    hide One, In;
    if s != [] {
      OneIs(s[0], CrLfAt(s, 0));
      CountIs(s[1..]);
    }
  }

  lemma OneIs(c: char, crlf: bool)
    ensures var st := One(c, crlf);
      && st.nul == In(c, {'\U{0}'}) && st.cr == In(c, {'\r'}) && st.lf == In(c, {'\n'})
      && st.crlf == (if c == '\r' && crlf then 1 else 0)
      && st.nonprintable + In(c, {'\U{8}', '\t', '\n', '\U{B}', '\U{C}', '\r', '\U{1B}'}) == In(c, set c: char | Control(c))
      && st.printable + st.nonprintable + st.cr + st.lf == 1
  {
  }

  lemma OneOfEnding(c: char, crlf: bool)
    ensures c == '\r' ==> One(c, crlf) == Stats(0, 1, 0, if crlf then 1 else 0, 0, 0)
    ensures c == '\n' ==> One(c, crlf) == Stats(0, 0, 1, 0, 0, 0)
    ensures c != '\r' && c != '\n' ==> One(c, crlf) == One(c, false) && One(c, crlf).cr == 0 && One(c, crlf).lf == 0
    ensures c != '\r' ==> One(c, crlf).crlf == 0
    ensures c == '\r' && !crlf ==> One(c, crlf).crlf == 0
  {
  }

  lemma {:induction false} CountCrLf(s: string)
    ensures Count(s).crlf > 0 <==> HasCrLf(s)
    ensures Count(s).crlf <= Count(s).cr && Count(s).crlf <= Count(s).lf
    decreases |s|
  {
    hide One, HasCrLf;
    if s == [] {
      NoCrLf();
    } else {
      HasCrLfRest(s);
      OneOfEnding(s[0], CrLfAt(s, 0));
      if CrLfAt(s, 0) {
        assert s == "\r\n" + s[2..];
        CountPair(s[2..]);
        CountCrLf(s[2..]);
      } else {
        CountCrLf(s[1..]);
      }
    }
  }

  // Where every newline has its carriage return, there is nothing to convert.
  lemma NothingLacks(s: string)
    ensures Count(s).lf == Count(s).crlf <==> ToCrLf(s) == s
  {
    CountOfCrLf(s);
    if Count(s).lf == Count(s).crlf {
      AllThere(s);
    }
  }

  lemma {:induction false} AllThere(s: string)
    requires Count(s).lf == Count(s).crlf
    ensures ToCrLf(s) == s
    decreases |s|
  {
    hide One;
    if s != [] {
      OneOfEnding(s[0], CrLfAt(s, 0));
      if CrLfAt(s, 0) {
        assert s == "\r\n" + s[2..];
        CountPair(s[2..]);
        AllThere(s[2..]);
      } else {
        CountCrLf(s[1..]);
        assert s[0] != '\n';
        hide Count;
        AllThere(s[1..]);
        assert s == [s[0]] + s[1..];
      }
    }
  }

  ghost predicate HasLoneCr(s: string) {
    exists i :: 0 <= i < |s| && s[i] == '\r' && !CrLfAt(s, i)
  }

  lemma {:induction false} LoneCr(s: string)
    ensures Count(s).cr != Count(s).crlf <==> HasLoneCr(s)
    ensures Count(s).cr > 0 <==> '\r' in s
  {
    hide One;
    if s != [] {
      OneOfEnding(s[0], CrLfAt(s, 0));
      CountCrLf(s[1..]);
      LoneCr(s[1..]);
      assert s == [s[0]] + s[1..];
      assert forall i :: 0 < i < |s| ==> (CrLfAt(s, i) <==> CrLfAt(s[1..], i - 1));
      if HasLoneCr(s[1..]) {
        var i :| 0 <= i < |s[1..]| && s[1..][i] == '\r' && !CrLfAt(s[1..], i);
        assert s[i + 1] == '\r' && !CrLfAt(s, i + 1);
      }
      if HasLoneCr(s) {
        var i :| 0 <= i < |s| && s[i] == '\r' && !CrLfAt(s, i);
        assert i > 0 ==> s[1..][i - 1] == '\r' && !CrLfAt(s[1..], i - 1);
      }
    }
  }

  lemma NoCrLf()
    ensures !HasCrLf([])
  {
  }

  // Converting newlines changes none of the counts but those of line endings.
  lemma {:induction false} CountOfCrLf(s: string)
    ensures var a, b := Count(s), Count(ToCrLf(s));
      && b.nul == a.nul && b.printable == a.printable && b.nonprintable == a.nonprintable
      && b.lf == a.lf == b.crlf && b.cr == a.cr - a.crlf + a.lf && a.crlf <= a.cr
    decreases |s|
  {
    hide One;
    if s != [] {
      OneOfEnding(s[0], CrLfAt(s, 0));
      if CrLfAt(s, 0) {
        CountOfCrLf(s[2..]);
        CountPair(ToCrLf(s[2..]));
        CountPair(s[2..]);
        assert s == "\r\n" + s[2..];
      } else {
        CountOfCrLf(s[1..]);
        var u := ToCrLf(s[1..]);
        if s[0] == '\n' {
          CountPair(u);
        } else {
          FirstOfCrLf(s[1..]);
          NoPair(s, u);
          assert ([s[0]] + u)[1..] == u;
        }
      }
    }
  }

  lemma CountPair(u: string)
    ensures Count("\r\n" + u) == Plus(Stats(0, 1, 1, 1, 0, 0), Count(u))
  {
    hide One;
    var t := "\r\n" + u;
    assert t[1..] == "\n" + u && t[1..][1..] == u;
    assert CrLfAt(t, 0) && !CrLfAt(t[1..], 0);
    OneOfEnding('\r', true);
    OneOfEnding('\n', false);
  }

  // The Ctrl-Z at the end stays where it is.
  lemma {:induction false} ToCrLfAppend(s: string)
    ensures ToCrLf(s + "\U{1A}") == ToCrLf(s) + "\U{1A}"
    decreases |s|
  {
    var t := s + "\U{1A}";
    if s == [] {
      assert t == "\U{1A}" && t[1..] == [];
    } else if CrLfAt(s, 0) {
      assert t[2..] == s[2..] + "\U{1A}";
      ToCrLfAppend(s[2..]);
      Joined("\r\n", ToCrLf(s[2..]), "\U{1A}");
    } else {
      assert t[1..] == s[1..] + "\U{1A}" && t[0] == s[0];
      assert !CrLfAt(t, 0);
      ToCrLfAppend(s[1..]);
      Joined(if s[0] == '\n' then "\r\n" else [s[0]], ToCrLf(s[1..]), "\U{1A}");
    }
  }

  lemma {:induction false} LastOfCrLf(s: string)
    requires s != []
    ensures ToCrLf(s) != [] && ToCrLf(s)[|ToCrLf(s)| - 1] == s[|s| - 1]
    decreases |s|
  {
    if CrLfAt(s, 0) {
      if s[2..] != [] {
        LastOfCrLf(s[2..]);
      } else {
        assert ToCrLf(s[2..]) == [];
      }
    } else if s[1..] != [] {
      LastOfCrLf(s[1..]);
    } else {
      assert ToCrLf(s[1..]) == [];
    }
  }

  lemma BodyOfCrLf(s: string)
    ensures Body(ToCrLf(s)) == ToCrLf(Body(s))
  {
    if s != [] {
      LastOfCrLf(s);
      if s[|s| - 1] == '\U{1A}' {
        var b := s[..|s| - 1];
        assert s == b + "\U{1A}";
        ToCrLfAppend(b);
        assert (ToCrLf(b) + "\U{1A}")[..|ToCrLf(b)|] == ToCrLf(b);
      }
    }
  }

  lemma BodyHasCrLf(s: string)
    ensures HasCrLf(Body(s)) <==> HasCrLf(s)
  {
    var b := Body(s);
    forall i | 0 <= i < |s|
      ensures CrLfAt(s, i) <==> CrLfAt(b, i)
    {
    }
    if HasCrLf(b) {
      var i :| 0 <= i < |b| && CrLfAt(b, i);
      assert CrLfAt(s, i);
    }
    if HasCrLf(s) {
      var i :| 0 <= i < |s| && CrLfAt(s, i);
      assert CrLfAt(b, i);
    }
  }
}
