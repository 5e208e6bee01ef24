// A Zcode as a whole, manager/mainwindow.cpp: recomputeZcode makes it of the selectors and
// the meta-data, on_zcode_editingFinished reads it again.
module Zcode {
  import opened Options
  import opened ZcodeMath
  import opened ZcodeCode
  import opened ZcodeMeta

  // ---- making a Zcode

  // The sites are numbered from 1 on; the first is left out.
  function SiteDigit(site: int): string {
    if site == 2 then "2" else if site == 3 then "3" else "1"
  }

  function Tokens(rev: string, file: string, repo: string, site: int): seq<Symbol> {
    Part(Rev, rev) + Part(File, file) + Part(Repo, repo) + if site == 1 then [] else Part(Site, SiteDigit(site))
  }

  lemma TokensCoded(rev: string, file: string, repo: string, site: int)
    ensures Coded(Tokens(rev, file, repo, site))
    ensures Coded(Part(Rev, rev)) && Coded(Part(File, file)) && Coded(Part(Repo, repo)) && Coded(Part(Site, SiteDigit(site)))
  {
    PartCoded(Rev, rev);
    PartCoded(File, file);
    PartCoded(Repo, repo);
    PartCoded(Site, SiteDigit(site));
  }

  function Appendix(ss: seq<Symbol>): seq<int>
    requires Coded(ss)
  {
    WithoutMarks(Mark() + Concat(ss) + Mark())
  }

  // The bits of a Zcode: last comes the version, of two bits, and behind it the meta-data
  // from its end to its start.
  function Layout(selectors: seq<int>, ss: seq<Symbol>): seq<int>
    requires Coded(ss)
  {
    Reverse(selectors) + [0, 0] + Reverse(Appendix(ss))
  }

  lemma LayoutBinary(selectors: seq<int>, ss: seq<Symbol>)
    requires Digits(2, selectors) && Coded(ss)
    ensures Digits(2, Layout(selectors, ss)) && Digits(2, Appendix(ss))
  {
    hide Code, Bits, Concat, CodeBits;
    MarkIsSix();
    ConcatBinary(ss);
    BinaryConcat(Mark(), Concat(ss));
    BinaryConcat(Mark() + Concat(ss), Mark());
    var s := Mark() + Concat(ss) + Mark();
    BinaryPart(s, Appendix(ss));
    BinaryConcat(Reverse(selectors), [0, 0]);
    BinaryConcat(Reverse(selectors) + [0, 0], Reverse(Appendix(ss)));
  }

  lemma BinaryConcat(a: seq<int>, b: seq<int>)
    requires Digits(2, a) && Digits(2, b)
    ensures Digits(2, a + b)
  {
  }

  lemma BinaryPart(s: seq<int>, t: seq<int>)
    requires Digits(2, s) && t <= s
    ensures Digits(2, t)
  {
  }

  function ZcodeOf(selectors: seq<int>, ss: seq<Symbol>): string
    requires Digits(2, selectors) && Coded(ss)
  {
    LayoutBinary(selectors, ss);
    Encoded(Layout(selectors, ss))
  }

  // recomputeZcode; what could not be encoded is reported and left out.
  method Recompute(selectors: seq<int>, rev: string, file: string, repo: string, site: int) returns (letters: string, error: int)
    requires Digits(2, selectors) && 1 <= site <= 3
    ensures Coded(Tokens(rev, file, repo, site)) && letters == ZcodeOf(selectors, Tokens(rev, file, repo, site))
    ensures error == 0 <==> Unknown(Trimmed(rev)) == [] && Unknown(Trimmed(file)) == [] && Unknown(Trimmed(repo)) == []
  {
    hide Code, Bits, Part, Concat, WithoutMarks, Encoded, Unknown, Trimmed, Digits;
    ghost var ss := Tokens(rev, file, repo, site);
    TokensCoded(rev, file, repo, site);
    LayoutBinary(selectors, ss);
    var bits := [0, 0] + selectors;
    bits := Reverse(bits);
    assert bits == Reverse(selectors) + [0, 0];
    var appendix := Mark();
    var invalid, e;
    appendix, e, invalid := BitsWithPreamble(appendix, Rev, rev);
    error := e;
    appendix, e, invalid := BitsWithPreamble(appendix, File, file);
    error := error + e;
    appendix, e, invalid := BitsWithPreamble(appendix, Repo, repo);
    error := error + e;
    if site != 1 {
      SiteIsKnown(site);
      appendix, e, invalid := BitsWithPreamble(appendix, Site, SiteDigit(site));
      error := error + e;
    }
    FourParts(Part(Rev, rev), Part(File, file), Part(Repo, repo), if site == 1 then [] else Part(Site, SiteDigit(site)));
    appendix := appendix + Mark();
    appendix, e := RemoveIfStartStop(appendix);
    MarkAtEnd(Mark() + Concat(ss));
    error := error + e;
    if |appendix| == 0 {
      NoMarkAtEnd(bits);
      var found := CompareSuffix(bits, Reverse(Mark()));
      if found {
        bits := bits + Reverse(Mark());
      }
      assert bits == Layout(selectors, ss);
    } else {
      bits := bits + Reverse(appendix);
    }
    letters, e := Encode(bits);
    error := error + e;
  }

  lemma SiteIsKnown(site: int)
    requires site == 2 || site == 3
    ensures Kept(SiteDigit(site)) == SiteDigit(site) && Unknown(Trimmed(SiteDigit(site))) == []
  {
    var s := SiteDigit(site);
    assert Trimmed(s) == s;
    assert s[1..] == [] && Known(s[1..]) == [] && Unknown(s[1..]) == [];
    assert Known(s) == [s[0]] + [] && [s[0]] == s;
  }

  lemma FourParts(a: seq<Symbol>, b: seq<Symbol>, c: seq<Symbol>, d: seq<Symbol>)
    requires Coded(a) && Coded(b) && Coded(c) && Coded(d)
    ensures Coded(a + b + c + d)
    ensures Mark() + Concat(a + b + c + d) == Mark() + Concat(a) + Concat(b) + Concat(c) + Concat(d)
    ensures d == [] ==> Mark() + Concat(a + b + c + d) == Mark() + Concat(a) + Concat(b) + Concat(c)
  {
    hide CodeBits, Code, Concat;
    ConcatAppend(a, b);
    ConcatAppend(a + b, c);
    ConcatAppend(a + b + c, d);
    Assoc(Mark(), Concat(a), Concat(b), Concat(c), Concat(d));
    assert d == [] ==> a + b + c + d == a + b + c;
  }

  lemma Assoc(m: seq<int>, a: seq<int>, b: seq<int>, c: seq<int>, d: seq<int>)
    ensures m + (a + b + c + d) == m + a + b + c + d && m + (a + b + c) == m + a + b + c
  {
  }

  lemma MarkAtEnd(s: seq<int>)
    ensures EndsWith(s + Mark(), Mark()) && Cut(s + Mark()) == s
  {
    assert (s + Mark())[|s|..] == Mark();
  }

  // With the version 00 no selectors can be taken for a mark.
  lemma NoMarkAtEnd(bits: seq<int>)
    requires |bits| >= 2 && bits[|bits| - 1] == 0
    ensures !EndsWith(bits, Reverse(Mark()))
  {
    MarkIsSix();
    LastOfSuffix(bits, Reverse(Mark()));
  }

  lemma LastOfSuffix(bits: seq<int>, suffix: seq<int>)
    requires suffix != []
    ensures EndsWith(bits, suffix) ==> bits[|bits| - 1] == suffix[|suffix| - 1]
  {
    if EndsWith(bits, suffix) {
      assert bits[|bits| - |suffix|..][|suffix| - 1] == bits[|bits| - 1];
    }
  }

  // ---- reading it

  datatype Reading = Reading(selectors: seq<int>, rev: string, file: string, repo: string, site: int)

  // sites; a name that is not known stands for the first site.
  function SiteIndex(name: string): int {
    if name == "bb" then 2 else if name == "gl" then 3 else 1
  }

  // The sites in their order, by the names under which they are read.
  lemma SitesAre(site: int)
    requires 1 <= site <= 3
    ensures var name := ["gh", "bb", "gl"][site - 1];
      SiteName("123"[site - 1]) == name && SiteIndex(name) == site
  {
    assert "gh"[0] != "bb"[0] && "gl"[1] != "gh"[1];
  }

  function DropLast(bits: seq<int>, n: nat): seq<int> {
    if n > |bits| then bits else bits[..|bits| - n]
  }

  function Understood(bits: seq<int>): Reading {
    var m := Process(bits);
    Reading(Reverse(DropLast(DropLast(bits, m.skip), 2)), Field(m.fields, Rev), Field(m.fields, File), Field(m.fields, Repo),
            SiteIndex(Field(m.fields, Site)))
  }

  // on_zcode_editingFinished behind the slash; applyCodeSelectors turns the bits round.
  method ReadZcode(letters: string) returns (r: Reading)
    ensures r == Understood(if AllLetters(letters) then Decoded(letters) else [])
  {
    hide Process;
    var bits, error := Decode(letters);
    if error != 0 {
      bits := [];
    }
    var skip, decoded, error' := ProcessMetaData(bits);
    if skip <= |bits| {
      bits := bits[..|bits| - skip];
    }
    if |bits| >= 2 {
      bits := bits[..|bits| - 2];
    }
    return Reading(Reverse(bits), Field(decoded, Rev), Field(decoded, File), Field(decoded, Repo), SiteIndex(Field(decoded, Site)));
  }

  // ---- the meta-data read back

  function Fold(ss: seq<Symbol>, current: Symbol, r: Record): (Symbol, Record) {
    if ss == [] then (current, r)
    else if ss[0].Letter? then Fold(ss[1..], current, Put(r, current, ss[0].c))
    else Fold(ss[1..], ss[0], r)
  }

  // Words are read one after the other.
  lemma {:induction false} ReadsTokens(ss: seq<Symbol>, rest: seq<int>, current: Symbol, r: Record)
    requires Coded(ss) && Ss !in ss
    ensures ReadFrom(Concat(ss) + rest, current, r) == ReadFrom(rest, Fold(ss, current, r).0, Fold(ss, current, r).1)
  {
    hide ReadSymbol, CodeBits, Put;
    if ss == [] {
      assert Concat(ss) + rest == rest;
    } else {
      var t := Concat(ss[1..]) + rest;
      ReadsBack(ss[0], t);
      assert Concat(ss) + rest == CodeBits(ss[0]) + t;
      assert (CodeBits(ss[0]) + t)[|CodeBits(ss[0])|..] == t;
      if ss[0].Letter? {
        ReadsTokens(ss[1..], rest, current, Put(r, current, ss[0].c));
      } else {
        ReadsTokens(ss[1..], rest, ss[0], r);
      }
    }
  }

  lemma {:induction false} FoldConcat(a: seq<Symbol>, b: seq<Symbol>, current: Symbol, r: Record)
    ensures Fold(a + b, current, r) == Fold(b, Fold(a, current, r).0, Fold(a, current, r).1)
  {
    if a == [] {
      assert a + b == b;
    } else {
      assert (a + b)[1..] == a[1..] + b;
      if a[0].Letter? {
        FoldConcat(a[1..], b, current, Put(r, current, a[0].c));
      } else {
        FoldConcat(a[1..], b, a[0], r);
      }
    }
  }

  // What a text of characters comes to under a selector.
  function Shown(key: Symbol, s: string): string {
    if s == [] then [] else (if key == Site then SiteName(s[0]) else [s[0]]) + Shown(key, s[1..])
  }

  lemma {:induction false} ShownPlain(key: Symbol, s: string)
    requires key != Site
    ensures Shown(key, s) == s
  {
    if s != [] {
      ShownPlain(key, s[1..]);
    }
  }

  lemma PutField(r: Record, key: Symbol, c: char)
    ensures Field(Put(r, key, c), key) == Field(r, key) + if key == Site then SiteName(c) else [c]
    ensures forall k :: k != key ==> Field(Put(r, key, c), k) == Field(r, k)
  {
  }

  lemma FoldStep(s: string, key: Symbol, r: Record)
    ensures Fold(Chars(s), key, r) == if s == [] then (key, r) else Fold(Chars(s[1..]), key, Put(r, key, s[0]))
  {
    hide Put;
    if s != [] {
      assert Chars(s)[1..] == Chars(s[1..]) && Chars(s)[0] == Letter(s[0]);
    }
  }

  lemma ShownStep(s: string, key: Symbol, before: string)
    ensures before + Shown(key, s) ==
      if s == [] then before else before + (if key == Site then SiteName(s[0]) else [s[0]]) + Shown(key, s[1..])
  {
    hide SiteName;
    if s == [] {
      assert before + [] == before;
    } else {
      var one := if key == Site then SiteName(s[0]) else [s[0]];
      Joined(before, one, Shown(key, s[1..]));
    }
  }

  lemma Joined(a: string, b: string, c: string)
    ensures a + (b + c) == a + b + c
  {
  }

  lemma {:induction false} FoldLetters(s: string, key: Symbol, r: Record)
    ensures var (current, q) := Fold(Chars(s), key, r);
      && current == key && Field(q, key) == Field(r, key) + Shown(key, s)
      && forall k :: k != key ==> Field(q, k) == Field(r, k)
  {
    hide Put, Field, Fold, Chars, Shown;
    FoldStep(s, key, r);
    ShownStep(s, key, Field(r, key));
    if s != [] {
      PutField(r, key, s[0]);
      FoldLetters(s[1..], key, Put(r, key, s[0]));
    }
  }

  lemma FoldPart(key: Symbol, data: string, current: Symbol, r: Record)
    requires key in {Rev, File, Repo, Site}
    ensures var (_, q) := Fold(Part(key, data), current, r);
      && Field(q, key) == Field(r, key) + Shown(key, Kept(data))
      && forall k :: k != key ==> Field(q, k) == Field(r, k)
  {
    hide Kept, Chars;
    var s := Kept(data);
    if s == [] {
      assert Field(r, key) + [] == Field(r, key);
    } else {
      assert ([key] + Chars(s))[0] == key && ([key] + Chars(s))[1..] == Chars(s);
      FoldLetters(s, key, r);
    }
  }

  lemma FoldTokens(rev: string, file: string, repo: string, site: int)
    requires 1 <= site <= 3
    ensures var (_, q) := Fold(Tokens(rev, file, repo, site), NoSelector, Empty());
      && Field(q, Rev) == Kept(rev) && Field(q, File) == Kept(file) && Field(q, Repo) == Kept(repo)
      && SiteIndex(Field(q, Site)) == site
  {
    hide Part, Kept, Fold;
    var a, b, c := Part(Rev, rev), Part(File, file), Part(Repo, repo);
    var d := if site == 1 then [] else Part(Site, SiteDigit(site));
    var (c0, r0) := (NoSelector, Empty());
    var (c1, r1) := Fold(a, c0, r0);
    var (c2, r2) := Fold(b, c1, r1);
    var (c3, r3) := Fold(c, c2, r2);
    FoldPart(Rev, rev, c0, r0);
    FoldPart(File, file, c1, r1);
    FoldPart(Repo, repo, c2, r2);
    FoldConcat(a, b, c0, r0);
    FoldConcat(a + b, c, c0, r0);
    FoldConcat(a + b + c, d, c0, r0);
    ShownPlain(Rev, Kept(rev));
    ShownPlain(File, Kept(file));
    ShownPlain(Repo, Kept(repo));
    assert "" + Kept(rev) == Kept(rev) && "" + Kept(file) == Kept(file) && "" + Kept(repo) == Kept(repo);
    if site == 1 {
      FoldNothing(c3, r3);
    } else {
      FoldPart(Site, SiteDigit(site), c3, r3);
      SiteIsKnown(site);
      SiteShown(site);
    }
  }

  lemma FoldNothing(current: Symbol, r: Record)
    ensures Fold([], current, r) == (current, r)
  {
  }

  lemma SiteShown(site: int)
    requires site == 2 || site == 3
    ensures SiteIndex("" + Shown(Site, SiteDigit(site))) == site
  {
    var s := SiteDigit(site);
    assert s[1..] == [] && Shown(Site, s[1..]) == [];
    assert Shown(Site, s) == SiteName(s[0]) + [];
    assert SiteName(s[0]) + [] == SiteName(s[0]) && "" + SiteName(s[0]) == SiteName(s[0]);
  }
}
