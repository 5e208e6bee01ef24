// When a Zcode gives back what it was made of.
module ZcodeTheory {
  import opened Options
  import opened ZcodeMath
  import opened ZcodeCode
  import opened ZcodeMeta
  import opened Zcode

  // Meta-data: selectors of six bits and characters, a selector first and a character last.
  ghost predicate IsMeta(ss: seq<Symbol>) {
    && Coded(ss) && Ss !in ss
    && (ss != [] ==> |ss| >= 2 && ss[0] in {Rev, File, Repo, Site} && ss[|ss| - 1].Letter?)
  }

  predicate EndsInW(ss: seq<Symbol>) {
    ss != [] && ss[|ss| - 1] == Letter('W')
  }

  // Selectors without the zeros at the end, turned round.
  function Trail(selectors: seq<int>): seq<int> {
    NoZeros(Reverse(selectors))
  }

  // ---- zeros

  lemma {:induction false} NoZerosConcat(a: seq<int>, b: seq<int>)
    ensures NoZeros(a + b) == if NoZeros(a) == [] then NoZeros(b) else NoZeros(a) + b
  {
    if a == [] {
      assert a + b == b;
    } else if a[0] == 0 {
      assert (a + b)[1..] == a[1..] + b;
      NoZerosConcat(a[1..], b);
    }
  }

  lemma {:induction false} NoZerosStarts(s: seq<int>)
    ensures NoZeros(s) == [] || NoZeros(s)[0] != 0
    ensures NoZeros(s) == [] <==> forall i :: 0 <= i < |s| ==> s[i] == 0
  {
    if s != [] && s[0] == 0 {
      NoZerosStarts(s[1..]);
      assert forall i :: 0 < i < |s| ==> s[i] == s[1..][i - 1];
    }
  }

  lemma TrailEmpty(selectors: seq<int>)
    requires Digits(2, selectors)
    ensures Trail(selectors) == [] <==> 1 !in selectors
  {
    NoZerosStarts(Reverse(selectors));
    assert forall i :: 0 <= i < |selectors| ==> selectors[i] == Reverse(selectors)[|selectors| - 1 - i];
  }

  lemma ReverseTwice(a: seq<int>)
    ensures Reverse(Reverse(a)) == a
  {
  }

  // ---- marks

  lemma {:induction false} LowBits(width: nat, n: nat)
    ensures Bits(width + 1, n)[1..] == Bits(width, n)
  {
    if width > 0 {
      LowBits(width - 1, n / 2);
      assert Bits(width + 1, n) == Bits(width, n / 2) + [n % 2];
      assert (Bits(width, n / 2) + [n % 2])[1..] == Bits(width, n / 2)[1..] + [n % 2];
    }
  }

  // Of all characters, only W has a word that ends in the bits of the mark.
  lemma OnlyW(c: char)
    requires LetterCode(c).Some?
    ensures var w := CodeBits(Letter(c)); w[|w| - 6..] == Mark() <==> c == 'W'
    ensures |CodeBits(Letter(c))| >= 6 && (c == 'W' ==> CodeBits(Letter(c)) == [1] + Mark())
  {
    hide Bits, LetterCode, Meaning6, Meaning7;
    MeaningOfLetter(c);
    Pow67();
    BitsValue(6, 40);
    assert Mark() == Bits(6, 40);
    match LetterCode(c).value {
      case Width6(n) =>
        CodeOfMeaning6(n);
        BitsValue(6, n);
        assert Bits(6, n)[0..] == Bits(6, n);
        SsIs40();
        WIs104();
      case Width7(n) =>
        CodeOfMeaning7(n);
        BitsValue(6, n % 64);
        LowBits(6, n);
        SixLow(n);
        WIs104();
        if n == 104 {
          WBits();
        }
    }
  }

  lemma SsIs40()
    ensures Meaning6(40) == Some(Ss) && Code(Ss) == Some(Width6(40))
  {
  }

  lemma WIs104()
    ensures LetterCode('W') == Some(Width7(104)) && Meaning7(104) == Some(Letter('W'))
  {
  }

  lemma {:induction false} HighBit(width: nat, n: nat)
    ensures Bits(width, n + Pow2(width)) == Bits(width, n)
  {
    if width > 0 {
      HighBit(width - 1, n / 2);
      assert (n + 2 * Pow2(width - 1)) / 2 == n / 2 + Pow2(width - 1);
    }
  }

  lemma SixLow(n: nat)
    requires n < 128
    ensures Bits(6, n) == Bits(6, n % 64)
  {
    hide Bits, Pow2;
    Pow67();
    if n >= 64 {
      assert n % 64 == n - 64;
      HighBit(6, n - 64);
    } else {
      assert n % 64 == n;
    }
  }

  lemma WBits()
    ensures Bits(7, 104) == [1] + Bits(6, 40)
  {
    Pow67();
    BitsValue(7, 104);
    LowBits(6, 104);
    SixLow(104);
    assert Bits(1, 1) == [1];
    assert Bits(7, 104)[0] == 1;
    assert Bits(7, 104) == [Bits(7, 104)[0]] + Bits(7, 104)[1..];
  }

  lemma ConcatLast(ss: seq<Symbol>)
    requires IsMeta(ss) && ss != []
    ensures var init, last := ss[..|ss| - 1], ss[|ss| - 1];
      Coded(init) && LetterCode(last.c).Some? && Concat(ss) == Concat(init) + CodeBits(last)
  {
    hide CodeBits, Code, Concat;
    var init, last := ss[..|ss| - 1], ss[|ss| - 1];
    assert ss == init + [last];
    ConcatAppend(init, [last]);
    ConcatOne(last);
    LetterIsCoded(last.c);
  }

  // A text ends in a mark exactly if its last character is W.
  lemma EndsInMark(ss: seq<Symbol>)
    requires IsMeta(ss) && ss != []
    ensures EndsWith(Mark() + Concat(ss), Mark()) <==> EndsInW(ss)
    ensures EndsInW(ss) ==> Mark() + Concat(ss) == Mark() + Concat(ss[..|ss| - 1]) + [1] + Mark()
  {
    hide CodeBits, Code, Concat, LetterCode, EndsWith;
    var c := ss[|ss| - 1].c;
    ConcatLast(ss);
    OnlyW(c);
    MarkIsSix();
    hide Mark;
    var a, w := Mark() + Concat(ss[..|ss| - 1]), CodeBits(Letter(c));
    SuffixOf(a, w, Mark());
    assert Mark() + Concat(ss) == a + w;
  }

  lemma SuffixOf(a: seq<int>, w: seq<int>, mark: seq<int>)
    requires |w| >= 6 && |mark| == 6
    ensures EndsWith(a + w, mark) <==> w[|w| - 6..] == mark
    ensures w == [1] + mark ==> a + w == a + [1] + mark
  {
    assert (a + w)[|a + w| - 6..] == w[|w| - 6..];
  }

  lemma ConcatOne(s: Symbol)
    requires Code(s).Some?
    ensures Concat([s]) == CodeBits(s)
  {
    hide Code, CodeBits;
    assert [s][1..] == [] && Concat([]) == [];
    assert CodeBits(s) + [] == CodeBits(s);
  }

  lemma LetterIsCoded(c: char)
    ensures Code(Letter(c)) == LetterCode(c)
  {
    hide LetterCode;
  }

  // The appendix in each case.
  lemma AppendixIs(ss: seq<Symbol>)
    requires IsMeta(ss)
    ensures Appendix(ss) ==
      if ss == [] then []
      else if EndsInW(ss) then Mark() + Concat(ss[..|ss| - 1]) + [1]
      else Mark() + Concat(ss) + Mark()
  {
    hide CodeBits, Code;
    var s := Mark() + Concat(ss);
    MarkAtEnd(s);
    if ss == [] {
      assert s == [] + Mark();
      MarkAtEnd([]);
    } else {
      hide Concat;
      EndsInMark(ss);
      if EndsInW(ss) {
        MarkAtEnd(Mark() + Concat(ss[..|ss| - 1]) + [1]);
      }
    }
  }

  // ---- process_meta_data

  // Reading the bits turned round: a mark, words, and something else.
  lemma ProcessReads(bits: seq<int>, ss: seq<Symbol>, rest: seq<int>)
    requires Digits(2, bits) && Coded(ss) && Ss !in ss && ss != [] && ss[0] in {Rev, File, Repo, Site}
    requires Reverse(bits) == Mark() + Concat(ss) + rest
    ensures var (current, r) := Fold(ss, NoSelector, Empty());
      var (left, q) := ReadFrom(rest, current, r);
      Process(bits) == if left.None? then Meta(0, q, 121) else Meta(|bits| - left.value, q, 0)
  {
    hide ReadFrom, Fold, CodeBits, Concat;
    MarkIsSix();
    var s := Reverse(bits);
    assert Mark() + Concat(ss) + rest == Mark() + (Concat(ss) + rest);
    var t := Concat(ss) + rest;
    assert Left(s, 6) == Mark() && s[6..] == t;
    FirstWord(ss, rest);
    ReadsTokens(ss, rest, NoSelector, Empty());
  }

  lemma FirstWord(ss: seq<Symbol>, rest: seq<int>)
    requires Coded(ss) && ss != [] && ss[0] in {Rev, File, Repo, Site}
    ensures Left(Concat(ss) + rest, 6) != Mark()
  {
    hide Bits;
    var w := CodeBits(ss[0]);
    Pow67();
    BitsValue(6, 40);
    BitsValue(6, Code(ss[0]).value.n);
    assert Concat(ss) == w + Concat(ss[1..]);
    assert Left(Concat(ss) + rest, 6) == w;
  }

  // ---- the bits that come back

  lemma PlainBits(selectors: seq<int>)
    requires Digits(2, selectors)
    ensures var bits := NoZeros(Layout(selectors, []));
      Digits(2, bits) && bits == if Trail(selectors) == [] then [] else Trail(selectors) + [0, 0]
  {
    hide CodeBits;
    AppendixIs([]);
    var r := Reverse(selectors);
    assert Reverse<int>([]) == [] && r + [0, 0] + [] == r + [0, 0];
    NoZerosConcat(r, [0, 0]);
    NoZerosStarts([0, 0]);
    NoZerosDigits(r + [0, 0]);
  }

  lemma PlainRead(bits: seq<int>, n: seq<int>)
    requires Digits(2, bits) && (bits == [] || bits == n + [0, 0])
    ensures Process(bits) == if bits == [] then Meta(0, map[], 120) else Meta(0, Empty(), 0)
  {
    hide CodeBits, ReadFrom, Mark;
    if bits != [] {
      MarkIsSix();
      assert Left(Reverse(bits), 6)[0] == 0;
    }
  }

  lemma PlainLayout(selectors: seq<int>)
    requires Digits(2, selectors)
    ensures var bits := NoZeros(Layout(selectors, []));
      Digits(2, bits) && DropLast(DropLast(bits, Process(bits).skip), 2) == Trail(selectors)
  {
    hide Process, Layout, NoZeros;
    PlainBits(selectors);
    var n, bits := Trail(selectors), NoZeros(Layout(selectors, []));
    PlainRead(bits, n);
    if bits != [] {
      assert bits[..|bits|] == bits && bits[..|bits| - 2] == n;
    }
  }

  lemma {:induction false} NoZerosDigits(s: seq<int>)
    requires Digits(2, s)
    ensures Digits(2, NoZeros(s))
  {
    if s != [] && s[0] == 0 {
      NoZerosDigits(s[1..]);
    }
  }

  // With meta-data that does not end in W, and a selector that is set, all comes back.
  lemma GoodLayout(selectors: seq<int>, ss: seq<Symbol>)
    requires Digits(2, selectors) && IsMeta(ss) && ss != [] && !EndsInW(ss) && 1 in selectors
    ensures var bits := NoZeros(Layout(selectors, ss));
      && Digits(2, bits) && Process(bits).fields == Fold(ss, NoSelector, Empty()).1
      && DropLast(DropLast(bits, Process(bits).skip), 2) == Trail(selectors)
  {
    hide CodeBits, Concat, Fold, NoZeros, Process, ReadFrom;
    var n, a := Trail(selectors), Appendix(ss);
    TrailEmpty(selectors);
    LayoutBinary(selectors, ss);
    NoZerosDigits(Layout(selectors, ss));
    NoZerosConcat(Reverse(selectors), [0, 0] + Reverse(a));
    assert Reverse(selectors) + [0, 0] + Reverse(a) == Reverse(selectors) + ([0, 0] + Reverse(a));
    var bits := n + ([0, 0] + Reverse(a));
    assert bits == NoZeros(Layout(selectors, ss));
    AppendixIs(ss);
    Turned(n, a);
    var tail := [0, 0] + Reverse(n);
    assert Mark() + Concat(ss) + Mark() + tail == Mark() + Concat(ss) + (Mark() + tail);
    ProcessReads(bits, ss, Mark() + tail);
    var (current, r) := Fold(ss, NoSelector, Empty());
    StopsAtMark(tail, current, r);
    assert Process(bits).skip == |a|;
    assert bits[..|bits| - |a|] == n + [0, 0];
    assert (n + [0, 0])[..|n|] == n;
  }

  lemma Turned(n: seq<int>, a: seq<int>)
    ensures Reverse(n + ([0, 0] + Reverse(a))) == a + ([0, 0] + Reverse(n))
  {
  }

  lemma StopsAtMark(tail: seq<int>, current: Symbol, r: Record)
    ensures ReadFrom(Mark() + tail, current, r) == (Some(|tail|), r)
  {
    hide CodeBits;
    MarkIsSix();
    ReadsBack(Ss, tail);
  }

  // Without a selector that is set, the zeros of the end mark are lost.
  lemma LeadingLost(selectors: seq<int>, ss: seq<Symbol>)
    requires Digits(2, selectors) && Coded(ss) && 1 !in selectors
    ensures NoZeros(Layout(selectors, ss)) == NoZeros(Reverse(Appendix(ss)))
  {
    hide CodeBits, Concat, Appendix;
    var r := Reverse(Appendix(ss));
    TrailEmpty(selectors);
    NoZerosConcat(Reverse(selectors), [0, 0] + r);
    assert Reverse(selectors) + [0, 0] + r == Reverse(selectors) + ([0, 0] + r);
    assert ([0, 0] + r)[1..] == [0] + r && ([0] + r)[1..] == r;
  }

  // What is left then begins with a one that belongs to the appendix.
  lemma MarkCutOff(front: seq<int>)
    ensures NoZeros(Reverse(front + Mark())) == [1, 0, 1] + Reverse(front)
    ensures NoZeros(Reverse(front + [1])) == [1] + Reverse(front)
    ensures Reverse([1, 0, 1] + Reverse(front)) == front + [1, 0, 1] && Reverse([1] + Reverse(front)) == front + [1]
  {
    MarkIsSix();
    hide CodeBits;
    var r := Reverse(front);
    assert Reverse(front + [1]) == [1] + r;
    assert Reverse(front + [1, 0, 1, 0, 0, 0]) == [0, 0, 0] + ([1, 0, 1] + r);
    NoZerosConcat([0, 0, 0], [1, 0, 1] + r);
    NoZerosStarts([0, 0, 0]);
  }

  lemma EmptyLayout(selectors: seq<int>, ss: seq<Symbol>)
    requires Digits(2, selectors) && IsMeta(ss) && ss != [] && 1 !in selectors
    ensures var bits := NoZeros(Layout(selectors, ss));
      Digits(2, bits) && NoZeros(DropLast(DropLast(bits, Process(bits).skip), 2)) != []
  {
    hide CodeBits, Concat, Fold, Process, ReadFrom, Layout, Appendix, Reverse, NoZeros, DropLast;
    LayoutBinary(selectors, ss);
    NoZerosDigits(Layout(selectors, ss));
    LeadingLost(selectors, ss);
    AppendixIs(ss);
    var words := if EndsInW(ss) then ss[..|ss| - 1] else ss;
    var last := if EndsInW(ss) then [1] else [1, 0, 1];
    var front := Mark() + Concat(words);
    MarkCutOff(front);
    MarkIsSix();
    var bits := NoZeros(Layout(selectors, ss));
    ProcessReads(bits, words, last);
    TooShort(last, Fold(words, NoSelector, Empty()).0, Fold(words, NoSelector, Empty()).1);
    assert |bits| == |last| + |front|;
    var b := Remaining(bits, 0);
    NoZerosAre(b);
  }

  // What is left of the bits once some have been skipped and the version been dropped.
  lemma Remaining(bits: seq<int>, k: nat) returns (b: seq<int>)
    requires k <= |bits|
    ensures b == DropLast(DropLast(bits, k), 2) && b <= bits
    ensures |b| == if |bits| - k < 2 then |bits| - k else |bits| - k - 2
    ensures b != [] ==> b[0] == bits[0]
  {
    b := DropLast(DropLast(bits, k), 2);
  }

  lemma TooShort(s: seq<int>, current: Symbol, r: Record)
    requires Digits(2, s) && |s| < 6
    ensures ReadFrom(s, current, r) == (None, r)
  {
    FailsOnlyShort(s);
  }

  // Meta-data that ends in W does not come back.
  lemma BadLayout(selectors: seq<int>, ss: seq<Symbol>)
    requires Digits(2, selectors) && IsMeta(ss) && EndsInW(ss) && 1 in selectors
    ensures var bits := NoZeros(Layout(selectors, ss));
      Digits(2, bits) && NoZeros(DropLast(DropLast(bits, Process(bits).skip), 2)) != Trail(selectors)
  {
    hide CodeBits, Concat, Fold, NoZeros, Process, ReadFrom;
    var n, a := Trail(selectors), Appendix(ss);
    TrailEmpty(selectors);
    LayoutBinary(selectors, ss);
    NoZerosDigits(Layout(selectors, ss));
    NoZerosConcat(Reverse(selectors), [0, 0] + Reverse(a));
    assert Reverse(selectors) + [0, 0] + Reverse(a) == Reverse(selectors) + ([0, 0] + Reverse(a));
    var bits := n + ([0, 0] + Reverse(a));
    assert bits == NoZeros(Layout(selectors, ss));
    AppendixIs(ss);
    MarkIsSix();
    Turned(n, a);
    var words := ss[..|ss| - 1];
    var rest := [1] + ([0, 0] + Reverse(n));
    assert Mark() + Concat(words) + [1] + ([0, 0] + Reverse(n)) == Mark() + Concat(words) + rest;
    ProcessReads(bits, words, rest);
    var k := Process(bits).skip;
    assert k == 0 || k >= |bits| - |rest| + 6;
    assert |a| == |bits| - |rest| + 1;
    NoZerosStarts(Reverse(selectors));
    hide DropLast;
    var b := Remaining(bits, k);
    assert |b| != |n|;
    if b != [] {
      assert b[0] == bits[0] == n[0] != 0;
      NoZerosAre(b);
    } else {
      NoZerosStarts(b);
    }
  }

  lemma NoZerosAre(s: seq<int>)
    requires s != [] && s[0] != 0
    ensures NoZeros(s) == s
  {
  }

  // ---- the theorem

  lemma TokensAreMeta(rev: string, file: string, repo: string, site: int)
    requires 1 <= site <= 3
    ensures IsMeta(Tokens(rev, file, repo, site))
  {
    hide Code, LetterCode, Kept;
    TokensCoded(rev, file, repo, site);
    PartIsMeta(Rev, rev);
    PartIsMeta(File, file);
    PartIsMeta(Repo, repo);
    PartIsMeta(Site, SiteDigit(site));
  }

  lemma PartIsMeta(key: Symbol, data: string)
    requires key in {Rev, File, Repo, Site}
    ensures var p := Part(key, data); Ss !in p && (p == [] || (|p| >= 2 && p[0] == key && p[|p| - 1].Letter?))
  {
    hide Kept;
  }

  ghost predicate ComesBack(selectors: seq<int>, rev: string, file: string, repo: string, site: int)
    requires Digits(2, selectors) && Coded(Tokens(rev, file, repo, site))
  {
    var z := ZcodeOf(selectors, Tokens(rev, file, repo, site));
    && AllLetters(z)
    && var r := Understood(Decoded(z));
      && Trail(r.selectors) == Trail(selectors)
      && r.rev == Kept(rev) && r.file == Kept(file) && r.repo == Kept(repo) && r.site == site
  }

  // A Zcode gives back the selectors, up to zeros at their end, and the meta-data, exactly
  // if there is no meta-data, or if some selector is set and the meta-data does not end in W.
  lemma ComesBackIff(selectors: seq<int>, rev: string, file: string, repo: string, site: int)
    requires Digits(2, selectors) && 1 <= site <= 3
    ensures Coded(Tokens(rev, file, repo, site))
    ensures var ss := Tokens(rev, file, repo, site);
      ComesBack(selectors, rev, file, repo, site) <==> ss == [] || (1 in selectors && !EndsInW(ss))
  {
    hide Tokens, Layout, Process, Fold, Kept, Part, Code, Trail, NoZeros;
    var ss := Tokens(rev, file, repo, site);
    TokensAreMeta(rev, file, repo, site);
    FoldTokens(rev, file, repo, site);
    LayoutBinary(selectors, ss);
    DecodeEncode(Layout(selectors, ss));
    var bits := NoZeros(Layout(selectors, ss));
    var b := DropLast(DropLast(bits, Process(bits).skip), 2);
    TrailOf(b);
    TrailTwice(selectors);
    if ss == [] {
      PlainLayout(selectors);
      NothingKept(rev, file, repo, site);
      NothingRead(selectors);
    } else if 1 !in selectors {
      EmptyLayout(selectors, ss);
      TrailEmpty(selectors);
    } else if EndsInW(ss) {
      BadLayout(selectors, ss);
    } else {
      GoodLayout(selectors, ss);
    }
  }

  lemma TrailOf(b: seq<int>)
    ensures Trail(Reverse(b)) == NoZeros(b)
  {
    ReverseTwice(b);
  }

  lemma TrailTwice(selectors: seq<int>)
    ensures NoZeros(Trail(selectors)) == Trail(selectors)
  {
    NoZerosStarts(Reverse(selectors));
  }

  lemma NothingKept(rev: string, file: string, repo: string, site: int)
    requires Tokens(rev, file, repo, site) == [] && 1 <= site <= 3
    ensures Kept(rev) == [] && Kept(file) == [] && Kept(repo) == [] && site == 1
  {
    hide Kept;
    if site != 1 {
      SiteIsKnown(site);
    }
  }

  // Without meta-data nothing is read as such.
  lemma NothingRead(selectors: seq<int>)
    requires Digits(2, selectors)
    ensures var f := Process(NoZeros(Layout(selectors, []))).fields;
      Field(f, Rev) == [] && Field(f, File) == [] && Field(f, Repo) == [] && SiteIndex(Field(f, Site)) == 1
  {
    hide Process, Layout, NoZeros;
    PlainBits(selectors);
    PlainRead(NoZeros(Layout(selectors, [])), Trail(selectors));
  }

  // Where two marks stand in a row, as they would around no meta-data, one of them is taken
  // for the selectors.
  lemma TwoMarks(bits: seq<int>, rest: seq<int>)
    requires Digits(2, bits) && Reverse(bits) == [1, 0, 1, 0, 0, 0] + [1, 0, 1, 0, 0, 0] + rest
    ensures Understood(bits) == Reading([1, 0, 0, 0] + rest, "", "", "", 1)
  {
    hide CodeBits, ReadFrom, Mark;
    MarkIsSix();
    var s := Reverse(bits);
    assert Left(s, 6) == Mark() && Left(s[6..], 6) == Mark();
    var b := DropLast(DropLast(bits, 6), 2);
    assert Reverse(b) == s[8..] == [1, 0, 0, 0] + rest;
  }

  // ---- the same in terms of what the user typed

  predicate Writable(s: string) {
    && (s != [] ==> !IsSpace(s[0]) && !IsSpace(s[|s| - 1]))
    && forall i :: 0 <= i < |s| ==> LetterCode(s[i]).Some?
  }

  // The text s with spaces around it.
  ghost predicate Padded(typed: string, s: string) {
    exists a, b :: Spaces(a) && Spaces(b) && typed == a + s + b
  }

  lemma KeptOfPadded(typed: string, s: string)
    requires Padded(typed, s) && Writable(s)
    ensures Kept(typed) == s && Unknown(Trimmed(typed)) == []
  {
    hide IsSpace, LetterCode;
    var a, b :| Spaces(a) && Spaces(b) && typed == a + s + b;
    KeptPadded(a, s, b);
    var i, j := TrimmedIs(s);
    SpacesAt(s, i, j);
    assert s == [] || Trimmed(s) == s[0..|s|];
    KnownSame(s);
  }

  // The fields come back without the spaces around them, exactly if there is nothing in
  // them, or if some selector is set and the last of them does not end in W.
  lemma TypedComesBackIff(selectors: seq<int>, rev: string, file: string, repo: string, site: int, r: string, f: string, p: string)
    requires Digits(2, selectors) && 1 <= site <= 3
    requires Padded(rev, r) && Padded(file, f) && Padded(repo, p) && Writable(r) && Writable(f) && Writable(p)
    ensures Coded(Tokens(rev, file, repo, site)) && AllLetters(ZcodeOf(selectors, Tokens(rev, file, repo, site)))
    ensures var back := Understood(Decoded(ZcodeOf(selectors, Tokens(rev, file, repo, site))));
      var text := r + f + p;
      Trail(back.selectors) == Trail(selectors) && back.rev == r && back.file == f && back.repo == p && back.site == site
      <==> if site == 1 then text == [] || (1 in selectors && text[|text| - 1] != 'W') else 1 in selectors
  {
    hide Tokens, Padded, Writable, Kept, Layout, Understood, Trail;
    KeptOfPadded(rev, r);
    KeptOfPadded(file, f);
    KeptOfPadded(repo, p);
    TokensAreMeta(rev, file, repo, site);
    ComesBackIff(selectors, rev, file, repo, site);
    LastToken(rev, file, repo, site);
    LayoutBinary(selectors, Tokens(rev, file, repo, site));
    DecodeEncode(Layout(selectors, Tokens(rev, file, repo, site)));
  }

  lemma LastToken(rev: string, file: string, repo: string, site: int)
    requires 1 <= site <= 3
    ensures var ss, text := Tokens(rev, file, repo, site), Kept(rev) + Kept(file) + Kept(repo);
      if site == 1 then (ss == [] <==> text == []) && (ss != [] ==> ss[|ss| - 1] == Letter(text[|text| - 1]))
      else ss != [] && !EndsInW(ss)
  {
    hide Kept;
    TokensAre(rev, file, repo, site);
  }

  // ---- the number that a Zcode is

  // What stands between the marks: the parts in this order, each behind its selector.
  lemma TokensAre(rev: string, file: string, repo: string, site: int)
    requires 1 <= site <= 3
    ensures Tokens(rev, file, repo, site) ==
      (if Kept(rev) == [] then [] else [Rev] + Chars(Kept(rev)))
      + (if Kept(file) == [] then [] else [File] + Chars(Kept(file)))
      + (if Kept(repo) == [] then [] else [Repo] + Chars(Kept(repo)))
      + (if site == 1 then [] else [Site, Letter(if site == 2 then '2' else '3')])
  {
    hide Kept;
    if site != 1 {
      SiteIsKnown(site);
      assert Chars(SiteDigit(site)) == [Letter(SiteDigit(site)[0])];
    }
  }

  // The letters are the digits of a number, none too many, whose bits are the selectors from
  // the last to the first, two zeros, and the words between two marks from the end to the
  // start. Of words that end in W and of the end mark only a one is left.
  lemma ZcodeIsNumber(selectors: seq<int>, rev: string, file: string, repo: string, site: int)
    requires Digits(2, selectors) && 1 <= site <= 3
    ensures Coded(Tokens(rev, file, repo, site))
    ensures var ss, z := Tokens(rev, file, repo, site), ZcodeOf(selectors, Tokens(rev, file, repo, site));
      var mark := [1, 0, 1, 0, 0, 0];
      var meta := if ss == [] then []
        else if ss[|ss| - 1] == Letter('W') then mark + Concat(ss[..|ss| - 1]) + [1]
        else mark + Concat(ss) + mark;
      && AllLetters(z) && (z != [] ==> z[0] != '0')
      && Value(36, Numbers(z)) == Value(2, Reverse(selectors) + [0, 0] + Reverse(meta))
  {
    hide Tokens, CodeBits, Concat, Reverse, Encoded, Numbers, Value;
    var ss := Tokens(rev, file, repo, site);
    TokensAreMeta(rev, file, repo, site);
    LayoutBinary(selectors, ss);
    AppendixIs(ss);
    MarkIsSix();
    EncodedIs(Layout(selectors, ss));
  }
}
