// The variable-length code of manager/coding_functions.cpp: 50 words of six bits and 28 of
// seven for selectors and characters.
module ZcodeCode {
  import opened Options
  import opened ZcodeMath

  // The keys of the tables: the start and stop mark, the selectors of the meta-data, and
  // characters. NoSelector is what characters belong to before any selector.
  datatype Symbol =
    | Ss | File | Rev | Repo | WordRev | ChkSum | Site | Unused1 | Unused2 | Unused3 | NoSelector
    | Letter(c: char)

  // A code word: its length, and the number that its bits stand for.
  datatype Word = Width6(n: nat) | Width7(n: nat)

  // create_codes_map
  function Code(s: Symbol): Option<Word> {
    match s
    case Ss => Some(Width6(40))
    case File => Some(Width6(39))
    case Rev => Some(Width6(46))
    case Repo => Some(Width6(47))
    case WordRev => Some(Width6(44))
    case ChkSum => Some(Width6(45))
    case Site => Some(Width6(34))
    case Unused1 => Some(Width6(35))
    case Unused2 => Some(Width6(32))
    case Unused3 => Some(Width7(102))
    case NoSelector => None
    case Letter(c) => LetterCode(c)
  }

  function LetterCode(c: char): Option<Word> {
    if c == ' ' || 'A' <= c <= 'Z' then LongLetter(c) else ShortLetter(c)
  }

  function ShortLetter(c: char): Option<Word> {
    match c
    case 'b' => Some(Width6(49))
    case 'a' => Some(Width6(48))
    case '9' => Some(Width6(43))
    case '8' => Some(Width6(42))
    case '.' => Some(Width6(41))
    case '/' => Some(Width6(38))
    case '_' => Some(Width6(37))
    case '-' => Some(Width6(36))
    case '~' => Some(Width6(33))
    case 'x' => Some(Width6(31))
    case 'w' => Some(Width6(30))
    case 'z' => Some(Width6(29))
    case 'y' => Some(Width6(28))
    case 't' => Some(Width6(27))
    case 's' => Some(Width6(26))
    case 'v' => Some(Width6(25))
    case 'u' => Some(Width6(24))
    case '5' => Some(Width6(23))
    case '4' => Some(Width6(22))
    case '7' => Some(Width6(21))
    case '6' => Some(Width6(20))
    case '1' => Some(Width6(19))
    case '0' => Some(Width6(18))
    case '3' => Some(Width6(17))
    case '2' => Some(Width6(16))
    case 'h' => Some(Width6(15))
    case 'g' => Some(Width6(14))
    case 'j' => Some(Width6(13))
    case 'i' => Some(Width6(12))
    case 'd' => Some(Width6(11))
    case 'c' => Some(Width6(10))
    case 'f' => Some(Width6(9))
    case 'e' => Some(Width6(8))
    case 'p' => Some(Width6(7))
    case 'o' => Some(Width6(6))
    case 'r' => Some(Width6(5))
    case 'q' => Some(Width6(4))
    case 'l' => Some(Width6(3))
    case 'k' => Some(Width6(2))
    case 'n' => Some(Width6(1))
    case 'm' => Some(Width6(0))
    case _ => None
  }

  function LongLetter(c: char): Option<Word> {
    match c
    case 'J' => Some(Width7(127))
    case 'I' => Some(Width7(126))
    case 'L' => Some(Width7(125))
    case 'K' => Some(Width7(124))
    case 'F' => Some(Width7(123))
    case 'E' => Some(Width7(122))
    case 'H' => Some(Width7(121))
    case 'G' => Some(Width7(120))
    case 'R' => Some(Width7(119))
    case 'Q' => Some(Width7(118))
    case 'T' => Some(Width7(117))
    case 'S' => Some(Width7(116))
    case 'N' => Some(Width7(115))
    case 'M' => Some(Width7(114))
    case 'P' => Some(Width7(113))
    case 'O' => Some(Width7(112))
    case 'Z' => Some(Width7(111))
    case 'Y' => Some(Width7(110))
    case ' ' => Some(Width7(109))
    case 'A' => Some(Width7(108))
    case 'V' => Some(Width7(107))
    case 'U' => Some(Width7(106))
    case 'X' => Some(Width7(105))
    case 'W' => Some(Width7(104))
    case 'B' => Some(Width7(103))
    case 'D' => Some(Width7(101))
    case 'C' => Some(Width7(100))
    case _ => None
  }

  // create_rcodes_map
  function Meaning6(n: int): Option<Symbol> {
    match n
    case 0 => Some(Letter('m'))
    case 1 => Some(Letter('n'))
    case 2 => Some(Letter('k'))
    case 3 => Some(Letter('l'))
    case 4 => Some(Letter('q'))
    case 5 => Some(Letter('r'))
    case 6 => Some(Letter('o'))
    case 7 => Some(Letter('p'))
    case 8 => Some(Letter('e'))
    case 9 => Some(Letter('f'))
    case 10 => Some(Letter('c'))
    case 11 => Some(Letter('d'))
    case 12 => Some(Letter('i'))
    case 13 => Some(Letter('j'))
    case 14 => Some(Letter('g'))
    case 15 => Some(Letter('h'))
    case 16 => Some(Letter('2'))
    case 17 => Some(Letter('3'))
    case 18 => Some(Letter('0'))
    case 19 => Some(Letter('1'))
    case 20 => Some(Letter('6'))
    case 21 => Some(Letter('7'))
    case 22 => Some(Letter('4'))
    case 23 => Some(Letter('5'))
    case 24 => Some(Letter('u'))
    case 25 => Some(Letter('v'))
    case 26 => Some(Letter('s'))
    case 27 => Some(Letter('t'))
    case 28 => Some(Letter('y'))
    case 29 => Some(Letter('z'))
    case 30 => Some(Letter('w'))
    case 31 => Some(Letter('x'))
    case 32 => Some(Unused2)
    case 33 => Some(Letter('~'))
    case 34 => Some(Site)
    case 35 => Some(Unused1)
    case 36 => Some(Letter('-'))
    case 37 => Some(Letter('_'))
    case 38 => Some(Letter('/'))
    case 39 => Some(File)
    case 40 => Some(Ss)
    case 41 => Some(Letter('.'))
    case 42 => Some(Letter('8'))
    case 43 => Some(Letter('9'))
    case 44 => Some(WordRev)
    case 45 => Some(ChkSum)
    case 46 => Some(Rev)
    case 47 => Some(Repo)
    case 48 => Some(Letter('a'))
    case 49 => Some(Letter('b'))
    case _ => None
  }

  function Meaning7(n: int): Option<Symbol> {
    match n
    case 100 => Some(Letter('C'))
    case 101 => Some(Letter('D'))
    case 102 => Some(Unused3)
    case 103 => Some(Letter('B'))
    case 104 => Some(Letter('W'))
    case 105 => Some(Letter('X'))
    case 106 => Some(Letter('U'))
    case 107 => Some(Letter('V'))
    case 108 => Some(Letter('A'))
    case 109 => Some(Letter(' '))
    case 110 => Some(Letter('Y'))
    case 111 => Some(Letter('Z'))
    case 112 => Some(Letter('O'))
    case 113 => Some(Letter('P'))
    case 114 => Some(Letter('M'))
    case 115 => Some(Letter('N'))
    case 116 => Some(Letter('S'))
    case 117 => Some(Letter('T'))
    case 118 => Some(Letter('Q'))
    case 119 => Some(Letter('R'))
    case 120 => Some(Letter('G'))
    case 121 => Some(Letter('H'))
    case 122 => Some(Letter('E'))
    case 123 => Some(Letter('F'))
    case 124 => Some(Letter('K'))
    case 125 => Some(Letter('L'))
    case 126 => Some(Letter('I'))
    case 127 => Some(Letter('J'))
    case _ => None
  }

  function Meaning(w: Word): Option<Symbol> {
    match w
    case Width6(n) => Meaning6(n)
    case Width7(n) => Meaning7(n)
  }

  // ---- the tables fit together

  lemma CodeOfMeaning6(n: int)
    ensures match Meaning6(n)
      case None => !(0 <= n < 50)
      case Some(s) => 0 <= n < 50 && Code(s) == Some(Width6(n))
  {
    hide LongLetter;
    if n < 16 {
    } else if n < 32 {
    } else {
    }
  }

  lemma CodeOfMeaning7(n: int)
    ensures match Meaning7(n)
      case None => !(100 <= n < 128)
      case Some(s) => 100 <= n < 128 && Code(s) == Some(Width7(n))
  {
    hide ShortLetter;
  }

  // All words at a glance: six bits from 0 on, seven bits from 100 on. A star stands for a
  // word that is not a character's.
  const Short := "mnklqropef" + "cdijgh2301" + "6745uvstyz" + "wx*~**-_/*" + "*.89****ab"
  const Long := "CD*BWXUVA " + "YZOPMNSTQR" + "GHEFKLIJ"

  lemma MeaningOfLetter(c: char)
    ensures LetterCode(c).Some? ==> Meaning(LetterCode(c).value) == Some(Letter(c))
  {
    if c == ' ' || 'A' <= c <= 'Z' {
      MeaningOfLong(c);
    } else {
      MeaningOfShort(c);
    }
  }

  lemma MeaningOfLong(c: char)
    ensures match LongLetter(c)
      case None => true
      case Some(w) => w.Width7? && Meaning7(w.n) == Some(Letter(c))
  {
  }

  lemma MeaningOfShort(c: char)
    ensures match ShortLetter(c)
      case None => true
      case Some(w) => w.Width6? && Meaning6(w.n) == Some(Letter(c))
  {
  }

  lemma Words6(n: nat)
    requires n < |Short|
    ensures if Short[n] == '*' then Meaning6(n).Some? && !Meaning6(n).value.Letter? else Meaning6(n) == Some(Letter(Short[n]))
  {
  }

  lemma Words7(n: nat)
    requires n < |Long|
    ensures if Long[n] == '*' then Meaning7(100 + n) == Some(Unused3) else Meaning7(100 + n) == Some(Letter(Long[n]))
  {
  }

  lemma WordsAre(c: char, n: nat)
    ensures LetterCode(c) == Some(Width6(n)) <==> n < |Short| && Short[n] == c != '*'
    ensures LetterCode(c) == Some(Width7(n)) <==> 100 <= n < 100 + |Long| && Long[n - 100] == c != '*'
  {
    hide LetterCode, Meaning6, Meaning7;
    MeaningOfLetter(c);
    CodeOfMeaning6(n);
    CodeOfMeaning7(n);
    LetterIs(c);
    assert |Short| == 50 && |Long| == 28;
    if n < |Short| {
      Words6(n);
    }
    if 100 <= n < 100 + |Long| {
      Words7(n - 100);
    }
  }

  lemma LetterIs(c: char)
    ensures Code(Letter(c)) == LetterCode(c)
  {
    hide LetterCode;
  }

  lemma MeaningOfCode(s: Symbol)
    ensures Code(s).Some? ==> Meaning(Code(s).value) == Some(s)
  {
    hide LetterCode;
    if s.Letter? {
      MeaningOfLetter(s.c);
    }
  }

  // ---- bits

  // The bits of a number, so many of them.
  function Bits(width: nat, n: nat): (s: seq<int>)
    ensures |s| == width && Digits(2, s)
  {
    if width == 0 then [] else Bits(width - 1, n / 2) + [n % 2]
  }

  function WordBits(w: Word): seq<int> {
    match w
    case Width6(n) => Bits(6, n)
    case Width7(n) => Bits(7, n)
  }

  lemma {:induction false} BitsValue(width: nat, n: nat)
    requires n < Pow2(width)
    ensures Value(2, Bits(width, n)) == n
  {
    if width > 0 {
      BitsValue(width - 1, n / 2);
      ValueAppend(2, Bits(width - 1, n / 2), n % 2);
    }
  }

  lemma {:induction false} BitsAre(s: seq<int>)
    requires Digits(2, s)
    ensures 0 <= Value(2, s) < Pow2(|s|) && Bits(|s|, Value(2, s)) == s
  {
    ValueBound(s);
    if s != [] {
      var t, d := s[..|s| - 1], s[|s| - 1];
      BitsAre(t);
      assert s == t + [d];
    }
  }

  function CodeBits(s: Symbol): seq<int>
    requires Code(s).Some?
  {
    WordBits(Code(s).value)
  }

  // rcodes on a string of bits; no word is of any other length.
  function Lookup(s: seq<int>): Option<Symbol> {
    if |s| == 6 then Meaning6(Value(2, s)) else if |s| == 7 then Meaning7(Value(2, s)) else None
  }

  function Left(s: seq<int>, n: nat): seq<int> {
    if |s| < n then s else s[..n]
  }

  // The loop over trylen in process_meta_data: six bits are tried first, then seven.
  function ReadSymbol(s: seq<int>): (r: Option<(Symbol, nat)>)
    ensures r.Some? ==> 6 <= r.value.1 <= |s|
  {
    LeftShort(s);
    if Lookup(Left(s, 6)).Some? then Some((Lookup(Left(s, 6)).value, 6))
    else if Lookup(Left(s, 7)).Some? then Some((Lookup(Left(s, 7)).value, 7))
    else None
  }

  lemma Pow67()
    ensures Pow2(6) == 64 && Pow2(7) == 128
  {
    assert Pow2(3) == 8;
  }

  lemma FirstSix(n: nat)
    ensures Bits(7, n)[..6] == Bits(6, n / 2)
  {
  }

  // A code word is read as its symbol, whatever comes behind it.
  lemma ReadsBack(s: Symbol, rest: seq<int>)
    requires Code(s).Some?
    ensures ReadSymbol(CodeBits(s) + rest) == Some((s, |CodeBits(s)|))
  {
    hide Code, Meaning6, Meaning7, Bits;
    Pow67();
    MeaningOfCode(s);
    var t := CodeBits(s) + rest;
    match Code(s).value {
      case Width6(n) =>
        CodeOfMeaning6(n);
        BitsValue(6, n);
        assert Left(t, 6) == Bits(6, n);
      case Width7(n) =>
        CodeOfMeaning7(n);
        BitsValue(7, n);
        BitsValue(6, n / 2);
        FirstSix(n);
        CodeOfMeaning6(n / 2);
        assert Left(t, 7) == Bits(7, n);
        assert Left(t, 6) == Bits(7, n)[..6];
    }
  }

  lemma LeftShort(t: seq<int>)
    ensures |t| <= 6 ==> Left(t, 7) == Left(t, 6)
  {
  }

  // What is read is a code word that the bits begin with, so that no other one fits.
  lemma ReadIsWord(t: seq<int>)
    requires Digits(2, t) && ReadSymbol(t).Some?
    ensures var (s, n) := ReadSymbol(t).value;
      Code(s).Some? && n == |CodeBits(s)| && n <= |t| && t[..n] == CodeBits(s)
  {
    hide Code, Meaning6, Meaning7, Bits;
    if Lookup(Left(t, 6)).Some? {
      CodeOfMeaning6(Value(2, Left(t, 6)));
      BitsAre(Left(t, 6));
    } else {
      LeftShort(t);
      CodeOfMeaning7(Value(2, Left(t, 7)));
      BitsAre(Left(t, 7));
    }
  }

  // Error 121 arises only where too few bits are left: fewer than six, or six that begin
  // a word of seven.
  lemma FailsOnlyShort(t: seq<int>)
    requires Digits(2, t)
    ensures ReadSymbol(t).None? <==> |t| < 6 || (|t| == 6 && Value(2, t) >= 50)
  {
    hide Code, Meaning6, Meaning7;
    if |t| >= 6 {
      var a := Left(t, 6);
      BitsAre(a);
      CodeOfMeaning6(Value(2, a));
      if |t| >= 7 {
        var b := Left(t, 7);
        assert b == a + [b[6]];
        ValueAppend(2, a, b[6]);
        ValueBound(b);
        Pow67();
        CodeOfMeaning7(Value(2, b));
      } else {
        assert Left(t, 7) == a == t;
      }
    }
  }

  // The words of the selectors that are written.
  lemma SelectorWords()
    ensures CodeBits(Ss) == [1, 0, 1, 0, 0, 0] && CodeBits(Rev) == [1, 0, 1, 1, 1, 0] && CodeBits(File) == [1, 0, 0, 1, 1, 1]
    ensures CodeBits(Repo) == [1, 0, 1, 1, 1, 1] && CodeBits(Site) == [1, 0, 0, 0, 1, 0]
  {
    hide Bits;
    SixBits([1, 0, 1, 0, 0, 0]);
    SixBits([1, 0, 1, 1, 1, 0]);
    SixBits([1, 0, 0, 1, 1, 1]);
    SixBits([1, 0, 1, 1, 1, 1]);
    SixBits([1, 0, 0, 0, 1, 0]);
  }

  lemma SixBits(s: seq<int>)
    requires |s| == 6 && Digits(2, s)
    ensures Bits(6, 32 * s[0] + 16 * s[1] + 8 * s[2] + 4 * s[3] + 2 * s[4] + s[5]) == s
  {
    BitsAre(s);
    ValueStep(2, s, 0);
    ValueStep(2, s, 1);
    ValueStep(2, s, 2);
    ValueStep(2, s, 3);
    ValueStep(2, s, 4);
    ValueStep(2, s, 5);
    assert s[..6] == s;
  }

  // ---- texts of symbols

  ghost predicate Coded(ss: seq<Symbol>) {
    forall i :: 0 <= i < |ss| ==> Code(ss[i]).Some?
  }

  function Concat(ss: seq<Symbol>): (r: seq<int>)
    requires Coded(ss)
  {
    if ss == [] then [] else CodeBits(ss[0]) + Concat(ss[1..])
  }

  lemma {:induction false} ConcatAppend(a: seq<Symbol>, b: seq<Symbol>)
    requires Coded(a) && Coded(b)
    ensures Coded(a + b) && Concat(a + b) == Concat(a) + Concat(b)
  {
    if a == [] {
      assert a + b == b;
    } else {
      assert (a + b)[1..] == a[1..] + b;
      ConcatAppend(a[1..], b);
    }
  }

  lemma {:induction false} ConcatBinary(ss: seq<Symbol>)
    requires Coded(ss)
    ensures Digits(2, Concat(ss))
  {
    if ss != [] {
      ConcatBinary(ss[1..]);
    }
  }

  lemma ConcatEmpty(ss: seq<Symbol>)
    requires Coded(ss)
    ensures Concat(ss) == [] <==> ss == []
  {
    hide Code, Bits;
    if ss != [] {
      assert |CodeBits(ss[0])| > 0;
    }
  }

  // Two texts with the same bits are the same: the code can be read in one way only.
  lemma {:induction false} UniquelyReadable(a: seq<Symbol>, b: seq<Symbol>)
    requires Coded(a) && Coded(b) && Concat(a) == Concat(b)
    ensures a == b
  {
    hide Code, Bits;
    ConcatEmpty(a);
    ConcatEmpty(b);
    if a != [] {
      ReadsBack(a[0], Concat(a[1..]));
      ReadsBack(b[0], Concat(b[1..]));
      var n := |CodeBits(a[0])|;
      assert Concat(a)[n..] == Concat(a[1..]) && Concat(b)[n..] == Concat(b[1..]);
      UniquelyReadable(a[1..], b[1..]);
    }
  }
}
