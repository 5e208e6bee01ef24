// The meta-data of a Zcode, manager/coding_functions.cpp: revision, file name, repository
// and site as words of the code between two marks, and how they are read back.
module ZcodeMeta {
  import opened Options
  import opened ZcodeMath
  import opened ZcodeCode

  // A string of the characters 0 and 1 is the sequence of its bits here.
  function Mark(): seq<int> {
    CodeBits(Ss)
  }

  // ---- reading

  // The hash that process_meta_data fills.
  type Record = map<Symbol, string>

  function Empty(): Record {
    map[File := "", Rev := "", Repo := "", WordRev := "", ChkSum := "", Site := "", Unused1 := "", Unused2 := "",
        Unused3 := "", NoSelector := ""]
  }

  // A key that is missing reads as an empty text.
  function Field(r: Record, key: Symbol): string {
    if key in r then r[key] else ""
  }

  // rsites
  function SiteName(c: char): string {
    if c == '1' then "gh" else if c == '2' then "bb" else if c == '3' then "gl" else ""
  }

  function Put(r: Record, key: Symbol, c: char): Record {
    r[key := Field(r, key) + if key == Site then SiteName(c) else [c]]
  }

  // The loop of process_meta_data behind the first mark: the record, and how many bits
  // are left behind the second; none if the code breaks off.
  function ReadFrom(s: seq<int>, current: Symbol, r: Record): (result: (Option<nat>, Record))
    ensures result.0.Some? ==> result.0.value + 6 <= |s|
    decreases |s|
  {
    match ReadSymbol(s)
    case None => (None, r)
    case Some((y, n)) =>
      if y == Ss then (Some(|s| - n), r)
      else if y.Letter? then ReadFrom(s[n..], current, Put(r, current, y.c))
      else ReadFrom(s[n..], y, r)
  }

  datatype Meta = Meta(skip: nat, fields: Record, error: int)

  function Process(bits: seq<int>): Meta {
    var s := Reverse(bits);
    if bits == [] || !(forall i :: 0 <= i < |bits| ==> 0 <= bits[i] < 2) then Meta(0, map[], 120)
    else if Left(s, 6) != Mark() then Meta(0, Empty(), 0)
    else if Left(s[6..], 6) == Mark() then Meta(6, Empty(), 0)
    else
      var (left, r) := ReadFrom(s[6..], NoSelector, Empty());
      if left.None? then Meta(0, r, 121) else Meta(|s| - left.value, r, 0)
  }

  // process_meta_data
  method ProcessMetaData(bits: seq<int>) returns (skip: nat, decoded: Record, error: int)
    ensures Meta(skip, decoded, error) == Process(bits)
  {
    hide CodeBits, Lookup;
    var s := Reverse(bits);
    if bits == [] || !(forall i :: 0 <= i < |bits| ==> 0 <= bits[i] < 2) {
      return 0, map[], 120;
    }
    decoded := Empty();
    if Left(s, 6) != Mark() {
      return 0, decoded, 0;
    }
    MarkIsSix();
    s := s[6..];
    if Left(s, 6) == Mark() {
      return 6, decoded, 0;
    }
    ghost var start := s;
    var current := NoSelector;
    while true
      invariant ReadFrom(s, current, decoded) == ReadFrom(start, NoSelector, Empty())
      invariant |s| <= |start|
      decreases |s|
    {
      var word := ReadSymbol(s);
      if word.None? {
        return 0, decoded, 121;
      }
      var (y, n) := word.value;
      s := s[n..];
      if y == Ss {
        break;
      } else if y.Letter? {
        decoded := Put(decoded, current, y.c);
      } else {
        current := y;
      }
    }
    return |bits| - |s|, decoded, 0;
  }

  lemma MarkIsSix()
    ensures |Mark()| == 6 && Mark() == [1, 0, 1, 0, 0, 0]
  {
    SelectorWords();
  }

  // ---- writing

  // QString::trimmed takes these for spaces.
  predicate IsSpace(c: char) {
    '\t' <= c <= '\r' || c == ' ' || c == '\U{85}' || c == '\U{A0}' || c == '\U{1680}' || '\U{2000}' <= c <= '\U{200A}'
    || c == '\U{2028}' || c == '\U{2029}' || c == '\U{202F}' || c == '\U{205F}' || c == '\U{3000}'
  }

  function TrimStart(s: string): string {
    if s != [] && IsSpace(s[0]) then TrimStart(s[1..]) else s
  }

  function TrimEnd(s: string): string {
    if s != [] && IsSpace(s[|s| - 1]) then TrimEnd(s[..|s| - 1]) else s
  }

  function Trimmed(s: string): string {
    TrimEnd(TrimStart(s))
  }

  predicate Spaces(s: string) {
    forall i :: 0 <= i < |s| ==> IsSpace(s[i])
  }

  // A text is spaces, what trimming leaves, and spaces; what is left neither begins nor ends
  // with one.
  lemma TrimmedIs(s: string) returns (i: nat, j: nat)
    ensures i <= j <= |s| && Trimmed(s) == s[i..j] && Spaces(s[..i]) && Spaces(s[j..])
    ensures i < j ==> !IsSpace(s[i]) && !IsSpace(s[j - 1])
  {
    i := StartTrimmed(s);
    var t := s[i..];
    var k := EndTrimmed(t);
    j := i + k;
    assert t[..k] == s[i..j] && t[k..] == s[j..];
    if k > 0 {
      assert t[0] == s[i] && t[k - 1] == s[j - 1];
    }
  }

  lemma {:induction false} StartTrimmed(s: string) returns (i: nat)
    ensures i <= |s| && TrimStart(s) == s[i..] && Spaces(s[..i]) && (i < |s| ==> !IsSpace(s[i]))
  {
    if s != [] && IsSpace(s[0]) {
      var k := StartTrimmed(s[1..]);
      i := k + 1;
      assert s[..i] == [s[0]] + s[1..][..k];
    } else {
      i := 0;
    }
  }

  lemma {:induction false} EndTrimmed(s: string) returns (j: nat)
    ensures j <= |s| && TrimEnd(s) == s[..j] && Spaces(s[j..]) && (j > 0 ==> !IsSpace(s[j - 1]))
    decreases |s|
  {
    if s != [] && IsSpace(s[|s| - 1]) {
      var t := s[..|s| - 1];
      j := EndTrimmed(t);
      assert s[j..] == t[j..] + [s[|s| - 1]] && s[..j] == t[..j];
    } else {
      j := |s|;
    }
  }

  // Spaces around a text make no difference.
  lemma KeptPadded(a: string, s: string, b: string)
    requires Spaces(a) && Spaces(b)
    ensures Trimmed(a + s + b) == Trimmed(s) && Kept(a + s + b) == Kept(s)
  {
    hide IsSpace, Trimmed, Known;
    var t := a + s + b;
    var i, j := TrimmedIs(t);
    var k, l := TrimmedIs(s);
    if k < l {
      assert t[|a| + k] == s[k] && t[|a| + l - 1] == s[l - 1];
      SameEnds(t, i, j, |a| + k, |a| + l) by {
        assert t[..|a| + k] == a + s[..k] && t[|a| + l..] == s[l..] + b;
      }
      assert t[i..j] == s[k..l];
    } else {
      assert s == s[..k] + s[l..];
      assert Spaces(t);
    }
  }

  lemma SameEnds(t: string, i: nat, j: nat, k: nat, l: nat)
    requires i <= j <= |t| && Spaces(t[..i]) && Spaces(t[j..]) && (i < j ==> !IsSpace(t[i]) && !IsSpace(t[j - 1]))
    requires k < l <= |t| && Spaces(t[..k]) && Spaces(t[l..]) && !IsSpace(t[k]) && !IsSpace(t[l - 1])
    ensures i == k && j == l
  {
    SpacesAt(t, i, j);
    SpacesAt(t, k, l);
    hide IsSpace;
  }

  lemma SpacesAt(t: string, i: nat, j: nat)
    requires i <= j <= |t| && Spaces(t[..i]) && Spaces(t[j..])
    ensures forall x :: 0 <= x < i || j <= x < |t| ==> IsSpace(t[x])
  {
    hide IsSpace;
    assert forall x :: 0 <= x < i ==> t[x] == t[..i][x];
    assert forall x :: j <= x < |t| ==> t[x] == t[j..][x - j];
  }

  // The characters that there is a word for, and those that there is none for.
  function Known(s: string): (r: string)
    ensures forall i :: 0 <= i < |r| ==> LetterCode(r[i]).Some?
  {
    if s == [] then [] else (if LetterCode(s[0]).Some? then [s[0]] else []) + Known(s[1..])
  }

  function Unknown(s: string): string {
    if s == [] then [] else (if LetterCode(s[0]).Some? then [] else [s[0]]) + Unknown(s[1..])
  }

  // Every character is kept or reported by itself.
  lemma {:induction false} KnownIs(s: string, c: char)
    ensures Known(s + [c]) == (if LetterCode(c).Some? then Known(s) + [c] else Known(s))
    ensures Unknown(s + [c]) == (if LetterCode(c).Some? then Unknown(s) else Unknown(s) + [c])
  {
    hide LetterCode;
    if s == [] {
      assert [] + [c] == [c] && [c][1..] == [];
    } else {
      KnownIs(s[1..], c);
      assert (s + [c])[1..] == s[1..] + [c];
    }
  }

  // What has words for all its characters is kept as it is.
  lemma {:induction false} KnownSame(s: string)
    requires forall i :: 0 <= i < |s| ==> LetterCode(s[i]).Some?
    ensures Known(s) == s && Unknown(s) == []
  {
    hide LetterCode;
    if s != [] {
      KnownSame(s[1..]);
      assert [s[0]] + s[1..] == s;
    }
  }

  function Chars(s: string): (r: seq<Symbol>)
    ensures |r| == |s| && forall i :: 0 <= i < |s| ==> r[i] == Letter(s[i])
  {
    seq(|s|, i requires 0 <= i < |s| => Letter(s[i]))
  }

  // What is kept of a field.
  function Kept(data: string): string {
    Known(Trimmed(data))
  }

  lemma LettersCoded(s: string)
    ensures Coded(Chars(Known(s)))
  {
    hide LetterCode;
  }

  // BitsForString
  method BitsForString(data: string) returns (bits: seq<int>, error: int, invalid: string)
    ensures Coded(Chars(Kept(data))) && bits == Concat(Chars(Kept(data)))
    ensures invalid == Unknown(Trimmed(data)) && error == 163 * |invalid|
  {
    hide LetterCode, Bits, Coded, Concat, Chars;
    bits, error, invalid := [], 0, [];
    var s := Trimmed(data);
    var i := 0;
    NoLetters();
    ghost var kept: string := [];
    assert s[0..] == s && [] + Known(s) == Known(s) && [] + Unknown(s) == Unknown(s);
    while i < |s|
      invariant i <= |s| && Coded(Chars(kept)) && bits == Concat(Chars(kept))
      invariant kept + Known(s[i..]) == Known(s)
      invariant invalid + Unknown(s[i..]) == Unknown(s) && error == 163 * |invalid|
    {
      assert s[i..][0] == s[i] && s[i..][1..] == s[i + 1..];
      var word := LetterCode(s[i]);
      if word.None? {
        assert [s[i]] + Unknown(s[i + 1..]) == Unknown(s[i..]);
        assert invalid + ([s[i]] + Unknown(s[i + 1..])) == invalid + [s[i]] + Unknown(s[i + 1..]);
        assert [] + Known(s[i + 1..]) == Known(s[i + 1..]);
        invalid := invalid + [s[i]];
        error := error + 163;
      } else {
        OneLetter(kept, s[i]);
        assert kept + ([s[i]] + Known(s[i + 1..])) == kept + [s[i]] + Known(s[i + 1..]);
        assert [] + Unknown(s[i + 1..]) == Unknown(s[i + 1..]);
        kept := kept + [s[i]];
        bits := bits + WordBits(word.value);
      }
      i := i + 1;
    }
    assert kept + [] == kept && invalid + [] == invalid;
  }

  lemma NoLetters()
    ensures Coded(Chars([])) && Concat(Chars([])) == []
  {
  }

  lemma OneLetter(kept: string, c: char)
    requires Coded(Chars(kept)) && LetterCode(c).Some?
    ensures Coded(Chars(kept + [c])) && Concat(Chars(kept + [c])) == Concat(Chars(kept)) + WordBits(LetterCode(c).value)
  {
    hide LetterCode;
    assert Chars(kept + [c]) == Chars(kept) + [Letter(c)];
    ConcatAppend(Chars(kept), [Letter(c)]);
    assert [Letter(c)][1..] == [];
    assert Concat([Letter(c)]) == WordBits(LetterCode(c).value) + [];
  }

  // A field with its selector in front; nothing if nothing of it is kept.
  function Part(key: Symbol, data: string): seq<Symbol> {
    if Kept(data) == [] then [] else [key] + Chars(Kept(data))
  }

  lemma PartCoded(key: Symbol, data: string)
    requires Code(key).Some?
    ensures Coded(Part(key, data))
  {
    hide Code, LetterCode;
    LettersCoded(Trimmed(data));
  }

  // BitsWithPreamble, for one of the selectors.
  method BitsWithPreamble(dest: seq<int>, key: Symbol, data: string) returns (dest': seq<int>, error: int, invalid: string)
    requires key in {Rev, File, Repo, Site}
    ensures Coded(Part(key, data)) && dest' == dest + Concat(Part(key, data))
    ensures invalid == Unknown(Trimmed(data)) && error == if invalid == [] then 0 else 163 * |invalid| + 1630000
  {
    hide LetterCode, Bits, Kept, Chars;
    dest' := dest;
    var bits;
    bits, error, invalid := BitsForString(data);
    PartCoded(key, data);
    if error != 0 {
      error := error + 1630000;
    }
    BitsOfLetters(Chars(Kept(data)));
    if |bits| > 0 {
      assert ([key] + Chars(Kept(data)))[1..] == Chars(Kept(data));
      dest' := dest' + CodeBits(key);
      dest' := dest' + bits;
      assert dest + CodeBits(key) + bits == dest + (CodeBits(key) + bits);
    } else {
      assert Chars(Kept(data)) == [] ==> Kept(data) == [] by { LettersLength(Kept(data)); }
      assert dest + [] == dest;
    }
  }

  lemma LettersLength(s: string)
    ensures |Chars(s)| == |s|
  {
  }

  lemma BitsOfLetters(ss: seq<Symbol>)
    requires Coded(ss)
    ensures |Concat(ss)| == 0 <==> ss == []
  {
    ConcatEmpty(ss);
  }

  // BitsCompareSuffix
  function EndsWith(bits: seq<int>, suffix: seq<int>): bool {
    |bits| >= |suffix| && bits[|bits| - |suffix|..] == suffix
  }

  method CompareSuffix(bits: seq<int>, suffix: seq<int>) returns (equal: bool)
    ensures equal <==> EndsWith(bits, suffix)
  {
    if |bits| < |suffix| {
      return false;
    }
    var start := |bits| - |suffix|;
    var l := start;
    while l < |bits|
      invariant start <= l <= |bits| && forall j :: start <= j < l ==> bits[j] == suffix[j - start]
    {
      if bits[l] != suffix[l - start] {
        assert bits[start..][l - start] == bits[l];
        return false;
      }
      l := l + 1;
    }
    return true;
  }

  function Cut(bits: seq<int>): seq<int>
    requires EndsWith(bits, Mark())
  {
    bits[..|bits| - |Mark()|]
  }

  // BitsRemoveIfStartStop: two marks in a row at the end are both removed. The bits of a
  // character before the end mark can look like a mark, too.
  function WithoutMarks(bits: seq<int>): seq<int> {
    if EndsWith(bits, Mark()) && EndsWith(Cut(bits), Mark()) then Cut(Cut(bits)) else bits
  }

  method RemoveIfStartStop(bits: seq<int>) returns (r: seq<int>, error: int)
    ensures r == WithoutMarks(bits) && error == if EndsWith(bits, Mark()) then 0 else 3730000
  {
    hide CodeBits;
    r, error := bits, 0;
    var found := CompareSuffix(r, Mark());
    if found {
      r := r[..|r| - |Mark()|];
      found := CompareSuffix(r, Mark());
      if found {
        r := r[..|r| - |Mark()|];
      } else {
        assert bits == bits[..|bits| - |Mark()|] + bits[|bits| - |Mark()|..];
        r := r + Mark();
      }
    } else {
      error := 3730000;
    }
  }
}
