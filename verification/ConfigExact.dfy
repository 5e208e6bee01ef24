// Exactly when setting a key does what it should.
module ConfigExact {
  import opened Options
  import opened ConfigText
  import opened ConfigParse
  import opened ConfigRewrite
  import opened ConfigTheory
  import opened ConfigValues

  // config_set past its checks: the value is escaped and written without a pattern.
  function Setting(section: string, name: string, v: string): Change {
    Change(section, name, Some(Escape(v)), None)
  }

  predicate IsKeyName(section: string, name: string) {
    IsSection(section) && IsName(name) && LowerAll(name) == name
  }

  // The new file can be read, says what the old one said but for the key, in the same
  // order, and says once what the key has been set to.
  ghost predicate SetWorks(file: string, section: string, name: string, v: string) {
    var ch := Setting(section, name, v);
    var new' := Rewritten(file, ch);
    && Parse(new').1 == Clean
    && Others(EntriesOf(new'), ch) == Others(EntriesOf(file), ch)
    && Keys(EntriesOf(new'), ch) == [Entry(Some(section), name, Some(v))]
  }

  // Something is put out at the end of the file: the key is not found in it, and its
  // section is not left again.
  predicate PutAtEnd(file: string, section: string, name: string) {
    !Placed(Setting(section, name, []), Parse(file).0, None)
  }

  predicate PlainSubsection(section: string) {
    forall i :: First(section, '.') <= i < |section| ==> section[i] != '\t' && section[i] != '\n' && section[i] != '\U{8}'
  }

  // What a caller can check beforehand.
  ghost predicate CanSet(file: string, section: string, name: string, v: string) {
    && Keeps(v)
    && (PutAtEnd(file, section, name) ==>
          && !DanglesAtEnd(Parse(file).0)
          && (After(Parse(file).0, None) != Some(section) ==> PlainSubsection(section)))
  }

  lemma PutAtEndIff(file: string, section: string, name: string, v: string)
    requires LowerAll(name) == name
    ensures var ch := Setting(section, name, v);
      Appends(ch, Start(ch), Parse(file).0) <==> PutAtEnd(file, section, name)
  {
    var ch := Setting(section, name, v);
    AppendsUnlessPlaced(ch, Start(ch), Parse(file).0, None);
    PlacedIsSame(ch, Setting(section, name, []), Parse(file).0, None);
  }

  lemma {:induction false} PlacedIsSame(a: Change, b: Change, bs: seq<Block>, cur: Option<string>)
    requires a.section == b.section && a.name == b.name
    ensures Placed(a, bs, cur) <==> Placed(b, bs, cur)
  {
    if bs != [] {
      PlacedIsSame(a, b, bs[1..], Enter(bs[0], cur));
    }
  }

  lemma ReadAsIff(section: string)
    ensures ReadAs(section) == section <==> PlainSubsection(section)
  {
    hide Misread, First;
    var dot := First(section, '.');
    if dot < |section| {
      var sub := section[dot + 1..];
      MisreadIff(sub);
      assert section[..dot] + "." + sub == section;
      assert (section[..dot] + "." + Misread(sub))[dot + 1..] == Misread(sub);
      assert forall i :: dot < i < |section| ==> section[i] == sub[i - dot - 1];
      if PlainSubsection(section) {
        assert forall i :: 0 <= i < |sub| ==> sub[i] == section[dot + 1 + i];
      }
    }
  }

  lemma SetIfCan(file: string, section: string, name: string, v: string)
    requires IsKeyName(section, name) && Parse(file).1 == Clean && CanSet(file, section, name, v)
    ensures SetWorks(file, section, name, v)
  {
    hide Parse, Appends, Standing, NewLine, NewSection, ReadSection, Escape, Others, Keys, ReadBack, PlainSubsection, IsSection;
    var ch := Setting(section, name, v);
    PutAtEndIff(file, section, name, v);
    ReadAsIff(section);
    HeaderStands(ch);
    ValueStands(ch, v);
    KeptIffKeeps(v);
    SetOnly(file, ch);
  }

  // ---- the other direction

  function AllClosed(bs: seq<Block>): (r: seq<Block>)
    ensures |r| == |bs| && forall i :: 0 <= i < |bs| ==> r[i] == Closed(bs[i])
  {
    seq(|bs|, i requires 0 <= i < |bs| => Closed(bs[i]))
  }

  function Tail(ch: Change, value: string, cur: Option<string>): seq<Block> {
    (if cur != Some(ch.section) then [NewSection(ch)] else []) + [NewLine(ch, value)]
  }

  lemma StepAtEnd(ch: Change, pen: Pen, b: Block, cur: Option<string>)
    requires ch.preg.None? && pen.value.Some? && Fits(ch, pen, cur) && !Placed(ch, [b], cur)
    ensures var (out, pen') := AtBlock(ch, pen, b);
      out + pen'.pending == pen.pending + [Closed(b)] && pen'.value == pen.value
  {
    hide NewLine, Closed;
    assert [] + pen.pending == pen.pending;
  }

  lemma Regroup(a: seq<Block>, b: seq<Block>, c: seq<Block>, d: seq<Block>, e: seq<Block>, f: seq<Block>)
    requires a + b == c + d
    ensures a + (b + e + f) == c + (d + e) + f
  {
    assert a + (b + e + f) == (a + b) + (e + f) == (c + d) + (e + f);
  }

  // When the value goes to the end of the file, all blocks are put out as they were.
  lemma {:induction false} WrittenAtEnd(ch: Change, pen: Pen, bs: seq<Block>, cur: Option<string>)
    requires ch.preg.None? && pen.value.Some? && Fits(ch, pen, cur) && !Placed(ch, bs, cur)
    ensures Written(ch, pen, bs, cur, false) == pen.pending + AllClosed(bs) + Tail(ch, pen.value.value, After(bs, cur))
    decreases |bs|
  {
    hide NewLine, NewSection, Closed;
    if bs == [] {
      assert pen.pending + AllClosed(bs) == pen.pending;
    } else {
      var (out, pen') := AtBlock(ch, pen, bs[0]);
      BlockSays(ch, pen, bs[0], cur);
      StepAtEnd(ch, pen, bs[0], cur);
      hide AtBlock, Fits, Tail;
      WrittenAtEnd(ch, pen', bs[1..], Enter(bs[0], cur));
      assert AllClosed(bs) == [Closed(bs[0])] + AllClosed(bs[1..]);
      Regroup(out, pen'.pending, pen.pending, [Closed(bs[0])], AllClosed(bs[1..]), Tail(ch, pen.value.value, After(bs, cur)));
    }
  }

  lemma {:induction false} ClosedSaysTheSame(bs: seq<Block>, cur: Option<string>)
    ensures Entries(AllClosed(bs), cur) == Entries(bs, cur) && After(AllClosed(bs), cur) == After(bs, cur)
  {
    if bs != [] {
      ClosedSaysTheSame(bs[1..], Enter(bs[0], cur));
      assert AllClosed(bs)[1..] == AllClosed(bs[1..]);
    }
  }

  // A header that does not read as it should puts the entry into another section.
  lemma HeaderMisses(file: string, section: string, name: string, v: string)
    requires IsKeyName(section, name) && Parse(file).1 == Clean && PutAtEnd(file, section, name)
    requires !DanglesAtEnd(Parse(file).0) && After(Parse(file).0, None) != Some(section) && !PlainSubsection(section)
    ensures !SetWorks(file, section, name, v)
  {
    hide Parse, Appends, Standing, ReadSection, Escape, ReadBack, PlainSubsection, IsSection, Written, Texts, Entries, Others, Keys, AllClosed, Placed;
    var ch := Setting(section, name, v);
    var bs := Parse(file).0;
    PutAtEndIff(file, section, name, v);
    ReadAsIff(section);
    HeaderStands(ch);
    ValueStands(ch, v);
    RewrittenParses(file, ch);
    PlacedIsSame(ch, Setting(section, name, []), bs, None);
    WrittenAtEnd(ch, Start(ch), bs, None);
    var tail := Tail(ch, Escape(v), After(bs, None));
    assert [] + AllClosed(bs) == AllClosed(bs);
    ClosedSaysTheSame(bs, None);
    EntriesConcat(AllClosed(bs), tail, None);
    NewLineSays(ch, Escape(v), After(bs, None));
    KeysConcat(Entries(bs, None), Entries(tail, After(bs, None)), ch);
    StrangerStays(ch, Escape(v));
  }

  lemma StrangerStays(ch: Change, value: string)
    requires ReadSection(ch.section) != ch.section
    ensures |Others(Entries([NewLine(ch, value)], Some(ReadSection(ch.section))), ch)| == 1
  {
    hide NewLine, ReadSection;
    var b := NewLine(ch, value);
    assert b.VariableBlock? by { NewLineIsVariable(ch, value); }
    assert [b][1..] == [];
    var e := Entry(Some(ReadSection(ch.section)), LowerAll(b.name), b.value);
    assert Entries([b], Some(ReadSection(ch.section))) == [e] && [e][1..] == [];
  }

  lemma NewLineIsVariable(ch: Change, value: string)
    ensures NewLine(ch, value).VariableBlock?
  {
  }

  // ---- text put behind a variable that dangles

  // The first line of the text adds something to a value wherever it stands: a character
  // that is no space, after spaces only, and neither begins a comment nor is a quote or a
  // backslash.
  ghost predicate Solid(a: string) {
    var line := ReadLine(a, false).0;
    var i := Leading(line);
    i < |line| && line[i] != ';' && line[i] != '#' && line[i] != '"' && line[i] != '\\'
  }

  lemma {:induction false} ContinueGrows(t: string, quotes: nat, a: string)
    requires Continue(t, quotes).Some? && Continue(t, quotes).value.dangling && Line(t) == t && Solid(a)
    ensures Continue(t + a, quotes).Some? ==> |Continue(t + a, quotes).value.value| > |Continue(t, quotes).value.value|
    decreases |t|
  {
    hide ReadLine, Strip, Line, Unescape;
    if t == [] {
      assert t + a == a;
      SolidAdds(a, quotes);
    } else {
      var (line, k) := ReadLine(t, false);
      var q := Strip(line, if quotes > 0 then 1 else 0).1;
      assert t == t[..k] + t[k..];
      RestIsComplete(t, k);
      ContinueGrows(t[k..], q, a);
      ReadLineLocal(t, false, t[k..] + a);
      assert t[..k] + (t[k..] + a) == t + a;
      assert (t + a)[k..] == t[k..] + a;
    }
  }

  lemma RestIsComplete(t: string, k: nat)
    requires Line(t) == t && k <= |t|
    ensures Line(t[k..]) == t[k..] && (k == |t| ==> t[..k] == t && Line(t[..k]) == t[..k])
  {
    if k < |t| {
      assert t[k..][|t| - k - 1] == t[|t| - 1];
    }
  }

  lemma SolidAdds(a: string, quotes: nat)
    requires Solid(a)
    ensures Continue(a, quotes).Some? ==> |Continue(a, quotes).value.value| > 0
  {
    hide ReadLine, Unescape, Strip;
    var line := ReadLine(a, false).0;
    var q := if quotes > 0 then 1 else 0;
    assert a != [] by { NothingReads(); }
    SolidStrip(line, q);
    SolidUnescapes(Strip(line, q).0);
  }

  lemma NothingReads()
    ensures ReadLine([], false).0 == []
  {
  }

  lemma {:induction false} ScanStops(line: string, i: nat, quotes: nat, slashes: nat)
    requires i <= |line|
    ensures var e := Scan(line, i, quotes, slashes).0; e < |line| ==> line[e] == ';' || line[e] == '#'
    decreases |line| - i
  {
    if i < |line| {
      var q := if line[i] == '"' && i > 0 && line[i - 1] != '\\' then quotes + 1 else quotes;
      ScanStops(line, i + 1, q, if line[i] == '\\' then slashes + 1 else 0);
    }
  }

  lemma SolidStrip(line: string, q: nat)
    requires var i := Leading(line); i < |line| && line[i] != ';' && line[i] != '#' && line[i] != '"' && line[i] != '\\'
    ensures var s := Strip(line, q).0; s != [] && s[0] != '"' && s[0] != '\\'
  {
    hide Scan, TrimEnd, Leading;
    var i := Leading(line);
    var end := Scan(line, 0, q, 0).0;
    LeadingFacts(line);
    ScanStops(line, 0, q, 0);
    TrimFacts(line[..end]);
    assert end > i;
    assert line[..end][i] == line[i] && line[..end][0] == line[0];
  }

  lemma SolidUnescapes(s: string)
    requires s != [] && s[0] != '"' && s[0] != '\\'
    ensures Unescape(s).Some? ==> |Unescape(s).value.0| > 0
  {
  }

  lemma DanglingGrows(t: string, a: string)
    requires Line(t) == t && Next(t).Found? && Dangles(Next(t).block) && Solid(a)
    ensures var b := Next(t).block;
      match Next(t + a)
      case End => false
      case Fail(_) => true
      case Found(c) => c.VariableBlock? && c.name == b.name && b.value.Some? && c.value.Some? && |c.value.value| > |b.value.value|
  {
    hide Line, ReadLine, Strip, Assignment, Continue, Leading;
    BlankBeforeLine(t);
    BlankLocal(t, t + a);
    var (line, k) := ReadLine(t, true);
    var q := Strip(line, 0).1;
    DanglingAlone(t);
    RestIsComplete(t, k);
    ContinueGrows(t[k..], q, a);
    ReadLineLocal(t, true, t[k..] + a);
    assert t[..k] + (t[k..] + a) == t + a;
    assert (t + a)[k..] == t[k..] + a;
  }

  // ---- a file that dangles

  lemma {:induction false} BlocksAppend(a: seq<Block>, t: string)
    requires AllStanding(a)
    ensures var (bs, outcome) := Blocks(t); Blocks(Texts(a) + t) == (a + bs, outcome)
  {
    hide Next, Standing, Blocks;
    if a == [] {
      assert Texts(a) + t == t;
      assert a + Blocks(t).0 == Blocks(t).0;
    } else {
      var u := Texts(a[1..]) + t;
      BlocksAppend(a[1..], t);
      StandingNext(a[0], u);
      BlockFound(a[0].text + u);
      assert a[0].text + u == Texts(a) + t;
      assert (a[0].text + u)[|a[0].text|..] == u;
      assert [a[0]] + (a[1..] + Blocks(t).0) == a + Blocks(t).0;
    }
  }

  lemma {:induction false} Unplaced(ch: Change, bs: seq<Block>, cur: Option<string>)
    requires !Placed(ch, bs, cur) && bs != [] && Dangles(bs[|bs| - 1])
    ensures var init, b := bs[..|bs| - 1], bs[|bs| - 1];
      Entries(bs, cur) == Entries(init, cur) + [EntryOf(b, After(init, cur))] && !IsKey(EntryOf(b, After(init, cur)), ch)
  {
    var init, b := bs[..|bs| - 1], bs[|bs| - 1];
    if init == [] {
      assert bs[1..] == [];
    } else {
      assert init[1..] == bs[1..][..|bs[1..]| - 1];
      Unplaced(ch, bs[1..], Enter(bs[0], cur));
    }
  }

  lemma UntrimmedRead(body: string, u: string)
    requires '\n' !in body
    ensures ReadLine(body + "\n" + u, false).0 == TrimEnd(body + "\n")
  {
    hide TrimEnd, LineEnd;
    var a := body + "\n" + u;
    LineEndOf(body, u);
    assert a[..|body| + 1] == body + "\n" && a[0..] == a;
    assert a[0..0 + (|body| + 1)] == body + "\n";
  }

  lemma SolidLine(spaces: string, c: char, more: string, u: string)
    requires Spaces(spaces) && '\n' !in spaces && '\n' !in more
    requires !IsSpace(c) && c != ';' && c != '#' && c != '"' && c != '\\'
    ensures Solid(spaces + [c] + more + "\n" + u)
  {
    hide TrimEnd, Leading, ReadLine;
    var body := spaces + [c] + more;
    UntrimmedRead(body, u);
    SolidTrimmed(spaces, c, more + "\n");
    assert body + "\n" == spaces + [c] + (more + "\n");
  }

  lemma SolidTrimmed(spaces: string, c: char, more: string)
    requires Spaces(spaces) && !IsSpace(c)
    ensures var line := TrimEnd(spaces + [c] + more); Leading(line) == |spaces| < |line| && line[|spaces|] == c
  {
    hide TrimEnd, Leading;
    var s := spaces + [c] + more;
    var line := TrimEnd(s);
    TrimFacts(s);
    assert s[|spaces|] == c;
    assert |spaces| < |line|;
    forall i | 0 <= i < |spaces|
      ensures IsSpace(line[i])
    {
      assert line[i] == s[i] == spaces[i];
    }
    LeadingIs(line, |spaces|);
  }

  lemma TailIsSolid(ch: Change, value: string, cur: Option<string>)
    requires IsKeyName(ch.section, ch.name) && '\n' !in value
    ensures Solid(Texts(Tail(ch, value, cur)))
  {
    hide HeaderText, HeaderLine, QuotesFor, ReadBack, ReadSection, Solid, ValueText;
    var n := NewLine(ch, value);
    assert [n][1..] == [] && Texts([n]) == n.text by { assert n.text + [] == n.text; }
    if cur == Some(ch.section) {
      assert Tail(ch, value, cur) == [n];
      ValueTextIsSolid(ch.name, value);
    } else {
      var h := NewSection(ch);
      assert Tail(ch, value, cur) == [h, n] && [h, n][1..] == [n];
      HeaderLineSays(ch.section);
      var line := HeaderLine(ch.section);
      SolidLine([], '[', line[1..], n.text);
      assert [] + ['['] + line[1..] == line;
      assert Texts([h, n]) == line + "\n" + n.text;
    }
  }

  lemma ValueTextIsSolid(name: string, value: string)
    requires IsName(name) && '\n' !in value
    ensures Solid(ValueText(name, value))
  {
    hide Solid;
    var q := QuotesFor(value);
    var more := name[1..] + " = " + q + value + q;
    SolidLine("\t", name[0], more, []);
    assert "\t" + [name[0]] + more + "\n" + [] == ValueText(name, value);
  }

  // The text of a file whose last variable dangles, and what reading it comes to.
  lemma DanglingText(file: string, ch: Change, value: string)
    requires ch.value == Some(value) && ch.preg.None? && LowerAll(ch.name) == ch.name
    requires Parse(file).1 == Clean && DanglesAtEnd(Parse(file).0) && !Placed(ch, Parse(file).0, None)
    requires Solid(Texts(Tail(ch, value, After(Parse(file).0, None))))
    ensures var bs := Parse(file).0; var init, b := bs[..|bs| - 1], bs[|bs| - 1];
      var (more, outcome) := Blocks(Closed(b).text + Texts(Tail(ch, value, After(bs, None))));
      && Parse(Rewritten(file, ch)) == (AllClosed(init) + more, outcome)
      && Dangles(b) && Closed(b).text != [] && Next(Closed(b).text) == Found(Closed(b))
  {
    hide Next, Standing, Closed, Blocks, Written, AllClosed, Placed, Solid, Texts, Tail;
    var bs := Parse(file).0;
    var init, b := bs[..|bs| - 1], bs[|bs| - 1];
    var tail := Tail(ch, value, After(bs, None));
    FileIsUsable(file);
    assert AllStanding(AllClosed(init)) by { InitStands(bs); }
    WrittenAtEnd(ch, Start(ch), bs, None);
    assert [] + AllClosed(bs) == AllClosed(bs);
    TextsOfAll(bs, tail);
    BlocksAppend(AllClosed(init), Closed(b).text + Texts(tail));
    NotMarked(AllClosed(init), Closed(b), Texts(tail));
  }

  lemma InitStands(bs: seq<Block>)
    requires Usable(bs) && bs != []
    ensures AllStanding(AllClosed(bs[..|bs| - 1]))
  {
    hide Standing, Closed, Next;
  }

  lemma TextsOfAll(bs: seq<Block>, tail: seq<Block>)
    requires bs != []
    ensures Texts(AllClosed(bs) + tail) == Texts(AllClosed(bs[..|bs| - 1])) + (Closed(bs[|bs| - 1]).text + Texts(tail))
  {
    hide Texts;
    var init, b := bs[..|bs| - 1], bs[|bs| - 1];
    assert AllClosed(bs) + tail == AllClosed(init) + ([Closed(b)] + tail);
    TextsConcat(AllClosed(init), [Closed(b)] + tail);
    TextsOfOne(Closed(b), tail);
  }

  lemma TextsOfOne(b: Block, tail: seq<Block>)
    ensures Texts([b] + tail) == b.text + Texts(tail)
  {
  }

  lemma NotMarked(a: seq<Block>, b: Block, u: string)
    requires AllStanding(a) && b.text != [] && Next(b.text) == Found(b)
    ensures SkipBom(Texts(a) + (b.text + u)) == Texts(a) + (b.text + u)
  {
    hide Next, Standing;
    if a == [] {
      NoMark(b.text);
      assert Texts(a) + (b.text + u) == b.text + u;
    } else {
      StandingNext(a[0], []);
      assert a[0].text + [] == a[0].text;
      NoMark(a[0].text);
    }
  }

  // What is put behind a variable that dangles becomes part of its value.
  lemma DanglingTakesAll(file: string, section: string, name: string, v: string)
    requires IsKeyName(section, name) && Parse(file).1 == Clean && PutAtEnd(file, section, name)
    requires DanglesAtEnd(Parse(file).0)
    ensures !SetWorks(file, section, name, v)
  {
    hide Next, Escape, Blocks, Parse, Rewritten, Entries, Others, Keys, AllClosed, Placed, Solid, Texts, Tail;
    var ch := Setting(section, name, v);
    var bs := Parse(file).0;
    var init, b := bs[..|bs| - 1], bs[|bs| - 1];
    PlacedIsSame(ch, Setting(section, name, []), bs, None);
    var tail := Tail(ch, Escape(v), After(bs, None));
    EscapedIsPlain(v);
    TailIsSolid(ch, Escape(v), After(bs, None));
    DanglingText(file, ch, Escape(v));
    var t := Closed(b).text;
    ClosedTwice(b);
    DanglingGrows(t, Texts(tail));
    if Next(t + Texts(tail)).Found? {
      var c := Next(t + Texts(tail)).block;
      BlockFound(t + Texts(tail));
      Unplaced(ch, bs, None);
      Misled(ch, init, b, c, Blocks(t + Texts(tail)).0[1..]);
      assert Blocks(t + Texts(tail)).0 == [c] + Blocks(t + Texts(tail)).0[1..];
    } else {
      NothingFound(t + Texts(tail));
    }
  }

  lemma ClosedTwice(b: Block)
    ensures Line(Closed(b).text) == Closed(b).text && (Dangles(Closed(b)) <==> Dangles(b))
  {
  }

  lemma Misled(ch: Change, init: seq<Block>, b: Block, c: Block, more: seq<Block>)
    requires b.VariableBlock? && c.VariableBlock? && c.name == b.name && b.value != c.value
    requires !IsKey(EntryOf(b, After(init, None)), ch)
    ensures Others(Entries(AllClosed(init) + ([c] + more), None), ch)
         != Others(Entries(init, None) + [EntryOf(b, After(init, None))], ch)
  {
    hide AllClosed;
    var cur := After(init, None);
    ClosedSaysTheSame(init, None);
    EntriesConcat(AllClosed(init), [c] + more, None);
    assert ([c] + more)[1..] == more;
    assert Entries([c] + more, cur) == [EntryOf(c, cur)] + Entries(more, cur);
    KeysConcat(Entries(init, None), [EntryOf(c, cur)] + Entries(more, cur), ch);
    KeysConcat(Entries(init, None), [EntryOf(b, cur)], ch);
    OthersFirst(EntryOf(c, cur), Entries(more, cur), ch);
    OthersFirst(EntryOf(b, cur), [], ch);
    assert [EntryOf(b, cur)] + [] == [EntryOf(b, cur)];
    var n := |Others(Entries(init, None), ch)|;
    assert Others(Entries(AllClosed(init) + ([c] + more), None), ch)[n] == EntryOf(c, cur);
    assert Others(Entries(init, None) + [EntryOf(b, cur)], ch)[n] == EntryOf(b, cur);
  }

  lemma OthersFirst(e: Entry, es: seq<Entry>, ch: Change)
    requires !IsKey(e, ch)
    ensures Others([e] + es, ch) == [e] + Others(es, ch)
  {
  }

  // Setting a key works exactly under the conditions that a caller can check.
  lemma SetWorksIff(file: string, section: string, name: string, v: string)
    requires IsKeyName(section, name) && Parse(file).1 == Clean
    ensures SetWorks(file, section, name, v) <==> CanSet(file, section, name, v)
  {
    hide Parse, Appends, Standing, NewLine, NewSection, ReadSection, Escape, Others, Keys, ReadBack, PlainSubsection, IsSection, Rewritten, Placed, Entries;
    var ch := Setting(section, name, v);
    if CanSet(file, section, name, v) {
      SetIfCan(file, section, name, v);
    } else if PutAtEnd(file, section, name) && DanglesAtEnd(Parse(file).0) {
      DanglingTakesAll(file, section, name, v);
    } else if PutAtEnd(file, section, name) && After(Parse(file).0, None) != Some(section) && !PlainSubsection(section) {
      HeaderMisses(file, section, name, v);
    } else {
      PutAtEndIff(file, section, name, v);
      ReadAsIff(section);
      HeaderStands(ch);
      ValueStands(ch, v);
      KeptIffKeeps(v);
      SetOnly(file, ch);
    }
  }
}
