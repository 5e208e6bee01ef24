// What setting a key leaves as it is written: the new file holds the lines of the old one
// in their order, comments and spaces included, but for the lines of the key itself.
module ConfigLines {
  import opened Options
  import opened ConfigText
  import opened ConfigParse
  import opened ConfigRewrite
  import opened ConfigTheory
  import opened ConfigExact

  // The block gives the key a value.
  predicate IsOwn(b: Block, cur: Option<string>, ch: Change) {
    b.VariableBlock? && cur == Some(ch.section) && LowerAll(b.name) == ch.name
  }

  // The text of the blocks under the section cur, without those of the key; the last line
  // of the file is completed by a newline.
  function OtherText(bs: seq<Block>, cur: Option<string>, ch: Change): string {
    if bs == [] then []
    else (if IsOwn(bs[0], cur, ch) then [] else Line(bs[0].text)) + OtherText(bs[1..], Enter(bs[0], cur), ch)
  }

  lemma {:induction false} OtherConcat(a: seq<Block>, b: seq<Block>, cur: Option<string>, ch: Change)
    ensures OtherText(a + b, cur, ch) == OtherText(a, cur, ch) + OtherText(b, After(a, cur), ch)
  {
    if a == [] {
      assert a + b == b;
    } else {
      assert (a + b)[1..] == a[1..] + b;
      OtherConcat(a[1..], b, Enter(a[0], cur), ch);
    }
  }

  lemma OtherOne(b: Block, cur: Option<string>, ch: Change)
    ensures OtherText([b], cur, ch) == if IsOwn(b, cur, ch) then [] else Line(b.text)
    ensures OtherText([Closed(b)], cur, ch) == OtherText([b], cur, ch)
  {
    assert [b][1..] == [] && [Closed(b)][1..] == [];
  }

  lemma Joined(a: string, b: string, c: string)
    ensures a + (b + c) == a + b + c
  {
  }

  lemma NewLineIsOwn(ch: Change, value: string)
    requires LowerAll(ch.name) == ch.name
    ensures OtherText([NewLine(ch, value)], Some(ch.section), ch) == []
  {
    OtherOne(NewLine(ch, value), Some(ch.section), ch);
  }

  // What a block leads to, with the comments that wait after it, is the block with the
  // comments that waited before it.
  lemma BlockStays(ch: Change, pen: Pen, b: Block, cur: Option<string>)
    requires Fits(ch, pen, cur)
    ensures var (out, pen') := AtBlock(ch, pen, b);
      OtherText(out, cur, ch) + OtherText(pen'.pending, Enter(b, cur), ch)
        == OtherText(pen.pending, cur, ch) + OtherText([b], cur, ch)
  {
    hide NewLine, OtherText, IsOwn;
    CommentsSayNothing(pen.pending, cur);
    NothingOther(Enter(b, cur), ch);
    match b {
      case SectionBlock(_, _) => SectionStays(ch, pen, b, cur);
      case VariableBlock(_, _, _, _) => VariableStays(ch, pen, b, cur);
      case CommentBlock(_) =>
        OtherConcat(pen.pending, [Closed(b)], cur, ch);
        OtherOne(b, cur, ch);
    }
  }

  lemma NothingOther(cur: Option<string>, ch: Change)
    ensures OtherText([], cur, ch) == []
  {
  }

  lemma SectionStays(ch: Change, pen: Pen, b: Block, cur: Option<string>)
    requires Fits(ch, pen, cur) && b.SectionBlock?
    ensures OtherText(AtSection(ch, pen, b).0, cur, ch) == OtherText(pen.pending, cur, ch) + OtherText([b], cur, ch)
  {
    hide NewLine, OtherText, IsOwn;
    CommentsSayNothing(pen.pending, cur);
    OtherOne(b, cur, ch);
    OtherConcat(pen.pending, [Closed(b)], cur, ch);
    if pen.inSection && ch.preg.None? && pen.value.Some? {
      var n := NewLine(ch, pen.value.value);
      assert AtSection(ch, pen, b).0 == [n] + (pen.pending + [Closed(b)]);
      OtherConcat([n], pen.pending + [Closed(b)], cur, ch);
      NewLineIsOwn(ch, pen.value.value);
      NewLineSaysNothing(ch, pen.value.value, cur);
    } else {
      assert AtSection(ch, pen, b).0 == pen.pending + [Closed(b)];
    }
  }

  lemma VariableStays(ch: Change, pen: Pen, b: Block, cur: Option<string>)
    requires Fits(ch, pen, cur) && b.VariableBlock?
    ensures OtherText(AtVariable(ch, pen, b).0, cur, ch) == OtherText(pen.pending, cur, ch) + OtherText([b], cur, ch)
  {
    hide NewLine, OtherText;
    CommentsSayNothing(pen.pending, cur);
    OtherOne(b, cur, ch);
    if !Matches(ch, pen, b) {
      OtherConcat(pen.pending, [Closed(b)], cur, ch);
    } else if pen.value.Some? {
      OtherConcat(pen.pending, [NewLine(ch, pen.value.value)], cur, ch);
      NewLineIsOwn(ch, pen.value.value);
    }
  }

  lemma NewLineSaysNothing(ch: Change, value: string, cur: Option<string>)
    ensures After([NewLine(ch, value)], cur) == cur
  {
    assert [NewLine(ch, value)][1..] == [];
  }

  lemma EndStays(ch: Change, pen: Pen, cur: Option<string>)
    requires Fits(ch, pen, cur) && HeaderReads(ch, pen, [], cur)
    ensures OtherText(AtEnd(ch, pen, cur), cur, ch) == OtherText(pen.pending, cur, ch) +
      if NeedsSection(ch, pen, [], cur) then HeaderText(ch.section) else []
  {
    hide NewLine, NewSection, ReadSection, HeaderText, OtherText;
    CommentsSayNothing(pen.pending, cur);
    if Appending(ch, pen) {
      var n := NewLine(ch, pen.value.value);
      NewLineIsOwn(ch, pen.value.value);
      if cur != Some(ch.section) {
        assert AtEnd(ch, pen, cur) == pen.pending + ([NewSection(ch)] + [n]);
        OtherConcat(pen.pending, [NewSection(ch)] + [n], cur, ch);
        OtherConcat([NewSection(ch)], [n], cur, ch);
        NewSectionStays(ch, cur);
        assert HeaderText(ch.section) + [] == HeaderText(ch.section);
      } else {
        assert AtEnd(ch, pen, cur) == pen.pending + [n];
        OtherConcat(pen.pending, [n], cur, ch);
      }
    } else {
      assert AtEnd(ch, pen, cur) == pen.pending;
    }
  }

  lemma NewSectionStays(ch: Change, cur: Option<string>)
    ensures OtherText([NewSection(ch)], cur, ch) == HeaderText(ch.section)
    ensures After([NewSection(ch)], cur) == Some(ReadSection(ch.section))
  {
    OtherOne(NewSection(ch), cur, ch);
    HeaderEnds(ch.section);
    assert [NewSection(ch)][1..] == [];
  }

  lemma HeaderEnds(section: string)
    ensures Line(HeaderText(section)) == HeaderText(section)
  {
  }

  lemma {:induction false} WrittenStays(ch: Change, pen: Pen, bs: seq<Block>, cur: Option<string>)
    requires Fits(ch, pen, cur) && HeaderReads(ch, pen, bs, cur)
    ensures OtherText(Written(ch, pen, bs, cur, false), cur, ch)
      == OtherText(pen.pending, cur, ch) + OtherText(bs, cur, ch)
         + if NeedsSection(ch, pen, bs, cur) then HeaderText(ch.section) else []
    decreases |bs|
  {
    hide AtEnd, ReadSection, HeaderText, Fits;
    if bs == [] {
      EndStays(ch, pen, cur);
    } else {
      hide AtBlock;
      var (out, pen') := AtBlock(ch, pen, bs[0]);
      var cur' := Enter(bs[0], cur);
      var more := if NeedsSection(ch, pen', bs[1..], cur') then HeaderText(ch.section) else [];
      BlockSays(ch, pen, bs[0], cur);
      BlockStays(ch, pen, bs[0], cur);
      WrittenStays(ch, pen', bs[1..], cur');
      OtherConcat(out, Written(ch, pen', bs[1..], cur', false), cur, ch);
      OtherOne(bs[0], cur, ch);
      Joined(OtherText(out, cur, ch), OtherText(pen'.pending, cur', ch), OtherText(bs[1..], cur', ch));
      Joined(OtherText(out, cur, ch), OtherText(pen'.pending, cur', ch) + OtherText(bs[1..], cur', ch), more);
      Joined(OtherText(pen.pending, cur, ch), OtherText([bs[0]], cur, ch), OtherText(bs[1..], cur', ch));
    }
  }

  // Whatever is set, replaced or deleted: all other lines are in the new file as they were
  // in the old one, and if a line is new there besides those of the key, it is one header
  // at the end.
  lemma LinesStay(file: string, ch: Change)
    requires LowerAll(ch.name) == ch.name && Safe(file, ch) && Writable(ch) && Headed(file, ch)
    ensures var (bs, outcome) := Parse(Rewritten(file, ch));
      && outcome == Clean && Rewritten(file, ch) == Texts(bs)
      && OtherText(bs, None, ch) == OtherText(Parse(file).0, None, ch) +
           if NeedsSection(ch, Start(ch), Parse(file).0, None) then HeaderText(ch.section) else []
  {
    hide Next, Standing, Written, Blocks, NewLine, NewSection, NeedsSection, HeaderText, HeaderReads, OtherText, Appends;
    RewrittenParses(file, ch);
    WrittenStays(ch, Start(ch), Parse(file).0, None);
    assert Start(ch).pending == [];
    NothingOther(None, ch);
  }

  // The blocks of a file are all of its text but for spaces after the last.
  lemma {:induction false} BlocksCover(t: string)
    requires Blocks(t).1 == Clean
    ensures var s := Texts(Blocks(t).0); s <= t && Blank(t[|s|..]) == |t| - |s|
    decreases |t|
  {
    hide Blank;
    if Next(t).Found? {
      var b := Next(t).block;
      BlockFound(t);
      var bs := Blocks(t[|b.text|..]).0;
      BlocksCover(t[|b.text|..]);
      assert ([b] + bs)[1..] == bs;
      assert t == b.text + t[|b.text|..];
      assert t[|b.text|..][|Texts(bs)|..] == t[|b.text + Texts(bs)|..];
    } else {
      NothingFound(t);
      EndIsBlank(t);
      assert t[0..] == t;
    }
  }

  lemma EndIsBlank(t: string)
    requires Next(t).End?
    ensures Blank(t) == |t|
  {
  }

  // ---- files that break off

  // What has been read of a file that breaks off, up to the first block that cannot be.
  function Readable(file: string): string {
    Texts(AllClosed(Parse(file).0))
  }

  // The blocks before stand on their own, and what follows them is not read.
  lemma {:induction false} BlocksBreak(t: string)
    requires Blocks(t).1.Broken?
    ensures var (bs, outcome) := Blocks(t); var s := Texts(bs);
      && s <= t && Next(t[|s|..]) == Fail(outcome.header) && AllStanding(AllClosed(bs))
    decreases |t|
  {
    hide Next, Standing, Line, Blocks, Texts, AllClosed;
    if Next(t).Found? {
      var b := Next(t).block;
      BlockFound(t);
      var u := t[|b.text|..];
      var bs := Blocks(u).0;
      NotDangling(t);
      BlocksBreak(u);
      FoundStands(t);
      AllClosedFirst(b, bs);
      TextsOfOne(b, bs);
      assert t == b.text + u;
      assert u[|Texts(bs)|..] == t[|b.text + Texts(bs)|..];
    } else {
      NothingFound(t);
      NothingClosed();
      assert t[0..] == t;
    }
  }

  lemma NothingClosed()
    ensures Texts([]) == [] && AllClosed([]) == []
  {
  }

  lemma AllClosedFirst(b: Block, bs: seq<Block>)
    ensures AllClosed([b] + bs) == [Closed(b)] + AllClosed(bs)
  {
    hide Closed;
  }

  // A variable that dangles takes all that is left.
  lemma NotDangling(t: string)
    requires Next(t).Found? && Blocks(t).1.Broken?
    ensures !Dangles(Next(t).block)
  {
    hide Next, Blocks;
    var b := Next(t).block;
    BlockFound(t);
    if Dangles(b) {
      DanglingAlone(t);
      NextOfNothing();
      assert t[|b.text|..] == [];
      NothingFound([]);
    }
  }

  // Blocks put out closed are put out the same when they come back.
  lemma {:induction false} WrittenOfClosed(ch: Change, pen: Pen, bs: seq<Block>, cur: Option<string>, lost: bool)
    ensures Written(ch, pen, AllClosed(bs), cur, lost) == Written(ch, pen, bs, cur, lost)
    decreases |bs|
  {
    hide NewLine, NewSection, Line;
    if bs != [] {
      assert AllClosed(bs)[0] == Closed(bs[0]);
      assert AllClosed(bs)[1..] == AllClosed(bs[1..]);
      ClosedTwice(bs[0]);
      assert AtBlock(ch, pen, Closed(bs[0])) == AtBlock(ch, pen, bs[0]);
      WrittenOfClosed(ch, AtBlock(ch, pen, bs[0]).1, bs[1..], Enter(bs[0], cur), lost);
    }
  }

  // A file that breaks off is written as if it ended where it does: the block that cannot be
  // read and all that stands behind it are lost. (Where that block is a header, the source
  // also forgets which section it was in.)
  lemma BrokenIsCut(file: string, ch: Change)
    requires Parse(file).1.Broken?
    ensures var (bs, outcome) := Parse(file); var t := SkipBom(file);
      && Texts(bs) <= t && Next(t[|Texts(bs)|..]) == Fail(outcome.header)
      && Parse(Readable(file)) == (AllClosed(bs), Clean)
      && Rewritten(file, ch) == Texts(Written(ch, Start(ch), AllClosed(bs), None, outcome.header))
      && (!outcome.header ==> Rewritten(file, ch) == Rewritten(Readable(file), ch))
  {
    hide Next, Standing, Blocks, Written, AllClosed, Texts, SkipBom;
    var bs := Parse(file).0;
    BlocksBreak(SkipBom(file));
    StandingComposed(AllClosed(bs));
    ComposedParses(AllClosed(bs));
    WrittenOfClosed(ch, Start(ch), bs, None, Parse(file).1.header);
  }

  // What forgetting the section comes to: the value that goes to the end of the file gets a
  // header of its own, though it stands in its section already.
  lemma {:induction false} WrittenLost(ch: Change, pen: Pen, bs: seq<Block>, cur: Option<string>) returns (front: seq<Block>, last: seq<Block>)
    ensures Written(ch, pen, bs, cur, false) == front + last
    ensures var again := Appends(ch, pen, bs) && After(bs, cur) == Some(ch.section);
      && Written(ch, pen, bs, cur, true) == front + (if again then [NewSection(ch)] else []) + last
      && (again ==> |last| == 1)
    decreases |bs|
  {
    hide NewLine, NewSection, AtBlock;
    if bs == [] {
      front, last := pen.pending, AtEnd(ch, pen, cur)[|pen.pending|..];
      assert AtEnd(ch, pen, cur) == pen.pending + last;
      assert front + [] == front;
    } else {
      var (out, pen') := AtBlock(ch, pen, bs[0]);
      var rest;
      rest, last := WrittenLost(ch, pen', bs[1..], Enter(bs[0], cur));
      front := out + rest;
      var again := if Appends(ch, pen, bs) && After(bs, cur) == Some(ch.section) then [NewSection(ch)] else [];
      assert out + (rest + again + last) == front + again + last;
      assert out + (rest + last) == front + last;
    }
  }
}
