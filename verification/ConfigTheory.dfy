// Reading back what config_write has written: the text of the new file parses into the
// blocks that were put out, so that setting a key changes that key's entry and nothing
// else.
module ConfigTheory {
  import opened Options
  import opened ConfigText
  import opened ConfigParse
  import opened ConfigRewrite

  // ---- the blocks that are put out

  ghost predicate AllStanding(bs: seq<Block>) {
    forall i :: 0 <= i < |bs| ==> Standing(bs[i])
  }

  // The lines that are new in the file stand on their own.
  ghost predicate Writable(ch: Change) {
    Standing(NewSection(ch)) && (ch.value.Some? ==> Standing(NewLine(ch, ch.value.value)))
  }

  ghost predicate DanglesAtEnd(bs: seq<Block>) {
    bs != [] && Dangles(bs[|bs| - 1])
  }

  lemma {:induction false} ComposedConcat(a: seq<Block>, b: seq<Block>)
    requires AllStanding(a) && Composed(b)
    ensures Composed(a + b)
  {
    hide Next, Standing;
    if a == [] {
      assert a + b == b;
    } else {
      assert (a + b)[1..] == a[1..] + b;
      ComposedConcat(a[1..], b);
      StandingNext(a[0], []);
      assert a[0].text + [] == a[0].text;
    }
  }

  lemma StandingComposed(a: seq<Block>)
    requires AllStanding(a)
    ensures Composed(a)
  {
    ComposedConcat(a, []);
    assert a + [] == a;
  }

  ghost predicate Ready(ch: Change, pen: Pen) {
    Writable(ch) && AllStanding(pen.pending) && (pen.value.Some? ==> pen.value == ch.value)
  }

  lemma BlockStands(ch: Change, pen: Pen, b: Block)
    requires Ready(ch, pen) && Standing(Closed(b))
    ensures var (out, pen') := AtBlock(ch, pen, b); AllStanding(out) && Ready(ch, pen')
  {
    hide Standing, NewLine, NewSection;
  }

  // A variable that dangles is put out last, or not at all.
  lemma LastDangling(ch: Change, pen: Pen, b: Block, cur: Option<string>)
    requires Ready(ch, pen) && Dangles(b) && Closed(b).text != [] && Next(Closed(b).text) == Found(Closed(b))
    requires !Appends(ch, pen, [b])
    ensures Composed(Written(ch, pen, [b], cur, false))
  {
    hide Standing, NewLine, NewSection, Next, Composed;
    var (out, pen') := AtVariable(ch, pen, b);
    assert [b][1..] == [];
    assert !Appending(ch, pen');
    assert Written(ch, pen', [], cur, false) == [];
    assert out + [] == out;
    if Matches(ch, pen, b) {
      StandingComposed(out);
    } else {
      ComposedAlone(Closed(b));
      ComposedConcat(pen.pending, [Closed(b)]);
    }
  }

  lemma ComposedAlone(b: Block)
    requires b.text != [] && Next(b.text) == Found(b)
    ensures Composed([b])
  {
  }

  lemma {:induction false} WrittenComposed(ch: Change, pen: Pen, bs: seq<Block>, cur: Option<string>)
    requires Ready(ch, pen) && Usable(bs) && (DanglesAtEnd(bs) ==> !Appends(ch, pen, bs))
    ensures Composed(Written(ch, pen, bs, cur, false))
    decreases |bs|
  {
    hide Standing, NewLine, NewSection, Next, AtBlock, Composed;
    if bs == [] {
      EndStands(ch, pen, cur);
    } else if |bs| == 1 && Dangles(bs[0]) {
      assert bs == [bs[0]];
      LastDangling(ch, pen, bs[0], cur);
    } else {
      var (out, pen') := AtBlock(ch, pen, bs[0]);
      BlockStands(ch, pen, bs[0]);
      assert forall i :: 0 <= i < |bs[1..]| ==> bs[1..][i] == bs[i + 1];
      WrittenComposed(ch, pen', bs[1..], Enter(bs[0], cur));
      ComposedConcat(out, Written(ch, pen', bs[1..], Enter(bs[0], cur), false));
    }
  }

  lemma EndStands(ch: Change, pen: Pen, cur: Option<string>)
    requires Ready(ch, pen)
    ensures Composed(AtEnd(ch, pen, cur))
  {
    hide Standing, NewLine, NewSection, Composed;
    StandingComposed(AtEnd(ch, pen, cur));
  }

  // ---- the byte order mark

  lemma MarkIsNoName(t: string)
    requires t != [] && t[0] == '\U{EF}'
    ensures Variable(t) == None
  {
    var line := ReadLine(t, true).0;
    TrimFacts(t[..LineEnd(t)]);
    assert t[0..] == t;
    var s := Strip(line, 0).0;
    TrimFacts(line[..Scan(line, 0, 0, 0).0]);
    assert s != [] ==> s[0] == t[0];
    assert NameLength(s) == 0;
  }

  lemma NoMark(t: string)
    requires Next(t).Found?
    ensures t[0] != '\U{EF}'
  {
    hide Variable;
    if t[0] == '\U{EF}' {
      MarkIsNoName(t);
    }
  }

  lemma ComposedParses(bs: seq<Block>)
    requires Composed(bs)
    ensures Parse(Texts(bs)) == (bs, Clean)
  {
    hide Next, Standing;
    BlocksOfTexts(bs);
    if bs != [] {
      NothingFoundIsEmpty(Texts(bs), bs);
      NoMark(Texts(bs));
    }
  }

  lemma NothingFoundIsEmpty(t: string, bs: seq<Block>)
    requires Blocks(t).0 == bs && bs != []
    ensures Next(t).Found?
  {
  }

  // ---- when something is put out at the end

  // The key's section is left, or the key found, before the file ends.
  predicate Placed(ch: Change, bs: seq<Block>, cur: Option<string>) {
    bs != [] &&
    match bs[0]
    case SectionBlock(_, name) => cur == Some(ch.section) || Placed(ch, bs[1..], Some(name))
    case VariableBlock(_, name, _, _) => (cur == Some(ch.section) && LowerAll(name) == ch.name) || Placed(ch, bs[1..], cur)
    case CommentBlock(_) => Placed(ch, bs[1..], cur)
  }

  lemma {:induction false} AppendsUnlessPlaced(ch: Change, pen: Pen, bs: seq<Block>, cur: Option<string>)
    requires ch.preg.None? && Fits(ch, pen, cur)
    ensures Appends(ch, pen, bs) <==> pen.value.Some? && !Placed(ch, bs, cur)
    decreases |bs|
  {
    if bs != [] {
      BlockSays(ch, pen, bs[0], cur);
      AppendsUnlessPlaced(ch, AtBlock(ch, pen, bs[0]).1, bs[1..], Enter(bs[0], cur));
    }
  }

  // ---- files

  lemma FileIsUsable(file: string)
    ensures Usable(Parse(file).0)
  {
    BlocksStand(SkipBom(file));
  }

  // A file that can be rewritten safely: it can be read, and no variable dangles at its
  // end that something would be put behind.
  ghost predicate Safe(file: string, ch: Change) {
    Parse(file).1 == Clean && (DanglesAtEnd(Parse(file).0) ==> !Appends(ch, Start(ch), Parse(file).0))
  }

  predicate Headed(file: string, ch: Change) {
    HeaderReads(ch, Start(ch), Parse(file).0, None)
  }

  lemma RewrittenParses(file: string, ch: Change)
    requires Safe(file, ch) && Writable(ch)
    ensures Parse(Rewritten(file, ch)) == (Written(ch, Start(ch), Parse(file).0, None, false), Clean)
  {
    hide Next, Standing, Written, Composed, Blocks, NewLine, NewSection;
    FileIsUsable(file);
    WrittenComposed(ch, Start(ch), Parse(file).0, None);
    ComposedParses(Written(ch, Start(ch), Parse(file).0, None, false));
  }

  // Setting a key, or deleting it if there is no value.
  lemma SetOnly(file: string, ch: Change)
    requires ch.preg.None? && LowerAll(ch.name) == ch.name && Safe(file, ch) && Writable(ch) && Headed(file, ch)
    ensures var es := EntriesOf(Rewritten(file, ch));
      && Parse(Rewritten(file, ch)).1 == Clean
      && Others(es, ch) == Others(EntriesOf(file), ch)
      && Keys(es, ch) == if ch.value.Some? then [NewEntry(ch, ch.value.value)] else []
  {
    hide Next, Standing, Written, Blocks, NewLine, NewSection, Others, Keys, NewEntry, Entries;
    RewrittenParses(file, ch);
    WrittenSets(ch, Start(ch), Parse(file).0, None);
  }

  lemma ReplaceMatching(file: string, ch: Change)
    requires ch.preg.Some? && LowerAll(ch.name) == ch.name && Safe(file, ch) && Writable(ch) && Headed(file, ch)
    ensures var es := EntriesOf(file);
      && Parse(Rewritten(file, ch)).1 == Clean
      && EntriesOf(Rewritten(file, ch)) == Replaced(es, ch) +
           if !AnyAccepted(es, ch) && ch.value.Some? then [NewEntry(ch, ch.value.value)] else []
  {
    hide Next, Standing, Written, Blocks, NewLine, NewSection, Replaced, AnyAccepted, NewEntry, Entries;
    RewrittenParses(file, ch);
    WrittenReplaces(ch, Start(ch), Parse(file).0, None);
  }
}
