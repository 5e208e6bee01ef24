// Exactly when setting a key with a pattern does what it should.
module ConfigReplace {
  import opened Options
  import opened ConfigText
  import opened ConfigParse
  import opened ConfigRewrite
  import opened ConfigTheory
  import opened ConfigValues
  import opened ConfigExact
  import opened ConfigPattern
  import opened ConfigSwallow

  // config_set_multivar: the value is written as it is.
  function Replacing(section: string, name: string, v: string, preg: Option<string> -> bool): Change {
    Change(section, name, Some(v), Some(preg))
  }

  // The entries as they should be: every value of the key that the pattern accepts is v.
  function Wanted(es: seq<Entry>, ch: Change, v: string): seq<Entry>
    requires ch.preg.Some?
  {
    if es == [] then []
    else [if Accepts(ch, es[0]) then Entry(Some(ch.section), ch.name, Some(v)) else es[0]] + Wanted(es[1..], ch, v)
  }

  // And one more at the end if there was none.
  ghost function WantedAll(es: seq<Entry>, ch: Change, v: string): seq<Entry>
    requires ch.preg.Some?
  {
    Wanted(es, ch, v) + if AnyAccepted(es, ch) then [] else [Entry(Some(ch.section), ch.name, Some(v))]
  }

  // The new file can be read and says what it should.
  ghost predicate ReplaceWorks(file: string, section: string, name: string, v: string, preg: Option<string> -> bool) {
    var ch := Replacing(section, name, v, preg);
    Parse(Rewritten(file, ch)).1 == Clean && EntriesOf(Rewritten(file, ch)) == WantedAll(EntriesOf(file), ch, v)
  }

  // What a caller can check beforehand.
  ghost predicate CanReplace(file: string, section: string, name: string, v: string, preg: Option<string> -> bool) {
    && Plain(v)
    && (!AnyAccepted(EntriesOf(file), Replacing(section, name, v, preg)) ==>
          && !DanglesAtEnd(Parse(file).0)
          && (After(Parse(file).0, None) != Some(section) ==> PlainSubsection(section)))
  }

  lemma {:induction false} AppendsUnlessAccepted(ch: Change, pen: Pen, bs: seq<Block>, cur: Option<string>)
    requires ch.preg.Some? && Fits(ch, pen, cur) && pen.value == ch.value
    ensures Appends(ch, pen, bs) <==> ch.value.Some? && !pen.replaced && !AnyAccepted(Entries(bs, cur), ch)
    decreases |bs|
  {
    hide AnyAccepted, Fits, AtBlock;
    if bs == [] {
      NoneAccepted(ch);
    } else {
      BlockSays(ch, pen, bs[0], cur);
      BlockReplaces(ch, pen, bs[0], cur);
      assert [bs[0]] + bs[1..] == bs;
      EntriesConcat([bs[0]], bs[1..], cur);
      AnyConcat(Entries([bs[0]], cur), Entries(bs[1..], Enter(bs[0], cur)), ch);
      AppendsUnlessAccepted(ch, AtBlock(ch, pen, bs[0]).1, bs[1..], Enter(bs[0], cur));
    }
  }

  // ---- the sufficient half

  lemma {:induction false} WantedIsReplaced(es: seq<Entry>, ch: Change, v: string)
    requires ch.preg.Some? && ch.value == Some(v) && ReadBack(ch.name, v) == v
    ensures Wanted(es, ch, v) == Replaced(es, ch)
  {
    hide ReadBack;
    if es != [] {
      WantedIsReplaced(es[1..], ch, v);
    }
  }

  lemma ReplaceIfCan(file: string, section: string, name: string, v: string, preg: Option<string> -> bool)
    requires IsKeyName(section, name) && Parse(file).1 == Clean && CanReplace(file, section, name, v, preg)
    ensures ReplaceWorks(file, section, name, v, preg)
  {
    hide Parse, Appends, Standing, NewLine, NewSection, ReadSection, ReadBack, PlainSubsection, IsSection, Rewritten, Entries, Replaced, AnyAccepted, Plain;
    var ch := Replacing(section, name, v, preg);
    AppendsUnlessAccepted(ch, Start(ch), Parse(file).0, None);
    ReadAsIff(section);
    HeaderStands(ch);
    PlainStands(ch, v);
    WantedIsReplaced(EntriesOf(file), ch, v);
    ReplaceMatching(file, ch);
  }

  // ---- what is put out

  lemma {:induction false} WantedConcat(a: seq<Entry>, b: seq<Entry>, ch: Change, v: string)
    requires ch.preg.Some?
    ensures Wanted(a + b, ch, v) == Wanted(a, ch, v) + Wanted(b, ch, v)
  {
    if a == [] {
      assert a + b == b;
    } else {
      assert (a + b)[1..] == a[1..] + b;
      WantedConcat(a[1..], b, ch, v);
    }
  }

  lemma {:induction false} WantedSame(es: seq<Entry>, ch: Change, v: string)
    requires ch.preg.Some? && !AnyAccepted(es, ch)
    ensures Wanted(es, ch, v) == es
  {
    if es != [] {
      assert forall i :: 0 <= i < |es[1..]| ==> es[1..][i] == es[i + 1];
      assert !Accepts(ch, es[0]);
      WantedSame(es[1..], ch, v);
    }
  }

  // Every block that is put out is one of the old ones, closed, or a new line.
  lemma {:induction false} WrittenStays(ch: Change, pen: Pen, bs: seq<Block>, cur: Option<string>)
    requires IsName(ch.name) && IsSection(ch.section) && AllStay(pen.pending) && AllStay(AllClosed(bs))
    ensures AllStay(Written(ch, pen, bs, cur, false))
    decreases |bs|
  {
    hide Stays, NewLine, NewSection, Closed;
    NewStays(ch);
    if bs != [] {
      var (out, pen') := AtBlock(ch, pen, bs[0]);
      assert AllClosed(bs)[0] == Closed(bs[0]);
      assert AllClosed(bs)[1..] == AllClosed(bs[1..]);
      assert AllStay(out) && AllStay(pen'.pending);
      WrittenStays(ch, pen', bs[1..], Enter(bs[0], cur));
    }
  }

  lemma NewStays(ch: Change)
    requires IsName(ch.name) && IsSection(ch.section)
    ensures Stays(NewSection(ch)) && forall value :: Stays(NewLine(ch, value))
  {
    hide Next, ReadBack, ReadSection, HeaderLine;
    HeaderStands(ch);
    HeaderLineSays(ch.section);
    StandingNext(NewSection(ch), []);
    assert NewSection(ch).text + [] == NewSection(ch).text;
    forall value
      ensures Stays(NewLine(ch, value))
    {
      var q := QuotesFor(value);
      assert NewLine(ch, value).text == "\t" + ch.name + " = " + (q + value + q + "\n");
    }
  }

  lemma FileStays(file: string)
    ensures AllStay(AllClosed(Parse(file).0))
  {
    hide Next, Parse, Standing, Line;
    var bs := Parse(file).0;
    FileIsUsable(file);
    forall i | 0 <= i < |bs|
      ensures Stays(AllClosed(bs)[i])
    {
      ClosedTwice(bs[i]);
      if !Dangles(bs[i]) {
        StandingNext(Closed(bs[i]), []);
        assert Closed(bs[i]).text + [] == Closed(bs[i]).text;
      }
    }
  }

  // ---- a new line among the others

  // The new file reads up to the first line that is new; behind it only the right section
  // and a plain value do.
  lemma RestDecides(a: seq<Block>, b: seq<Block>, ch: Change, v: string, more: seq<Entry>)
    requires AllStanding(a) && AllStay(b) && IsName(ch.name) && LowerAll(ch.name) == ch.name && '\n' !in v
    requires var t := Texts(a) + (ValueText(ch.name, v) + Texts(b));
      Parse(t).1 == Clean && EntriesOf(t) == Entries(a, None) + [Entry(Some(ch.section), ch.name, Some(v))] + more
    ensures Plain(v) && After(a, None) == Some(ch.section)
  {
    hide Next, Standing, Blocks, AllStay, Plain, ValueText, Texts;
    var u := ValueText(ch.name, v) + Texts(b);
    var t := Texts(a) + u;
    NewIsNotMarked(a, ch.name, v, Texts(b));
    assert SkipBom(t) == t;
    BlocksAppend(a, u);
    OnlyPlainStays(ch.name, v, b);
    if Next(u).Found? {
      var c := Next(u).block;
      BlockFound(u);
      var rest := Blocks(u[|c.text|..]).0;
      EntriesConcat(a, [c] + rest, None);
      assert ([c] + rest)[1..] == rest;
      assert Entries([c] + rest, After(a, None))[0] == Entry(After(a, None), LowerAll(c.name), c.value);
      assert EntriesOf(t)[|Entries(a, None)|] == Entry(Some(ch.section), ch.name, Some(v));
    } else {
      NothingFound(u);
    }
  }

  lemma NewIsNotMarked(a: seq<Block>, name: string, v: string, u: string)
    requires AllStanding(a)
    ensures SkipBom(Texts(a) + (ValueText(name, v) + u)) == Texts(a) + (ValueText(name, v) + u)
  {
    hide Next, Standing;
    if a == [] {
      assert Texts(a) + (ValueText(name, v) + u) == ValueText(name, v) + u;
    } else {
      StandingNext(a[0], []);
      assert a[0].text + [] == a[0].text;
      NoMark(a[0].text);
    }
  }

  // What is put out, at the first of the lines that are new.
  ghost predicate At(ch: Change, pen: Pen, bs: seq<Block>, cur: Option<string>, v: string, a: seq<Block>, b: seq<Block>, more: seq<Entry>)
    requires ch.preg.Some?
  {
    && Written(ch, pen, bs, cur, false) == a + ([NewLine(ch, v)] + b)
    && AllStanding(a) && AllStay(b)
    && Wanted(Entries(bs, cur), ch, v) == Entries(a, cur) + [Entry(Some(ch.section), ch.name, Some(v))] + more
  }

  ghost predicate Usual(ch: Change, pen: Pen, bs: seq<Block>, cur: Option<string>, v: string) {
    && IsName(ch.name) && IsSection(ch.section) && Fits(ch, pen, cur) && ch.preg.Some? && pen.value == ch.value == Some(v)
    && Usable(bs) && AllStay(AllClosed(bs)) && AllStanding(pen.pending)
  }

  // The key has been found: what stands before the first new line is as it was.
  lemma {:induction false} FirstReplaced(ch: Change, pen: Pen, bs: seq<Block>, cur: Option<string>, v: string)
    returns (a: seq<Block>, b: seq<Block>, more: seq<Entry>)
    requires Usual(ch, pen, bs, cur, v) && AnyAccepted(Entries(bs, cur), ch)
    ensures At(ch, pen, bs, cur, v, a, b, more)
    decreases |bs|
  {
    hide Usual, At, Entries, Matches, AtBlock, AnyAccepted, Written;
    UsualFacts(ch, pen, bs, cur, v);
    assert bs != [] by { NoneFound(cur, ch); }
    if bs[0].VariableBlock? && Matches(ch, pen, bs[0]) {
      b, more := ReplacedHere(ch, pen, bs, cur, v);
      a := pen.pending;
    } else {
      var pen' := AtBlock(ch, pen, bs[0]).1;
      KeptHere(ch, pen, bs, cur, v);
      var a';
      a', b, more := FirstReplaced(ch, pen', bs[1..], Enter(bs[0], cur), v);
      a := ReplacedLater(ch, pen, bs, cur, v, a', b, more);
    }
  }

  lemma UsualFacts(ch: Change, pen: Pen, bs: seq<Block>, cur: Option<string>, v: string)
    requires Usual(ch, pen, bs, cur, v)
    ensures ch.preg.Some?
  {
  }

  lemma ReplacedHere(ch: Change, pen: Pen, bs: seq<Block>, cur: Option<string>, v: string)
    returns (b: seq<Block>, more: seq<Entry>)
    requires Usual(ch, pen, bs, cur, v) && bs != [] && bs[0].VariableBlock? && Matches(ch, pen, bs[0])
    ensures At(ch, pen, bs, cur, v, pen.pending, b, more)
  {
    hide Stays, NewLine, NewSection, Standing, Fits, Wanted, Entries, Matches;
    var (out, pen') := AtBlock(ch, pen, bs[0]);
    var cur' := Enter(bs[0], cur);
    assert AllClosed(bs)[1..] == AllClosed(bs[1..]);
    EntriesFirst(bs, cur);
    WantedConcat(Entries([bs[0]], cur), Entries(bs[1..], cur'), ch, v);
    b, more := Written(ch, pen', bs[1..], cur', false), Wanted(Entries(bs[1..], cur'), ch, v);
    WrittenStays(ch, pen', bs[1..], cur');
    MatchIsWanted(ch, pen, bs[0], cur, v);
    assert out + b == pen.pending + ([NewLine(ch, v)] + b);
  }

  lemma KeptHere(ch: Change, pen: Pen, bs: seq<Block>, cur: Option<string>, v: string)
    requires Usual(ch, pen, bs, cur, v) && bs != [] && !(bs[0].VariableBlock? && Matches(ch, pen, bs[0]))
    requires AnyAccepted(Entries(bs, cur), ch)
    ensures var (out, pen') := AtBlock(ch, pen, bs[0]); var cur' := Enter(bs[0], cur);
      && Usual(ch, pen', bs[1..], cur', v) && AnyAccepted(Entries(bs[1..], cur'), ch)
      && AllStanding(out) && After(out, cur) == cur' && Wanted(Entries([bs[0]], cur), ch, v) == Entries(out, cur)
  {
    hide Stays, NewLine, NewSection, Standing, Fits, Wanted, Entries, Matches, AnyAccepted;
    BlockSays(ch, pen, bs[0], cur);
    assert AllClosed(bs)[1..] == AllClosed(bs[1..]) && AllClosed(bs)[0] == Closed(bs[0]);
    EntriesFirst(bs, cur);
    KeptIsWanted(ch, pen, bs[0], cur, v);
    AnyConcat(Entries([bs[0]], cur), Entries(bs[1..], Enter(bs[0], cur)), ch);
    if bs[1..] == [] {
      NoneFound(Enter(bs[0], cur), ch);
    }
    UsableRest(bs);
    KeptStands(ch, pen, bs[0]);
  }

  lemma ReplacedLater(ch: Change, pen: Pen, bs: seq<Block>, cur: Option<string>, v: string, a': seq<Block>, b: seq<Block>, more: seq<Entry>)
    returns (a: seq<Block>)
    requires ch.preg.Some? && bs != []
    requires var (out, pen') := AtBlock(ch, pen, bs[0]); var cur' := Enter(bs[0], cur);
      && At(ch, pen', bs[1..], cur', v, a', b, more)
      && AllStanding(out) && After(out, cur) == cur' && Wanted(Entries([bs[0]], cur), ch, v) == Entries(out, cur)
    ensures At(ch, pen, bs, cur, v, a, b, more)
  {
    hide NewLine, Standing, Stays, Wanted, Entries, AtBlock;
    var out := AtBlock(ch, pen, bs[0]).0;
    var cur' := Enter(bs[0], cur);
    a := out + a';
    EntriesFirst(bs, cur);
    WantedConcat(Entries([bs[0]], cur), Entries(bs[1..], cur'), ch, v);
    EntriesConcat(out, a', cur);
    assert out + (a' + ([NewLine(ch, v)] + b)) == a + ([NewLine(ch, v)] + b);
    var e := [Entry(Some(ch.section), ch.name, Some(v))];
    assert Entries(out, cur) + (Entries(a', cur') + e + more) == Entries(a, cur) + e + more;
  }

  lemma NoneFound(cur: Option<string>, ch: Change)
    requires ch.preg.Some?
    ensures !AnyAccepted(Entries([], cur), ch)
  {
  }

  lemma EntriesFirst(bs: seq<Block>, cur: Option<string>)
    requires bs != []
    ensures Entries(bs, cur) == Entries([bs[0]], cur) + Entries(bs[1..], Enter(bs[0], cur))
    ensures After([bs[0]], cur) == Enter(bs[0], cur)
  {
    assert [bs[0]] + bs[1..] == bs && [bs[0]][1..] == [];
    EntriesConcat([bs[0]], bs[1..], cur);
  }

  lemma UsableRest(bs: seq<Block>)
    requires Usable(bs) && bs != []
    ensures Usable(bs[1..]) && (|bs| > 1 ==> Standing(Closed(bs[0]))) && (!Dangles(bs[0]) ==> Standing(Closed(bs[0])))
  {
    hide Standing, Next;
    assert forall i :: 0 <= i < |bs[1..]| ==> bs[1..][i] == bs[i + 1];
  }

  lemma MatchIsWanted(ch: Change, pen: Pen, b: Block, cur: Option<string>, v: string)
    requires b.VariableBlock? && Matches(ch, pen, b) && Fits(ch, pen, cur) && ch.preg.Some?
    ensures Wanted(Entries([b], cur), ch, v) == [Entry(Some(ch.section), ch.name, Some(v))] && Entries(pen.pending, cur) == []
  {
    CommentsSayNothing(pen.pending, cur);
    assert [b][1..] == [] && [EntryOf(b, cur)][1..] == [];
    assert Entries([b], cur) == [EntryOf(b, cur)];
  }

  lemma KeptIsWanted(ch: Change, pen: Pen, b: Block, cur: Option<string>, v: string)
    requires Fits(ch, pen, cur) && ch.preg.Some? && !(b.VariableBlock? && Matches(ch, pen, b))
    ensures Wanted(Entries([b], cur), ch, v) == Entries([b], cur) == Entries(AtBlock(ch, pen, b).0, cur)
    ensures !AnyAccepted(Entries([b], cur), ch)
  {
    assert [b][1..] == [];
    match b {
      case SectionBlock(_, _) => SectionSays(ch, pen, b, cur);
      case VariableBlock(_, _, _, _) =>
        VariableSays(ch, pen, b, cur);
        assert [EntryOf(b, cur)][1..] == [];
        assert Entries([b], cur) == [EntryOf(b, cur)];
      case CommentBlock(_) =>
    }
  }

  lemma KeptStands(ch: Change, pen: Pen, b: Block)
    requires ch.preg.Some? && !(b.VariableBlock? && Matches(ch, pen, b)) && AllStanding(pen.pending) && Standing(Closed(b))
    ensures var (out, pen') := AtBlock(ch, pen, b); AllStanding(out) && AllStanding(pen'.pending)
  {
    hide Standing;
  }

  // ---- a new line at the end

  lemma StepUnaccepted(ch: Change, pen: Pen, b: Block, cur: Option<string>)
    requires ch.preg.Some? && pen.value == ch.value && Fits(ch, pen, cur) && !AnyAccepted(Entries([b], cur), ch)
    ensures var (out, pen') := AtBlock(ch, pen, b);
      out + pen'.pending == pen.pending + [Closed(b)] && pen'.value == pen.value && pen'.replaced == pen.replaced
  {
    hide NewLine, Closed, AnyAccepted, Entries, Matches;
    if b.VariableBlock? {
      MatchIsAccepted(ch, pen, b, cur);
    }
    assert [] + pen.pending == pen.pending;
  }

  lemma MatchIsAccepted(ch: Change, pen: Pen, b: Block, cur: Option<string>)
    requires ch.preg.Some? && Fits(ch, pen, cur) && b.VariableBlock?
    ensures Matches(ch, pen, b) ==> AnyAccepted(Entries([b], cur), ch)
  {
    assert [b][1..] == [];
    assert Entries([b], cur) == [EntryOf(b, cur)];
    if Matches(ch, pen, b) {
      assert Accepts(ch, Entries([b], cur)[0]);
    }
  }

  lemma {:induction false} WrittenUnaccepted(ch: Change, pen: Pen, bs: seq<Block>, cur: Option<string>, v: string)
    requires ch.preg.Some? && pen.value == ch.value == Some(v) && !pen.replaced && Fits(ch, pen, cur) && !AnyAccepted(Entries(bs, cur), ch)
    ensures Written(ch, pen, bs, cur, false) == pen.pending + AllClosed(bs) + Tail(ch, v, After(bs, cur))
    decreases |bs|
  {
    hide NewLine, NewSection, Closed, AnyAccepted, Entries;
    if bs == [] {
      assert pen.pending + AllClosed(bs) == pen.pending;
    } else {
      var (out, pen') := AtBlock(ch, pen, bs[0]);
      BlockSays(ch, pen, bs[0], cur);
      EntriesFirst(bs, cur);
      AnyConcat(Entries([bs[0]], cur), Entries(bs[1..], Enter(bs[0], cur)), ch);
      StepUnaccepted(ch, pen, bs[0], cur);
      hide AtBlock, Fits, Tail;
      WrittenUnaccepted(ch, pen', bs[1..], Enter(bs[0], cur), v);
      assert AllClosed(bs) == [Closed(bs[0])] + AllClosed(bs[1..]);
      Regroup(out, pen'.pending, pen.pending, [Closed(bs[0])], AllClosed(bs[1..]), Tail(ch, v, After(bs, cur)));
    }
  }

  // Behind a variable that dangles the line becomes part of that variable's value.
  lemma DanglingFails(file: string, section: string, name: string, v: string, preg: Option<string> -> bool)
    requires IsKeyName(section, name) && Parse(file).1 == Clean && '\n' !in v && DanglesAtEnd(Parse(file).0)
    requires !AnyAccepted(EntriesOf(file), Replacing(section, name, v, preg))
    ensures !ReplaceWorks(file, section, name, v, preg)
  {
    hide Next, Blocks, Entries, AllClosed, Solid, Texts, Tail, AnyAccepted, Wanted, Standing, Closed, SkipBom;
    var ch := Replacing(section, name, v, preg);
    var bs := Parse(file).0;
    var init, b := bs[..|bs| - 1], bs[|bs| - 1];
    var tail := Tail(ch, v, After(bs, None));
    WrittenUnaccepted(ch, Start(ch), bs, None, v);
    assert [] + AllClosed(bs) == AllClosed(bs);
    FileIsUsable(file);
    TextsOfAll(bs, tail);
    var t, u := Closed(b).text, Texts(tail);
    DanglingFacts(bs);
    BlocksAppend(AllClosed(init), t + u);
    NotMarked(AllClosed(init), Closed(b), u);
    TailIsSolid(ch, v, After(bs, None));
    WantedSame(EntriesOf(file), ch, v);
    DanglingDiffers(init, b, u);
    assert init + [b] == bs;
  }

  lemma DanglingDiffers(init: seq<Block>, b: Block, u: string)
    requires b.VariableBlock? && Solid(u)
    requires var t := Closed(b).text; t != [] && Line(t) == t && Next(t) == Found(Closed(b)) && Dangles(Closed(b))
    ensures var (more, outcome) := Blocks(Closed(b).text + u); var n := |Entries(init, None)|;
      outcome == Clean ==>
        && |Entries(init + [b], None)| > n && |Entries(AllClosed(init) + more, None)| > n
        && Entries(init + [b], None)[n] != Entries(AllClosed(init) + more, None)[n]
  {
    hide Next, Blocks, Entries, AllClosed, Solid, Line;
    var t := Closed(b).text;
    DanglingGrows(t, u);
    if Next(t + u).Found? {
      var c := Next(t + u).block;
      BlockFound(t + u);
      var more := Blocks((t + u)[|c.text|..]).0;
      Outgrown(init, b, c, more);
    } else {
      NothingFound(t + u);
    }
  }

  lemma DanglingFacts(bs: seq<Block>)
    requires Usable(bs) && DanglesAtEnd(bs)
    ensures var b := bs[|bs| - 1]; var t := Closed(b).text;
      && t != [] && Line(t) == t && Next(t) == Found(Closed(b)) && Dangles(Closed(b)) && b.VariableBlock?
      && Closed(b).value == b.value && AllStanding(AllClosed(bs[..|bs| - 1]))
  {
    hide Next, Standing, Line;
    ClosedTwice(bs[|bs| - 1]);
    InitStands(bs);
  }

  lemma Outgrown(init: seq<Block>, b: Block, c: Block, more: seq<Block>)
    requires b.VariableBlock? && c.VariableBlock? && b.value.Some? && c.value.Some? && |c.value.value| > |b.value.value|
    ensures var n := |Entries(init, None)|;
      && |Entries(init + [b], None)| > n && |Entries(AllClosed(init) + ([c] + more), None)| > n
      && Entries(init + [b], None)[n] != Entries(AllClosed(init) + ([c] + more), None)[n]
  {
    hide AllClosed;
    var cur := After(init, None);
    ClosedSaysTheSame(init, None);
    EntriesConcat(init, [b], None);
    EntriesConcat(AllClosed(init), [c] + more, None);
    assert [b][1..] == [] && ([c] + more)[1..] == more;
    assert Entries([b], cur) == [EntryOf(b, cur)];
    assert Entries([c] + more, cur) == [EntryOf(c, cur)] + Entries(more, cur);
  }

  // ---- both halves

  lemma AcceptedDecides(file: string, section: string, name: string, v: string, preg: Option<string> -> bool)
    requires IsKeyName(section, name) && Parse(file).1 == Clean && '\n' !in v
    requires AnyAccepted(EntriesOf(file), Replacing(section, name, v, preg)) && ReplaceWorks(file, section, name, v, preg)
    ensures Plain(v)
  {
    hide Parse, Entries, AnyAccepted, Wanted, Standing, Plain, Stays, Usable, Texts, ValueText;
    var ch := Replacing(section, name, v, preg);
    FileIsUsable(file);
    FileStays(file);
    var a, b, more := FirstReplaced(ch, Start(ch), Parse(file).0, None, v);
    TextsAround(a, ch, v, b);
    var all := Entries(a, None) + [Entry(Some(section), name, Some(v))] + more;
    assert all + [] == all;
    RestDecides(a, b, ch, v, more);
  }

  lemma TextsAround(a: seq<Block>, ch: Change, v: string, b: seq<Block>)
    ensures Texts(a + ([NewLine(ch, v)] + b)) == Texts(a) + (ValueText(ch.name, v) + Texts(b))
  {
    hide Texts, ReadBack, ValueText;
    TextsConcat(a, [NewLine(ch, v)] + b);
    TextsOfOne(NewLine(ch, v), b);
  }

  lemma AppendedDecides(file: string, section: string, name: string, v: string, preg: Option<string> -> bool)
    requires IsKeyName(section, name) && Parse(file).1 == Clean && '\n' !in v && !DanglesAtEnd(Parse(file).0)
    requires !AnyAccepted(EntriesOf(file), Replacing(section, name, v, preg)) && ReplaceWorks(file, section, name, v, preg)
    ensures Plain(v) && (After(Parse(file).0, None) != Some(section) ==> PlainSubsection(section))
  {
    hide Parse, Entries, AnyAccepted, Wanted, Standing, Plain, Stays, Texts, ValueText, PlainSubsection, ReadSection, AllClosed, NewLine, IsSection;
    var ch := Replacing(section, name, v, preg);
    var bs := Parse(file).0;
    var cur := After(bs, None);
    WrittenUnaccepted(ch, Start(ch), bs, None, v);
    WantedSame(EntriesOf(file), ch, v);
    HeaderStands(ch);
    ReadAsIff(section);
    var head := if cur != Some(section) then [NewSection(ch)] else [];
    var a := AllClosed(bs) + head;
    assert [] + AllClosed(bs) + (head + [NewLine(ch, v)]) == a + ([NewLine(ch, v)] + []);
    TextsAround(a, ch, v, []);
    FileIsUsable(file);
    AllStands(bs);
    ClosedSaysTheSame(bs, None);
    EntriesConcat(AllClosed(bs), head, None);
    AfterConcat(AllClosed(bs), head, None);
    HeaderSaysNothing(ch, cur);
    var all := Entries(a, None) + [Entry(Some(section), name, Some(v))];
    assert all + [] == all;
    RestDecides(a, [], ch, v, []);
  }

  lemma HeaderSaysNothing(ch: Change, cur: Option<string>)
    ensures Entries([NewSection(ch)], cur) == [] && After([NewSection(ch)], cur) == Some(ReadSection(ch.section))
    ensures Entries([], cur) == [] && After([], cur) == cur
  {
    hide ReadSection;
    assert [NewSection(ch)][1..] == [];
  }

  lemma AllStands(bs: seq<Block>)
    requires Usable(bs) && !DanglesAtEnd(bs)
    ensures AllStanding(AllClosed(bs))
  {
    hide Standing, Next;
  }

  // Setting with a pattern works exactly under the conditions that a caller can check.
  lemma ReplaceWorksIff(file: string, section: string, name: string, v: string, preg: Option<string> -> bool)
    requires IsKeyName(section, name) && Parse(file).1 == Clean && '\n' !in v
    ensures ReplaceWorks(file, section, name, v, preg) <==> CanReplace(file, section, name, v, preg)
  {
    hide Parse, Entries, AnyAccepted, Wanted, Plain, PlainSubsection, IsSection, ReplaceWorks, IsKeyName;
    var ch := Replacing(section, name, v, preg);
    if CanReplace(file, section, name, v, preg) {
      ReplaceIfCan(file, section, name, v, preg);
    } else if ReplaceWorks(file, section, name, v, preg) {
      if AnyAccepted(EntriesOf(file), ch) {
        AcceptedDecides(file, section, name, v, preg);
      } else if DanglesAtEnd(Parse(file).0) {
        DanglingFails(file, section, name, v, preg);
      } else {
        AppendedDecides(file, section, name, v, preg);
      }
    }
  }

  // ---- values with newlines

  // The new file reads as the very lines that were put out, and says what it should.
  ghost predicate ReadsAsWritten(file: string, section: string, name: string, v: string, preg: Option<string> -> bool) {
    var ch := Replacing(section, name, v, preg);
    && ReplaceWorks(file, section, name, v, preg)
    && Parse(Rewritten(file, ch)).0 == Written(ch, Start(ch), Parse(file).0, None, false)
  }

  // The value of the first new line, where it is read as it was put out.
  lemma WrittenDecides(file: string, section: string, name: string, v: string, preg: Option<string> -> bool)
    requires IsKeyName(section, name) && Parse(file).1 == Clean && ReadsAsWritten(file, section, name, v, preg)
    ensures ReadBack(name, v) == v
  {
    hide Parse, Entries, AnyAccepted, Wanted, Standing, Stays, Usable, AllClosed, ReadSection, ReadBack;
    var ch := Replacing(section, name, v, preg);
    var bs := Parse(file).0;
    if AnyAccepted(EntriesOf(file), ch) {
      FileIsUsable(file);
      FileStays(file);
      var a, b, more := FirstReplaced(ch, Start(ch), bs, None, v);
      var all := Entries(a, None) + [Entry(Some(section), name, Some(v))] + more;
      assert all + [] == all;
      NewLineInside(a, b, ch, v);
    } else {
      WrittenUnaccepted(ch, Start(ch), bs, None, v);
      WantedSame(EntriesOf(file), ch, v);
      var cur := After(bs, None);
      var head := if cur != Some(section) then [NewSection(ch)] else [];
      var a := AllClosed(bs) + head;
      LastBehind(AllClosed(bs), head, NewLine(ch, v));
      ClosedSaysTheSame(bs, None);
      EntriesConcat(AllClosed(bs), head, None);
      HeaderSaysNothing(ch, cur);
      var all := Entries(bs, None) + [Entry(Some(section), name, Some(v))];
      NewLineInside(a, [], ch, v);
    }
  }

  lemma LastBehind(a: seq<Block>, b: seq<Block>, c: Block)
    ensures [] + a + (b + [c]) == a + b + ([c] + [])
  {
  }

  lemma NewLineInside(a: seq<Block>, b: seq<Block>, ch: Change, v: string)
    ensures var es := Entries(a + ([NewLine(ch, v)] + b), None); var n := |Entries(a, None)|;
      n < |es| && es[n].value == Some(ReadBack(ch.name, v))
  {
    hide ReadBack;
    EntriesConcat(a, [NewLine(ch, v)] + b, None);
    assert ([NewLine(ch, v)] + b)[1..] == b;
  }

  // In this sense it works exactly under the same conditions, whatever the value. (What is
  // behind a value of several lines may be taken in by it; the entries alone could then
  // come out right by chance.)
  lemma ReadsAsWrittenIff(file: string, section: string, name: string, v: string, preg: Option<string> -> bool)
    requires IsKeyName(section, name) && Parse(file).1 == Clean
    ensures ReadsAsWritten(file, section, name, v, preg) <==> CanReplace(file, section, name, v, preg)
  {
    hide Parse, Entries, AnyAccepted, Wanted, Plain, PlainSubsection, IsSection, ReplaceWorks, Written, Standing, NewSection, NewLine, Appends, ReadBack, ReadSection, Rewritten;
    var ch := Replacing(section, name, v, preg);
    if CanReplace(file, section, name, v, preg) {
      ReplaceIfCan(file, section, name, v, preg);
      AppendsUnlessAccepted(ch, Start(ch), Parse(file).0, None);
      HeaderStands(ch);
      PlainStands(ch, v);
      RewrittenParses(file, ch);
    } else if ReadsAsWritten(file, section, name, v, preg) {
      WrittenDecides(file, section, name, v, preg);
      ReadBackIff(name, v);
      assert '\n' !in v by { PlainIsOneLine(v); }
      ReplaceWorksIff(file, section, name, v, preg);
    }
  }

  lemma PlainIsOneLine(v: string)
    requires Plain(v)
    ensures '\n' !in v
  {
  }
}
