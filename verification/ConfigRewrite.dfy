// config_write of libgit2/src/config_file.c on blocks: what the write_on_ callbacks put
// out for the blocks of the old file, and what becomes of the entries.
module ConfigRewrite {
  import opened Options
  import opened ConfigText
  import opened ConfigParse

  // What a file says: read_on_variable.
  datatype Entry = Entry(section: Option<string>, name: string, value: Option<string>)

  // The entries of the blocks, under the section cur to begin with.
  function Entries(bs: seq<Block>, cur: Option<string>): seq<Entry> {
    if bs == [] then []
    else match bs[0]
      case SectionBlock(_, name) => Entries(bs[1..], Some(name))
      case VariableBlock(_, name, value, _) => [Entry(cur, LowerAll(name), value)] + Entries(bs[1..], cur)
      case CommentBlock(_) => Entries(bs[1..], cur)
  }

  function After(bs: seq<Block>, cur: Option<string>): Option<string> {
    if bs == [] then cur else After(bs[1..], if bs[0].SectionBlock? then Some(bs[0].name) else cur)
  }

  function EntriesOf(file: string): seq<Entry> {
    Entries(Parse(file).0, None)
  }

  // ---- the writer

  // The arguments of config_write. The value is written as it is; preg, if there is one,
  // says of which old values the new one takes the place.
  datatype Change = Change(section: string, name: string, value: Option<string>, preg: Option<Option<string> -> bool>)

  // The changing fields of write_data.
  datatype Pen = Pen(inSection: bool, replaced: bool, value: Option<string>, pending: seq<Block>)

  // quotes_for_value
  function QuotesFor(value: string): string {
    if value == [] || value[0] == ' ' || ';' in value || '#' in value || value[|value| - 1] == ' ' then "\"" else ""
  }

  function ValueText(name: string, value: string): string {
    "\t" + name + " = " + QuotesFor(value) + value + QuotesFor(value) + "\n"
  }

  // What a value reads as once it has been written.
  function ReadBack(name: string, value: string): string {
    match Next(ValueText(name, value))
    case Found(VariableBlock(_, _, Some(v), _)) => v
    case _ => []
  }

  // write_value
  function NewLine(ch: Change, value: string): Block {
    VariableBlock(ValueText(ch.name, value), ch.name, Some(ReadBack(ch.name, value)), false)
  }

  // write_section: what comes after the first dot is the subsection.
  function HeaderText(section: string): string {
    var dot := First(section, '.');
    if dot == |section| then "[" + section + "]\n"
    else "[" + section[..dot] + " \"" + Escape(section[dot + 1..]) + "\"]\n"
  }

  // What a section reads as once its header has been written.
  function ReadSection(section: string): string {
    match Next(HeaderText(section))
    case Found(SectionBlock(_, name)) => name
    case _ => []
  }

  function NewSection(ch: Change): Block {
    SectionBlock(HeaderText(ch.section), ReadSection(ch.section))
  }

  // write_on_section
  function AtSection(ch: Change, pen: Pen, b: Block): (seq<Block>, Pen)
    requires b.SectionBlock?
  {
    var leave := pen.inSection && ch.preg.None? && pen.value.Some?;
    ((if leave then [NewLine(ch, pen.value.value)] else []) + pen.pending + [Closed(b)],
     Pen(b.name == ch.section, pen.replaced, if leave then None else pen.value, []))
  }

  predicate Matches(ch: Change, pen: Pen, b: Block)
    requires b.VariableBlock?
  {
    pen.inSection && LowerAll(ch.name) == LowerAll(b.name) && (ch.preg.None? || ch.preg.value(b.value))
  }

  // write_on_variable
  function AtVariable(ch: Change, pen: Pen, b: Block): (seq<Block>, Pen)
    requires b.VariableBlock?
  {
    if !Matches(ch, pen, b) then (pen.pending + [Closed(b)], pen.(pending := []))
    else if pen.value.None? then (pen.pending, pen.(pending := [], replaced := true))
    else (pen.pending + [NewLine(ch, pen.value.value)],
          pen.(pending := [], replaced := true, value := if ch.preg.None? then None else pen.value))
  }

  // write_on_comment
  function AtComment(pen: Pen, b: Block): Pen {
    pen.(pending := pen.pending + [Closed(b)])
  }

  predicate Appending(ch: Change, pen: Pen) {
    (ch.preg.None? || !pen.replaced) && pen.value.Some?
  }

  // write_on_eof
  function AtEnd(ch: Change, pen: Pen, cur: Option<string>): seq<Block> {
    pen.pending +
    if Appending(ch, pen) then (if cur != Some(ch.section) then [NewSection(ch)] else []) + [NewLine(ch, pen.value.value)]
    else []
  }

  // What one block leads to.
  function AtBlock(ch: Change, pen: Pen, b: Block): (seq<Block>, Pen) {
    match b
    case SectionBlock(_, _) => AtSection(ch, pen, b)
    case VariableBlock(_, _, _, _) => AtVariable(ch, pen, b)
    case CommentBlock(_) => ([], AtComment(pen, b))
  }

  function Enter(b: Block, cur: Option<string>): Option<string> {
    if b.SectionBlock? then Some(b.name) else cur
  }

  // The whole run. lost says that a header could not be read, after which the source
  // knows no section.
  function Written(ch: Change, pen: Pen, bs: seq<Block>, cur: Option<string>, lost: bool): seq<Block>
    decreases |bs|
  {
    if bs == [] then AtEnd(ch, pen, if lost then None else cur)
    else
      var (out, pen') := AtBlock(ch, pen, bs[0]);
      out + Written(ch, pen', bs[1..], Enter(bs[0], cur), lost)
  }

  // Whether something is put out at the end of the file, and whether under a new header.
  predicate Appends(ch: Change, pen: Pen, bs: seq<Block>)
    decreases |bs|
  {
    if bs == [] then Appending(ch, pen) else Appends(ch, AtBlock(ch, pen, bs[0]).1, bs[1..])
  }

  predicate NeedsSection(ch: Change, pen: Pen, bs: seq<Block>, cur: Option<string>) {
    Appends(ch, pen, bs) && After(bs, cur) != Some(ch.section)
  }

  // No header is written, or it reads as it should.
  predicate HeaderReads(ch: Change, pen: Pen, bs: seq<Block>, cur: Option<string>) {
    NeedsSection(ch, pen, bs, cur) ==> ReadSection(ch.section) == ch.section
  }

  function Start(ch: Change): Pen {
    Pen(false, false, ch.value, [])
  }

  // config_write: the new text of the file. A file that breaks off is written as far as it
  // was read.
  function Rewritten(file: string, ch: Change): string {
    var (bs, outcome) := Parse(file);
    Texts(Written(ch, Start(ch), bs, None, outcome == Broken(true)))
  }

  // ---- what becomes of the entries

  predicate IsKey(e: Entry, ch: Change) {
    e.section == Some(ch.section) && e.name == ch.name
  }

  function Keys(es: seq<Entry>, ch: Change): seq<Entry> {
    if es == [] then [] else (if IsKey(es[0], ch) then [es[0]] else []) + Keys(es[1..], ch)
  }

  function Others(es: seq<Entry>, ch: Change): seq<Entry> {
    if es == [] then [] else (if IsKey(es[0], ch) then [] else [es[0]]) + Others(es[1..], ch)
  }

  function NewEntry(ch: Change, value: string): Entry {
    Entry(Some(ch.section), ch.name, Some(ReadBack(ch.name, value)))
  }

  lemma {:induction false} EntriesConcat(a: seq<Block>, b: seq<Block>, cur: Option<string>)
    ensures Entries(a + b, cur) == Entries(a, cur) + Entries(b, After(a, cur))
  {
    if a == [] {
      assert a + b == b;
    } else {
      assert (a + b)[1..] == a[1..] + b;
      EntriesConcat(a[1..], b, Enter(a[0], cur));
    }
  }

  lemma {:induction false} KeysConcat(a: seq<Entry>, b: seq<Entry>, ch: Change)
    ensures Keys(a + b, ch) == Keys(a, ch) + Keys(b, ch) && Others(a + b, ch) == Others(a, ch) + Others(b, ch)
  {
    if a == [] {
      assert a + b == b;
    } else {
      assert (a + b)[1..] == a[1..] + b;
      KeysConcat(a[1..], b, ch);
    }
  }

  ghost predicate AllComments(bs: seq<Block>) {
    forall i :: 0 <= i < |bs| ==> bs[i].CommentBlock?
  }

  lemma {:induction false} CommentsSayNothing(bs: seq<Block>, cur: Option<string>)
    requires AllComments(bs)
    ensures Entries(bs, cur) == [] && After(bs, cur) == cur
  {
    if bs != [] {
      CommentsSayNothing(bs[1..], cur);
    }
  }

  // The pen knows whether the current section is the one to write to.
  ghost predicate Fits(ch: Change, pen: Pen, cur: Option<string>) {
    AllComments(pen.pending) && (pen.inSection <==> cur == Some(ch.section)) && LowerAll(ch.name) == ch.name
  }

  // The entries of what one block leads to, by kind.
  lemma SectionSays(ch: Change, pen: Pen, b: Block, cur: Option<string>)
    requires b.SectionBlock? && Fits(ch, pen, cur)
    ensures var (out, pen') := AtSection(ch, pen, b);
      && Fits(ch, pen', Some(b.name)) && After(out, cur) == Some(b.name)
      && Entries(out, cur) == if pen.inSection && ch.preg.None? && pen.value.Some? then [NewEntry(ch, pen.value.value)] else []
  {
    var (out, pen') := AtSection(ch, pen, b);
    CommentsSayNothing(pen.pending, cur);
    EntriesConcat(pen.pending, [Closed(b)], cur);
    AfterConcat(pen.pending, [Closed(b)], cur);
    assert Entries([Closed(b)], cur) == [] by { assert [Closed(b)][1..] == []; }
    if pen.inSection && ch.preg.None? && pen.value.Some? {
      var n := NewLine(ch, pen.value.value);
      assert out == [n] + (pen.pending + [Closed(b)]);
      assert Entries([n], cur) == [NewEntry(ch, pen.value.value)] by { assert [n][1..] == []; }
      EntriesConcat([n], pen.pending + [Closed(b)], cur);
      AfterConcat([n], pen.pending + [Closed(b)], cur);
    } else {
      assert out == pen.pending + [Closed(b)];
    }
  }

  lemma {:induction false} AfterConcat(a: seq<Block>, b: seq<Block>, cur: Option<string>)
    ensures After(a + b, cur) == After(b, After(a, cur))
  {
    if a == [] {
      assert a + b == b;
    } else {
      assert (a + b)[1..] == a[1..] + b;
      AfterConcat(a[1..], b, Enter(a[0], cur));
    }
  }

  function EntryOf(b: Block, cur: Option<string>): Entry
    requires b.VariableBlock?
  {
    Entry(cur, LowerAll(b.name), b.value)
  }

  lemma VariableSays(ch: Change, pen: Pen, b: Block, cur: Option<string>)
    requires b.VariableBlock? && Fits(ch, pen, cur)
    ensures var (out, pen') := AtVariable(ch, pen, b);
      && Fits(ch, pen', cur) && After(out, cur) == cur
      && Entries(out, cur) ==
         if !Matches(ch, pen, b) then [EntryOf(b, cur)]
         else if pen.value.None? then [] else [NewEntry(ch, pen.value.value)]
  {
    CommentsSayNothing(pen.pending, cur);
    var n := if !Matches(ch, pen, b) then [Closed(b)] else if pen.value.None? then [] else [NewLine(ch, pen.value.value)];
    assert AtVariable(ch, pen, b).0 == pen.pending + n;
    EntriesConcat(pen.pending, n, cur);
    AfterConcat(pen.pending, n, cur);
    assert n != [] ==> n[1..] == [];
  }

  lemma EndSays(ch: Change, pen: Pen, cur: Option<string>)
    requires Fits(ch, pen, cur) && HeaderReads(ch, pen, [], cur)
    ensures Entries(AtEnd(ch, pen, cur), cur) == if Appending(ch, pen) then [NewEntry(ch, pen.value.value)] else []
  {
    hide NewLine, NewSection, NewEntry, ReadSection;
    CommentsSayNothing(pen.pending, cur);
    var more := AtEnd(ch, pen, cur)[|pen.pending|..];
    assert AtEnd(ch, pen, cur) == pen.pending + more;
    EntriesConcat(pen.pending, more, cur);
    if Appending(ch, pen) {
      NewLineSays(ch, pen.value.value, cur);
    }
  }

  lemma NewLineSays(ch: Change, value: string, cur: Option<string>)
    ensures Entries([NewSection(ch), NewLine(ch, value)], cur) == Entries([NewLine(ch, value)], Some(ReadSection(ch.section)))
    ensures LowerAll(ch.name) == ch.name ==> Entries([NewLine(ch, value)], Some(ch.section)) == [NewEntry(ch, value)]
    ensures [NewSection(ch)] + [NewLine(ch, value)] == [NewSection(ch), NewLine(ch, value)]
    ensures [] + [NewLine(ch, value)] == [NewLine(ch, value)]
  {
    assert [NewSection(ch), NewLine(ch, value)][1..] == [NewLine(ch, value)];
    assert [NewLine(ch, value)][1..] == [];
  }

  // Setting (and, without a value, deleting) a key: the others stay what they are, where
  // they are, and the key is there exactly once, or not at all.
  lemma {:induction false} WrittenSets(ch: Change, pen: Pen, bs: seq<Block>, cur: Option<string>)
    requires Fits(ch, pen, cur) && ch.preg.None? && HeaderReads(ch, pen, bs, cur)
    ensures var es := Entries(Written(ch, pen, bs, cur, false), cur);
      && Others(es, ch) == Others(Entries(bs, cur), ch)
      && Keys(es, ch) == if pen.value.Some? then [NewEntry(ch, pen.value.value)] else []
    decreases |bs|
  {
    hide NewEntry, Fits, AtEnd, ReadSection;
    if bs == [] {
      EndSays(ch, pen, cur);
      NewIsKey(ch, pen);
    } else {
      var (out, pen') := AtBlock(ch, pen, bs[0]);
      BlockSays(ch, pen, bs[0], cur);
      WrittenSets(ch, pen', bs[1..], Enter(bs[0], cur));
      EntriesConcat(out, Written(ch, pen', bs[1..], Enter(bs[0], cur), false), cur);
      KeysConcat(Entries(out, cur), Entries(Written(ch, pen', bs[1..], Enter(bs[0], cur), false), Enter(bs[0], cur)), ch);
      BlockSets(ch, pen, bs[0], cur);
      assert [bs[0]] + bs[1..] == bs;
      EntriesConcat([bs[0]], bs[1..], cur);
      KeysConcat(Entries([bs[0]], cur), Entries(bs[1..], Enter(bs[0], cur)), ch);
    }
  }

  lemma NewIsKey(ch: Change, pen: Pen)
    ensures pen.value.Some? ==>
      Keys([NewEntry(ch, pen.value.value)], ch) == [NewEntry(ch, pen.value.value)] && Others([NewEntry(ch, pen.value.value)], ch) == []
  {
    if pen.value.Some? {
      assert [NewEntry(ch, pen.value.value)][1..] == [];
    }
  }

  // What a block leads to keeps the pen right.
  lemma BlockSays(ch: Change, pen: Pen, b: Block, cur: Option<string>)
    requires Fits(ch, pen, cur)
    ensures var (out, pen') := AtBlock(ch, pen, b);
      Fits(ch, pen', Enter(b, cur)) && After(out, cur) == Enter(b, cur) && After([b], cur) == Enter(b, cur)
  {
    assert [b][1..] == [];
    match b {
      case SectionBlock(_, _) => SectionSays(ch, pen, b, cur);
      case VariableBlock(_, _, _, _) => VariableSays(ch, pen, b, cur);
      case CommentBlock(_) =>
    }
  }

  lemma BlockSets(ch: Change, pen: Pen, b: Block, cur: Option<string>)
    requires Fits(ch, pen, cur) && ch.preg.None?
    ensures var (out, pen') := AtBlock(ch, pen, b);
      && Others(Entries(out, cur), ch) == Others(Entries([b], cur), ch)
      && Keys(Entries(out, cur), ch) ==
         (if pen.value.Some? && pen'.value.None? then [NewEntry(ch, pen.value.value)] else [])
      && (pen'.value == pen.value || pen'.value.None?)
  {
    assert [b][1..] == [];
    NewIsKey(ch, pen);
    match b {
      case SectionBlock(_, _) => SectionSays(ch, pen, b, cur);
      case VariableBlock(_, _, _, _) =>
        VariableSays(ch, pen, b, cur);
        assert [EntryOf(b, cur)][1..] == [];
      case CommentBlock(_) =>
    }
  }

  // Setting or deleting with a pattern: every entry of the key whose value it accepts is
  // replaced, or dropped, where it stands.
  function Replaced(es: seq<Entry>, ch: Change): seq<Entry>
    requires ch.preg.Some?
  {
    if es == [] then []
    else
      (if !Accepts(ch, es[0]) then [es[0]] else if ch.value.None? then [] else [NewEntry(ch, ch.value.value)])
      + Replaced(es[1..], ch)
  }

  predicate Accepts(ch: Change, e: Entry)
    requires ch.preg.Some?
  {
    IsKey(e, ch) && ch.preg.value(e.value)
  }

  predicate AnyAccepted(es: seq<Entry>, ch: Change)
    requires ch.preg.Some?
  {
    exists i :: 0 <= i < |es| && Accepts(ch, es[i])
  }

  lemma {:induction false} ReplacedConcat(a: seq<Entry>, b: seq<Entry>, ch: Change)
    requires ch.preg.Some?
    ensures Replaced(a + b, ch) == Replaced(a, ch) + Replaced(b, ch)
  {
    if a == [] {
      assert a + b == b;
    } else {
      assert (a + b)[1..] == a[1..] + b;
      ReplacedConcat(a[1..], b, ch);
    }
  }

  lemma AnyConcat(a: seq<Entry>, b: seq<Entry>, ch: Change)
    requires ch.preg.Some?
    ensures AnyAccepted(a + b, ch) <==> AnyAccepted(a, ch) || AnyAccepted(b, ch)
  {
    if i :| 0 <= i < |a| && Accepts(ch, a[i]) {
      assert Accepts(ch, (a + b)[i]);
    }
    if i :| 0 <= i < |b| && Accepts(ch, b[i]) {
      assert Accepts(ch, (a + b)[|a| + i]);
    }
  }

  // The source does not stop at the first that it replaces; where it finds none, it adds
  // the value at the end of the file.
  lemma {:induction false} WrittenReplaces(ch: Change, pen: Pen, bs: seq<Block>, cur: Option<string>)
    requires Fits(ch, pen, cur) && ch.preg.Some? && pen.value == ch.value && HeaderReads(ch, pen, bs, cur)
    ensures var before := Entries(bs, cur);
      Entries(Written(ch, pen, bs, cur, false), cur) == Replaced(before, ch) +
        (if !pen.replaced && !AnyAccepted(before, ch) && ch.value.Some? then [NewEntry(ch, ch.value.value)] else [])
    decreases |bs|
  {
    hide NewEntry, Fits, AtEnd, AtBlock, ReadSection, Accepts, AnyAccepted;
    if bs == [] {
      EndSays(ch, pen, cur);
      NoneAccepted(ch);
    } else {
      hide Replaced, Entries;
      var (out, pen') := AtBlock(ch, pen, bs[0]);
      var cur' := Enter(bs[0], cur);
      var first, rest := Entries([bs[0]], cur), Entries(bs[1..], cur');
      BlockSays(ch, pen, bs[0], cur);
      BlockReplaces(ch, pen, bs[0], cur);
      WrittenReplaces(ch, pen', bs[1..], cur');
      EntriesConcat(out, Written(ch, pen', bs[1..], cur', false), cur);
      assert [bs[0]] + bs[1..] == bs;
      EntriesConcat([bs[0]], bs[1..], cur);
      ReplacedConcat(first, rest, ch);
      AnyConcat(first, rest, ch);
      var more := if !pen'.replaced && !AnyAccepted(rest, ch) && ch.value.Some? then [NewEntry(ch, ch.value.value)] else [];
      assert Replaced(first, ch) + (Replaced(rest, ch) + more) == Replaced(first, ch) + Replaced(rest, ch) + more;
    }
  }

  lemma NoneAccepted(ch: Change)
    requires ch.preg.Some?
    ensures !AnyAccepted([], ch)
  {
  }

  lemma BlockReplaces(ch: Change, pen: Pen, b: Block, cur: Option<string>)
    requires Fits(ch, pen, cur) && ch.preg.Some? && pen.value == ch.value
    ensures var (out, pen') := AtBlock(ch, pen, b); var before := Entries([b], cur);
      && Entries(out, cur) == Replaced(before, ch) && pen'.value == ch.value
      && pen'.replaced == (pen.replaced || AnyAccepted(before, ch))
  {
    assert [b][1..] == [];
    match b {
      case SectionBlock(_, _) => SectionSays(ch, pen, b, cur);
      case VariableBlock(_, _, _, _) =>
        VariableSays(ch, pen, b, cur);
        var e := EntryOf(b, cur);
        assert Entries([b], cur) == [e] && [e][1..] == [] && [e][0] == e;
        assert Accepts(ch, e) <==> Matches(ch, pen, b);
      case CommentBlock(_) =>
    }
  }
}
