// The file backend of libgit2/src/config_file.c: reading a file, the write_on_ callbacks
// that put it out again with one key changed, and the operations built on them.
module ConfigFile {
  import opened Options
  import opened ConfigText
  import opened ConfigParse
  import opened ConfigRewrite
  import opened ConfigTheory
  import opened ConfigValues
  import opened ConfigExact
  import opened ConfigReader

  // config_read with read_on_variable: the entries in the order of the file.
  method ReadConfig(file: string) returns (ok: bool, entries: seq<Entry>)
    ensures ok <==> Parse(file).1 == Clean
    ensures entries == EntriesOf(file)
  {
    hide Next;
    var reader := new Reader(file);
    ghost var bs := Blocks(reader.Ahead()).0;
    var section: Option<string> := None;
    entries, ok := [], true;
    while ok && !reader.eof
      invariant reader.Valid()
      invariant ok ==> entries + Entries(Blocks(reader.Ahead()).0, section) == Entries(bs, None)
      invariant ok ==> Blocks(reader.Ahead()).1 == Parse(file).1
      invariant !ok ==> entries == Entries(bs, None) && Parse(file).1 != Clean
      invariant reader.eof && ok ==> Next(reader.Ahead()) == End
      decreases |reader.text| - reader.pos, !reader.eof, ok
    {
      ghost var t := reader.Ahead();
      var s := reader.ParseBlock();
      if s.Found? {
        BlockFound(t);
        ghost var more := Blocks(reader.Ahead()).0;
        assert ([s.block] + more)[1..] == more;
        if s.block.SectionBlock? {
          section := Some(s.block.name);
        } else if s.block.VariableBlock? {
          var e := Entry(section, LowerAll(s.block.name), s.block.value);
          assert entries + ([e] + Entries(more, section)) == entries + [e] + Entries(more, section);
          entries := entries + [e];
        }
      } else {
        NothingFound(t);
        ok := s.End?;
        assert entries + [] == entries;
      }
    }
    if ok {
      NothingFound(reader.Ahead());
      assert entries + [] == entries;
    }
  }

  class WriteData {
    var buf: string
    var bufferedComment: string
    var inSection: bool
    var pregReplaced: bool
    const section: string
    const name: string
    const preg: Option<Option<string> -> bool>
    var value: Option<string>
    // what has been put out, and the state of the specification
    ghost var out: seq<Block>
    ghost var pen: Pen
    ghost const ch: Change

    ghost predicate Valid()
      reads this
    {
      && buf == Texts(out) && bufferedComment == Texts(pen.pending)
      && pen.inSection == inSection && pen.replaced == pregReplaced && pen.value == value
      && ch.section == section && ch.name == name && ch.preg == preg
    }

    constructor (section: string, name: string, value: Option<string>, preg: Option<Option<string> -> bool>)
      ensures Valid() && ch == Change(section, name, value, preg) && pen == Start(ch) && out == []
    {
      this.section, this.name, this.preg, this.value := section, name, preg, value;
      buf, bufferedComment, inSection, pregReplaced := [], [], false, false;
      ch := Change(section, name, value, preg);
      out, pen := [], Start(Change(section, name, value, preg));
    }

    // write_value
    method WriteValue()
      requires value.Some?
      modifies this
      ensures buf == old(buf) + ValueText(name, old(value).value)
      ensures value == if preg.None? then None else old(value)
      ensures bufferedComment == old(bufferedComment) && inSection == old(inSection) && pregReplaced == old(pregReplaced)
      ensures pen == old(pen) && out == old(out)
    {
      var q := QuotesFor(value.value);
      buf := buf + ("\t" + name + " = " + q + value.value + q + "\n");
      if preg.None? {
        value := None;
      }
    }

    // git_buf_put of the buffered comments, and git_buf_clear
    method DumpComments()
      modifies this
      ensures buf == old(buf) + old(bufferedComment) && bufferedComment == []
      ensures value == old(value) && inSection == old(inSection) && pregReplaced == old(pregReplaced)
      ensures pen == old(pen) && out == old(out)
    {
      buf, bufferedComment := buf + bufferedComment, [];
    }

    // write_on_section
    method OnSection(b: Block)
      requires Valid() && b.SectionBlock?
      modifies this
      ensures Valid() && out == old(out) + AtSection(ch, old(pen), b).0 && pen == AtSection(ch, old(pen), b).1
    {
      hide ValueText, Texts, Line;
      ghost var (more, next) := AtSection(ch, pen, b);
      SectionText(ch, pen, b, out);
      if inSection && preg.None? && value.Some? {
        WriteValue();
      }
      inSection := b.name == section;
      DumpComments();
      buf := buf + Line(b.text);
      TextsOfNone();
      out, pen := out + more, next;
    }

    // write_on_variable
    method OnVariable(b: Block)
      requires Valid() && b.VariableBlock?
      modifies this
      ensures Valid() && out == old(out) + AtVariable(ch, old(pen), b).0 && pen == AtVariable(ch, old(pen), b).1
    {
      hide ValueText, Texts, Line;
      ghost var (more, next) := AtVariable(ch, pen, b);
      VariableText(ch, pen, b, out);
      DumpComments();
      var matched := inSection && LowerAll(name) == LowerAll(b.name);
      if matched && preg.Some? {
        matched := preg.value(b.value);
      }
      if !matched {
        buf := buf + Line(b.text);
      } else {
        pregReplaced := true;
        if value.Some? {
          WriteValue();
        }
      }
      TextsOfNone();
      out, pen := out + more, next;
    }

    // write_on_comment
    method OnComment(b: Block)
      requires Valid() && b.CommentBlock?
      modifies this
      ensures Valid() && out == old(out) && pen == AtComment(old(pen), b)
    {
      hide Texts, Line;
      CommentText(pen.pending, b);
      bufferedComment := bufferedComment + Line(b.text);
      pen := AtComment(pen, b);
    }

    // write_on_eof
    method OnEof(current: Option<string>)
      requires Valid()
      modifies this
      ensures buf == Texts(old(out) + AtEnd(ch, old(pen), current))
    {
      hide ValueText, HeaderText, Texts;
      EndText(ch, pen, current, out);
      buf := buf + bufferedComment;
      if (preg.None? || !pregReplaced) && value.Some? {
        if current.None? || current.value != section {
          WriteSection();
        }
        WriteValue();
      }
    }

    // write_section
    method WriteSection()
      modifies this
      ensures buf == old(buf) + HeaderText(section) && value == old(value) && pen == old(pen) && out == old(out)
    {
      var dot := First(section, '.');
      if dot == |section| {
        buf := buf + ("[" + section + "]\n");
      } else {
        var escaped := EscapeValue(section[dot + 1..]);
        buf := buf + ("[" + section[..dot] + " \"" + escaped + "\"]\n");
      }
    }
  }

  // The text of what each callback puts out.
  lemma TextsOfNone()
    ensures Texts([]) == []
  {
  }

  lemma Texts1(a: seq<Block>, b: Block)
    ensures Texts(a + [b]) == Texts(a) + b.text
  {
    TextsConcat(a, [b]);
    assert [b][1..] == [] && b.text + [] == b.text;
  }

  lemma SectionText(ch: Change, pen: Pen, b: Block, out: seq<Block>)
    requires b.SectionBlock?
    ensures Texts(out + AtSection(ch, pen, b).0) ==
      if pen.inSection && ch.preg.None? && pen.value.Some?
      then Texts(out) + ValueText(ch.name, pen.value.value) + Texts(pen.pending) + Line(b.text)
      else Texts(out) + Texts(pen.pending) + Line(b.text)
  {
    hide Texts, ValueText, Line, ReadBack;
    var n := if pen.inSection && ch.preg.None? && pen.value.Some? then [NewLine(ch, pen.value.value)] else [];
    assert out + AtSection(ch, pen, b).0 == out + n + pen.pending + [Closed(b)];
    Texts1(out + n + pen.pending, Closed(b));
    TextsConcat(out + n, pen.pending);
    if n == [] {
      assert out + n == out;
    } else {
      Texts1(out, n[0]);
    }
  }

  lemma VariableText(ch: Change, pen: Pen, b: Block, out: seq<Block>)
    requires b.VariableBlock?
    ensures Texts(out + AtVariable(ch, pen, b).0) ==
      if !Matches(ch, pen, b) then Texts(out) + Texts(pen.pending) + Line(b.text)
      else if pen.value.None? then Texts(out) + Texts(pen.pending)
      else Texts(out) + Texts(pen.pending) + ValueText(ch.name, pen.value.value)
  {
    hide Texts, ValueText, Line, ReadBack, Matches;
    TextsConcat(out, pen.pending);
    if !Matches(ch, pen, b) {
      assert out + (pen.pending + [Closed(b)]) == out + pen.pending + [Closed(b)];
      Texts1(out + pen.pending, Closed(b));
    } else if pen.value.Some? {
      var n := NewLine(ch, pen.value.value);
      assert out + (pen.pending + [n]) == out + pen.pending + [n];
      Texts1(out + pen.pending, n);
    }
  }

  lemma CommentText(pending: seq<Block>, b: Block)
    ensures Texts(pending + [Closed(b)]) == Texts(pending) + Line(b.text)
  {
    Texts1(pending, Closed(b));
  }

  lemma EndText(ch: Change, pen: Pen, cur: Option<string>, out: seq<Block>)
    ensures Texts(out + AtEnd(ch, pen, cur)) ==
      if !Appending(ch, pen) then Texts(out) + Texts(pen.pending)
      else if cur != Some(ch.section)
      then Texts(out) + Texts(pen.pending) + HeaderText(ch.section) + ValueText(ch.name, pen.value.value)
      else Texts(out) + Texts(pen.pending) + ValueText(ch.name, pen.value.value)
  {
    hide Texts, ValueText, HeaderText, ReadBack, ReadSection;
    TextsConcat(out, pen.pending);
    if !Appending(ch, pen) {
      assert pen.pending + [] == pen.pending;
    } else {
      var n, h := NewLine(ch, pen.value.value), NewSection(ch);
      if cur != Some(ch.section) {
        assert out + AtEnd(ch, pen, cur) == out + pen.pending + [h] + [n];
        Texts1(out + pen.pending, h);
        Texts1(out + pen.pending + [h], n);
      } else {
        assert out + AtEnd(ch, pen, cur) == out + pen.pending + [n];
        Texts1(out + pen.pending, n);
      }
    }
  }

  // config_write: config_parse with the callbacks above. What on_eof returns replaces the
  // result of the parse, so that a file that breaks off is written all the same.
  method WriteConfig(file: string, section: string, name: string, value: Option<string>, preg: Option<Option<string> -> bool>)
    returns (text: string)
    ensures text == Rewritten(file, Change(section, name, value, preg))
  {
    hide Next, AtSection, AtVariable, AtComment, AtEnd;
    var reader := new Reader(file);
    var w := new WriteData(section, name, value, preg);
    ghost var ch, lost := w.ch, Parse(file).1 == Broken(true);
    ghost var all := Written(ch, w.pen, Parse(file).0, None, lost);
    var current: Option<string> := None;
    var ok := true;
    assert [] + all == all;
    while ok && !reader.eof
      invariant reader.Valid() && w.Valid() && w.ch == ch
      invariant ok ==> w.out + Written(ch, w.pen, Blocks(reader.Ahead()).0, current, lost) == all
      invariant ok ==> Blocks(reader.Ahead()).1 == Parse(file).1
      invariant !ok ==> w.out + AtEnd(ch, w.pen, current) == all
      invariant reader.eof && ok ==> Next(reader.Ahead()) == End
      decreases |reader.text| - reader.pos, !reader.eof, ok
    {
      ghost var t := reader.Ahead();
      ghost var before, pen := w.out, w.pen;
      var s := reader.ParseBlock();
      match s {
        case Found(b) =>
          BlockFound(t);
          WrittenStep(ch, pen, b, Blocks(reader.Ahead()).0, current, lost, before);
          match b {
            case SectionBlock(_, name) =>
              current := Some(name);
              w.OnSection(b);
            case VariableBlock(_, _, _, _) => w.OnVariable(b);
            case CommentBlock(_) => w.OnComment(b);
          }
        case Fail(header) =>
          NothingFound(t);
          ok := false;
          if header {
            current := None;
          }
        case End => NothingFound(t);
      }
    }
    if ok {
      NothingFound(reader.Ahead());
    }
    w.OnEof(current);
    text := w.buf;
  }

  lemma WrittenStep(ch: Change, pen: Pen, b: Block, bs: seq<Block>, cur: Option<string>, lost: bool, before: seq<Block>)
    ensures var (out, pen') := AtBlock(ch, pen, b);
      before + Written(ch, pen, [b] + bs, cur, lost) == before + out + Written(ch, pen', bs, Enter(b, cur), lost)
  {
    hide AtBlock;
    assert ([b] + bs)[1..] == bs;
  }
}
