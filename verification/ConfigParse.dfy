// config_parse of libgit2/src/config_file.c: a file is a sequence of blocks, each a
// section header, a variable with the lines it continues on, or a comment line. What a
// block means depends on its own text only, so that blocks can be put together anew.
module ConfigParse {
  import opened Options
  import opened ConfigText

  // text is the block as it stands in the file. A variable dangles if its last line asks
  // for another one and the file ends there.
  datatype Block =
    | SectionBlock(text: string, name: string)
    | VariableBlock(text: string, name: string, value: Option<string>, dangling: bool)
    | CommentBlock(text: string)

  // ---- section headers

  function First(s: string, c: char): (i: nat)
    ensures i <= |s| && (i < |s| ==> s[i] == c) && (c in s <==> i < |s|)
    ensures forall j :: 0 <= j < i ==> s[j] != c
  {
    if s == [] || s[0] == c then 0 else 1 + First(s[1..], c)
  }

  function Last(s: string, c: char): (i: nat)
    requires c in s
    ensures i < |s| && s[i] == c && forall j :: i < j < |s| ==> s[j] != c
  {
    if s[|s| - 1] == c then |s| - 1 else Last(s[..|s| - 1], c)
  }

  // The end of parse_section_header_ext.
  function EndQuote(line: string, r: nat, name: string): Option<string> {
    if r + 1 < |line| && line[r] == '"' && line[r + 1] == ']' then Some(name) else None
  }

  // Its loop, at position r of the line.
  function ExtFrom(line: string, r: nat, last: nat, name: string): Option<string>
    decreases |line| - r
  {
    if r >= |line| then None
    else if line[r] == '"' then EndQuote(line, r, name)
    else
      var p := if line[r] == '\\' then r + 1 else r;
      if p >= |line| then None
      else if p + 1 < last then ExtFrom(line, p + 1, last, name + [line[p]])
      else EndQuote(line, p + 1, name + [line[p]])
  }

  // parse_section_header_ext
  function HeaderExt(line: string, base: string): Option<string> {
    if '"' !in line || First(line, '"') == Last(line, '"') then None
    else ExtFrom(line, First(line, '"') + 1, Last(line, '"'), base + ".")
  }

  // The loop of parse_section_header, at position i of the line.
  function HeaderFrom(line: string, i: nat, name: string): Option<string>
    decreases |line| - i
  {
    if i >= |line| then None
    else if IsSpace(line[i]) then HeaderExt(line, name)
    else if !IsNameChar(line[i]) && line[i] != '.' then None
    else if i + 1 < |line| && line[i + 1] == ']' then Some(name + [Lower(line[i])])
    else HeaderFrom(line, i + 1, name + [Lower(line[i])])
  }

  // parse_section_header
  function Header(line: string): Option<string> {
    if ']' !in line then None else HeaderFrom(line, 1, [])
  }

  // ---- variables

  function NameLength(s: string): (n: nat)
    ensures n <= |s|
  {
    if s == [] || !IsNameChar(s[0]) then 0 else 1 + NameLength(s[1..])
  }

  // parse_name: the name, and what follows the equals sign if there is one.
  function ParseName(line: string): Option<(string, Option<string>)> {
    var n := NameLength(line);
    var i := n + Leading(line[n..]);
    if n == 0 then None
    else if i == |line| then Some((line[..n], None))
    else if line[i] == '=' then Some((line[..n], Some(line[i + 1..])))
    else None
  }

  // The lines a value continues on: what they add to it, how much text they take, and
  // whether the file ended where one more was asked for.
  datatype Rest = Rest(value: string, size: nat, dangling: bool)

  function Further(value: string, size: nat, r: Option<Rest>): Option<Rest> {
    if r.None? then None else Some(Rest(value + r.value.value, size + r.value.size, r.value.dangling))
  }

  // parse_multiline_variable. A line that is only a comment is passed over; an empty one
  // ends the value.
  function Continue(t: string, quotes: nat): (r: Option<Rest>)
    ensures r.Some? ==> r.value.size <= |t| && (r.value.dangling ==> r.value.size == |t|)
    ensures r.Some? ==> if t == [] then r.value.dangling else r.value.size > 0
    decreases |t|
  {
    var (line, k) := ReadLine(t, false);
    if line == [] || t == [] then Some(Rest([], k, t == []))
    else
      var (s, q) := Strip(line, if quotes > 0 then 1 else 0);
      if s == [] then Further([], k, Continue(t[k..], q))
      else match Unescape(s)
        case None => None
        case Some((v, multi)) => if multi then Further(v, k, Continue(t[k..], q)) else Some(Rest(v, k, false))
  }

  // What parse_variable makes of the line s that it has read and stripped.
  function Assignment(s: string): Option<(string, Option<(string, bool)>)> {
    match ParseName(s)
    case None => None
    case Some((name, None)) => Some((name, None))
    case Some((name, Some(v))) =>
      match Unescape(v[Leading(v)..])
      case None => None
      case Some(value) => Some((name, Some(value)))
  }

  // parse_variable
  function Variable(t: string): (r: Option<Block>)
    ensures r.Some? ==> r.value.text <= t && (t != [] ==> r.value.text != [])
  {
    var (line, k) := ReadLine(t, true);
    var (s, q) := Strip(line, 0);
    match Assignment(s)
    case None => None
    case Some((name, None)) => Some(VariableBlock(t[..k], name, None, false))
    case Some((name, Some((value, multi)))) =>
      if !multi then Some(VariableBlock(t[..k], name, Some(value), false))
      else match Continue(t[k..], q)
        case None => None
        case Some(more) => Some(VariableBlock(t[..k + more.size], name, Some(value + more.value), more.dangling))
  }

  // ---- files

  // Where the first character stands that is not a space, or the end of the line.
  function Blank(t: string): (n: nat)
    ensures n <= |t|
    ensures n < |t| ==> !IsSpace(t[n]) || t[n] == '\n'
  {
    if t == [] || !IsSpace(t[0]) || t[0] == '\n' then 0 else 1 + Blank(t[1..])
  }

  // header says that it is a section header that cannot be read.
  datatype Step = End | Fail(header: bool) | Found(block: Block)

  function FoundOr(b: Option<Block>, header: bool): Step {
    if b.None? then Fail(header) else Found(b.value)
  }

  function Section(t: string): (r: Option<Block>)
    ensures r.Some? ==> r.value.text <= t && (t != [] ==> r.value.text != [])
  {
    var (line, k) := ReadLine(t, true);
    match Header(line)
    case None => None
    case Some(name) => Some(SectionBlock(t[..k], name))
  }

  // One round of the loop of config_parse.
  function Next(t: string): (r: Step)
    ensures r.Found? ==> r.block.text != [] && r.block.text <= t
  {
    var i := Blank(t);
    if i == |t| then End
    else if t[i] == '[' then FoundOr(Section(t), true)
    else if t[i] == '\n' || t[i] == ';' || t[i] == '#' then Found(CommentBlock(t[..LineEnd(t)]))
    else FoundOr(Variable(t), false)
  }

  datatype Outcome = Clean | Broken(header: bool)

  // The blocks of a text up to its end or to the first that cannot be read.
  function Blocks(t: string): (seq<Block>, Outcome)
    decreases |t|
  {
    match Next(t)
    case End => ([], Clean)
    case Fail(header) => ([], Broken(header))
    case Found(b) =>
      var (bs, outcome) := Blocks(t[|b.text|..]);
      ([b] + bs, outcome)
  }

  // skip_bom
  function SkipBom(t: string): string {
    if |t| >= 3 && t[0] == '\U{EF}' && t[1] == '\U{BB}' && t[2] == '\U{BF}' then t[3..] else t
  }

  function Parse(file: string): (seq<Block>, Outcome) {
    Blocks(SkipBom(file))
  }

  // ---- a block on its own

  function Closed(b: Block): Block {
    b.(text := Line(b.text))
  }

  ghost predicate Dangles(b: Block) {
    b.VariableBlock? && b.dangling
  }

  // The block is found as it is, whatever follows.
  ghost predicate Standing(b: Block) {
    b.text != [] && forall u :: Next(b.text + u) == Found(b)
  }

  lemma {:induction false} ContinueLocal(t: string, quotes: nat, u: string)
    requires Continue(t, quotes).Some? && !Continue(t, quotes).value.dangling
    ensures var r := Continue(t, quotes).value; var w := Line(t[..r.size]);
      Continue(w + u, quotes) == Some(Rest(r.value, |w|, false))
    decreases |t|
  {
    hide Line, ReadLine, Strip, Unescape;
    var (line, k) := ReadLine(t, false);
    var size := Continue(t, quotes).value.size;
    var (s, q) := Strip(line, if quotes > 0 then 1 else 0);
    if line == [] || !(s == [] || Unescape(s).value.1) {
      ReadLineLocal(t, false, u);
      assert Line(t[..k]) + u != [];
    } else {
      var w := Line(t[k..size]);
      ContinueLocal(t[k..], q, u);
      ReadLineLocal(t, false, w + u);
      assert t[k..][..size - k] == t[k..size];
      LineBehind(t[..k], t[k..size]);
      assert t[..size] == t[..k] + t[k..size];
      LineAndRest(t[..k], w, u);
      assert t[..k] + (w + u) != [];
    }
  }

  lemma BlankLocal(t: string, w: string)
    requires Blank(t) < |t| && |w| > Blank(t) && forall i :: 0 <= i <= Blank(t) ==> w[i] == t[i]
    ensures Blank(w) == Blank(t)
  {
    if Blank(t) > 0 {
      BlankLocal(t[1..], w[1..]);
    }
  }

  lemma BlankBeforeLine(t: string)
    requires Blank(t) < |t|
    ensures Blank(t) < LineEnd(t)
    ensures t[Blank(t)] != '\n' ==> Leading(t) == Blank(t)
  {
  }

  lemma BlankInBlock(t: string)
    requires Next(t).Found?
    ensures Blank(t) < |Next(t).block.text|
  {
    hide Header, Assignment, Strip, Continue;
    BlankBeforeLine(t);
  }

  lemma LineStarts(s: string, u: string)
    ensures s <= Line(s) + u
  {
  }

  lemma CommentLocal(t: string, u: string)
    requires t != []
    ensures var w := Line(t[..LineEnd(t)]); LineEnd(w + u) == |w|
  {
    FirstLineLocal(t, u);
  }

  // Whether the line leaves the value to be continued.
  predicate GoesOn(t: string) {
    var a := Assignment(Strip(ReadLine(t, true).0, 0).0);
    a.Some? && a.value.1.Some? && a.value.1.value.1
  }

  lemma OneLineLocal(t: string, u: string)
    requires t != [] && Leading(t) < |t| && Variable(t).Some? && !GoesOn(t)
    ensures Variable(Line(Variable(t).value.text) + u) == Some(Closed(Variable(t).value))
  {
    hide Line, ReadLine, Strip, Assignment, Continue, Leading;
    var (line, k) := ReadLine(t, true);
    var w := Line(t[..k]);
    ReadLineLocal(t, true, u);
    assert Variable(t).value.text == t[..k] && ReadLine(w + u, true) == (line, |w|);
    assert (w + u)[..|w|] == w;
  }

  lemma ManyLinesLocal(t: string, u: string)
    requires t != [] && Leading(t) < |t| && Variable(t).Some? && GoesOn(t) && !Dangles(Variable(t).value)
    ensures Variable(Line(Variable(t).value.text) + u) == Some(Closed(Variable(t).value))
  {
    hide Line, ReadLine, Strip, Assignment, Continue, Leading;
    var (line, k) := ReadLine(t, true);
    var q := Strip(line, 0).1;
    var size := k + Continue(t[k..], q).value.size;
    var w := Line(t[k..size]);
    ContinueLocal(t[k..], q, u);
    assert t[k..][..size - k] == t[k..size];
    ReadLineLocal(t, true, w + u);
    LineBehind(t[..k], t[k..size]);
    assert t[..size] == t[..k] + t[k..size];
    LineAndRest(t[..k], w, u);
  }

  lemma VariableLocal(t: string, u: string)
    requires t != [] && Leading(t) < |t| && Variable(t).Some? && !Dangles(Variable(t).value)
    ensures Variable(Line(Variable(t).value.text) + u) == Some(Closed(Variable(t).value))
  {
    if GoesOn(t) {
      ManyLinesLocal(t, u);
    } else {
      OneLineLocal(t, u);
    }
  }

  lemma LineAndRest(a: string, b: string, c: string)
    ensures a + b + c == a + (b + c) && (a + (b + c))[|a|..] == b + c && (a + (b + c))[..|a| + |b|] == a + b
  {
  }

  // A block that was found in a file stands on its own once its last line is complete.
  lemma NextLocal(t: string, u: string)
    requires Next(t).Found? && !Dangles(Next(t).block)
    ensures Next(Line(Next(t).block.text) + u) == Found(Closed(Next(t).block))
  {
    hide Line, ReadLine, Variable, Header, LineEnd;
    var b := Next(t).block;
    var w := Line(b.text);
    assert w + u != [] && (w + u)[..|w|] == w by { LineStarts(b.text, u); }
    BlankBeforeLine(t);
    BlankInBlock(t);
    LineStarts(b.text, u);
    BlankLocal(t, w + u);
    if t[Blank(t)] == '[' {
      ReadLineLocal(t, true, u);
    } else if t[Blank(t)] == '\n' || t[Blank(t)] == ';' || t[Blank(t)] == '#' {
      CommentLocal(t, u);
    } else {
      VariableLocal(t, u);
    }
  }

  // ---- a variable that dangles

  lemma {:induction false} ContinueDangling(t: string, quotes: nat)
    requires t != [] && Continue(t, quotes).Some? && Continue(t, quotes).value.dangling
    ensures Continue(Line(t), quotes) == Some(Rest(Continue(t, quotes).value.value, |Line(t)|, true))
    decreases |t|
  {
    hide Line, ReadLine, Strip, Unescape;
    var k := ReadLine(t, false).1;
    var q := Strip(ReadLine(t, false).0, if quotes > 0 then 1 else 0).1;
    assert t == t[..k] + t[k..];
    if k < |t| {
      ContinueDangling(t[k..], q);
      ReadLineLocal(t, false, Line(t[k..]));
      LineBehind(t[..k], t[k..]);
      LineAndRest(t[..k], Line(t[k..]), []);
    } else {
      assert t[..k] == t;
      ReadLineLocal(t, false, []);
      assert Line(t) + [] == Line(t) && Line(t)[|Line(t)|..] == [];
    }
  }

  // It takes the rest of the file, and reads the same there with its newline restored.
  lemma DanglingAlone(t: string)
    requires Next(t).Found? && Dangles(Next(t).block)
    ensures Next(t).block.text == t && Next(Line(t)) == Found(Closed(Next(t).block))
  {
    hide Line, ReadLine, Strip, Assignment, Continue, Leading;
    BlankBeforeLine(t);
    LineStarts(t, []);
    assert Line(t) + [] == Line(t);
    BlankLocal(t, Line(t));
    var (line, k) := ReadLine(t, true);
    var q := Strip(line, 0).1;
    assert t == t[..k] + t[k..] && t[k..][..|t| - k] == t[k..];
    if k < |t| {
      ContinueDangling(t[k..], q);
      ReadLineLocal(t, true, Line(t[k..]));
      LineBehind(t[..k], t[k..]);
      LineAndRest(t[..k], Line(t[k..]), []);
    } else {
      assert t[..k] == t;
      ReadLineLocal(t, true, []);
      assert Line(t)[|Line(t)|..] == [];
    }
  }

  // ---- files put together from blocks

  function Texts(bs: seq<Block>): string {
    if bs == [] then [] else bs[0].text + Texts(bs[1..])
  }

  lemma TextsConcat(a: seq<Block>, b: seq<Block>)
    ensures Texts(a + b) == Texts(a) + Texts(b)
  {
    if a == [] {
      assert a + b == b;
    } else {
      assert (a + b)[1..] == a[1..] + b;
      TextsConcat(a[1..], b);
    }
  }

  // Each block stands on its own; the last need only be found at the end of the file.
  ghost predicate Composed(bs: seq<Block>) {
    if bs == [] then true
    else if |bs| == 1 then bs[0].text != [] && Next(bs[0].text) == Found(bs[0])
    else Standing(bs[0]) && Composed(bs[1..])
  }

  lemma {:induction false} BlocksOfTexts(bs: seq<Block>)
    requires Composed(bs)
    ensures Blocks(Texts(bs)) == (bs, Clean)
  {
    hide Next, Standing;
    if bs == [] {
      NextOfNothing();
      NothingFound([]);
    } else {
      var t := Texts(bs[1..]);
      BlocksOfTexts(bs[1..]);
      if |bs| == 1 {
        assert bs[0].text + t == bs[0].text;
      } else {
        StandingNext(bs[0], t);
      }
      assert (bs[0].text + t)[|bs[0].text|..] == t;
      BlockFound(bs[0].text + t);
      assert [bs[0]] + bs[1..] == bs;
    }
  }

  lemma NothingFound(t: string)
    requires !Next(t).Found?
    ensures Blocks(t) == ([], if Next(t).End? then Clean else Broken(Next(t).header))
  {
  }

  lemma BlockFound(t: string)
    requires Next(t).Found?
    ensures var b := Next(t).block; var (bs, outcome) := Blocks(t[|b.text|..]); Blocks(t) == ([b] + bs, outcome)
  {
  }

  lemma NextOfNothing()
    ensures Next([]) == End
  {
  }

  lemma StandingNext(b: Block, u: string)
    requires Standing(b)
    ensures b.text != [] && Next(b.text + u) == Found(b)
  {
  }

  lemma FoundStands(t: string)
    requires Next(t).Found? && !Dangles(Next(t).block)
    ensures Standing(Closed(Next(t).block))
  {
    hide Next;
    forall u
      ensures Next(Closed(Next(t).block).text + u) == Found(Closed(Next(t).block))
    {
      NextLocal(t, u);
    }
    LineStarts(Next(t).block.text, []);
  }

  // The blocks of a file stand on their own, except for a variable that dangles at its end.
  ghost predicate Usable(bs: seq<Block>) {
    forall i :: 0 <= i < |bs| ==>
      if Dangles(bs[i]) then i == |bs| - 1 && Closed(bs[i]).text != [] && Next(Closed(bs[i]).text) == Found(Closed(bs[i]))
      else Standing(Closed(bs[i]))
  }

  lemma {:induction false} BlocksStand(t: string)
    ensures Usable(Blocks(t).0)
    decreases |t|
  {
    hide Next, Standing, Line;
    if !Next(t).Found? {
      NothingFound(t);
    } else {
      var b := Next(t).block;
      var bs := Blocks(t).0;
      BlocksStand(t[|b.text|..]);
      BlockFound(t);
      if Dangles(b) {
        DanglingAlone(t);
        LineStarts(t, []);
        NextOfNothing();
        assert t[|b.text|..] == [] && bs == [b];
      } else {
        FoundStands(t);
      }
      assert bs == [b] + bs[1..];
      assert forall i :: 0 < i < |bs| ==> bs[i] == bs[1..][i - 1];
    }
  }
}
