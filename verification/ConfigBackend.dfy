// The operations of the configuration file backend (libgit2/src/config_file.c): the file
// and the entries that were read from it, changed by set and delete.
module ConfigBackend {
  import opened Options
  import opened ConfigText
  import opened ConfigParse
  import opened ConfigRewrite
  import opened ConfigTheory
  import opened ConfigValues
  import opened ConfigExact
  import opened ConfigReplace
  import opened ConfigReads
  import opened ConfigFile
  import ConfigReader

  // ---- git_config__normalize_name

  predicate IsNormalizable(s: string) {
    s != [] && s[0] != '-' && forall i :: 0 <= i < |s| ==> IsNameChar(s[i])
  }

  // A section and a name from a key: at the last dot; what comes before the first and
  // after the last is taken in lower case.
  function Normalized(key: string): Option<(string, string)> {
    if '.' !in key then None
    else
      var fdot, ldot := First(key, '.'), Last(key, '.');
      if !IsNormalizable(key[..fdot]) || !IsNormalizable(key[ldot + 1..]) || '\n' in key[fdot..ldot] then None
      else Some((LowerAll(key[..fdot]) + key[fdot..ldot], LowerAll(key[ldot + 1..])))
  }

  // git_config_file_normalize_section
  method NormalizeSection(s: string) returns (r: Option<string>)
    ensures r == if IsNormalizable(s) then Some(LowerAll(s)) else None
  {
    var i := 0;
    var t := s;
    while i < |s|
      invariant i <= |s| && |t| == |s| && forall j :: i <= j < |s| ==> t[j] == s[j]
      invariant forall j :: 0 <= j < i ==> IsNameChar(s[j]) && t[j] == Lower(s[j])
      invariant i > 0 ==> s[0] != '-'
    {
      if IsAlnum(s[i]) {
        t := t[i := Lower(s[i])];
      } else if s[i] != '-' || i == 0 {
        return None;
      }
      i := i + 1;
    }
    if i == 0 {
      return None;
    }
    assert t == LowerAll(s);
    return Some(t);
  }

  method NormalizeName(key: string) returns (r: Option<(string, string)>)
    ensures r == Normalized(key)
  {
    if '.' !in key {
      return None;
    }
    var fdot, ldot := First(key, '.'), Last(key, '.');
    var base := NormalizeSection(key[..fdot]);
    var name := NormalizeSection(key[ldot + 1..]);
    if base.None? || name.None? || '\n' in key[fdot..ldot] {
      return None;
    }
    return Some((base.value + key[fdot..ldot], name.value));
  }

  lemma LowerTwice(s: string)
    ensures LowerAll(LowerAll(s)) == LowerAll(s)
  {
  }

  lemma NormalizedIsKeyName(key: string)
    requires Normalized(key).Some?
    ensures var (section, name) := Normalized(key).value;
      IsKeyName(section, name) && forall i :: First(section, '.') <= i < |section| ==> section[i] != '\n'
  {
    var fdot, ldot := First(key, '.'), Last(key, '.');
    var base, middle := LowerAll(key[..fdot]), key[fdot..ldot];
    var section := base + middle;
    LowerTwice(key[..fdot]);
    LowerTwice(key[ldot + 1..]);
    LowerIsName(key[..fdot]);
    LowerIsName(key[ldot + 1..]);
    assert middle != [] ==> middle[0] == '.';
    SectionParts(base, middle);
  }

  lemma LowerIsName(s: string)
    requires IsNormalizable(s)
    ensures IsName(LowerAll(s)) && '.' !in LowerAll(s)
  {
  }

  lemma SectionParts(base: string, middle: string)
    requires '.' !in base && (middle == [] || middle[0] == '.')
    ensures First(base + middle, '.') == |base| && (base + middle)[..|base|] == base
    ensures '\n' !in middle ==> forall i :: |base| <= i < |base + middle| ==> (base + middle)[i] != '\n'
  {
    if middle == [] {
      assert base + middle == base;
      NoDot(base);
    } else {
      FirstIs(base + middle, '.', |base|);
    }
  }

  lemma NoDot(s: string)
    requires '.' !in s
    ensures First(s, '.') == |s|
  {
  }

  // A key without and with a subsection: base and name are taken in lower case, the
  // subsection as it is.
  lemma NormalizedIs(base: string, name: string)
    requires '.' !in base && '.' !in name
    ensures Normalized(base + "." + name) ==
      if IsNormalizable(base) && IsNormalizable(name) then Some((LowerAll(base), LowerAll(name))) else None
  {
    var key := base + "." + name;
    KeyParts(key, base, [], name);
    assert key == base + "." + [] + name && key[|base|..|base|] == [];
    assert LowerAll(base) + [] == LowerAll(base);
  }

  lemma NormalizedWith(base: string, sub: string, name: string)
    requires '.' !in base && '.' !in name
    ensures Normalized(base + "." + (sub + ".") + name) ==
      if IsNormalizable(base) && IsNormalizable(name) && '\n' !in sub then Some((LowerAll(base) + ("." + sub), LowerAll(name)))
      else None
  {
    var key := base + "." + (sub + ".") + name;
    KeyParts(key, base, sub + ".", name);
    assert key[|base|..|key| - |name| - 1] == "." + sub;
  }

  lemma KeyParts(key: string, base: string, middle: string, name: string)
    requires '.' !in base && '.' !in name && key == base + "." + middle + name && (middle == [] || middle[|middle| - 1] == '.')
    ensures '.' in key && First(key, '.') == |base| && Last(key, '.') == |key| - |name| - 1
    ensures key[..|base|] == base && key[|key| - |name|..] == name
  {
    var k := |key| - |name| - 1;
    assert key[|base|] == '.' && key[k] == '.';
    FirstIs(key, '.', |base|);
    assert forall j :: k < j < |key| ==> key[j] == name[j - k - 1];
    LastIs(key, '.', k);
  }

  lemma NoKey(key: string)
    requires '.' !in key
    ensures Normalized(key) == None
  {
  }

  // ---- the backend

  datatype Result = Done | InvalidName | Multivar | NotFound | Unreadable

  function Key(section: string, name: string): Change {
    Change(section, name, None, None)
  }

  lemma {:induction false} KeysOf(es: seq<Entry>, a: Change, b: Change)
    requires a.section == b.section && a.name == b.name
    ensures Keys(es, a) == Keys(es, b) && Others(es, a) == Others(es, b)
  {
    if es != [] {
      KeysOf(es[1..], a, b);
    }
  }

  lemma {:induction false} KeysAre(es: seq<Entry>, ch: Change)
    ensures forall i :: 0 <= i < |Keys(es, ch)| ==> IsKey(Keys(es, ch)[i], ch)
  {
    if es != [] {
      KeysAre(es[1..], ch);
    }
  }

  lemma KeysStep(es: seq<Entry>, i: nat, ch: Change, found: seq<Entry>)
    requires i < |es|
    ensures found + Keys(es[i..], ch) == (if IsKey(es[i], ch) then found + [es[i]] else found) + Keys(es[i + 1..], ch)
  {
    assert es[i..][0] == es[i] && es[i..][1..] == es[i + 1..];
  }

  lemma NoKeys(ch: Change)
    ensures Keys([], ch) == []
  {
  }

  function Escaping(value: Option<string>): Option<string> {
    if value.None? then None else Some(Escape(value.value))
  }

  class Backend {
    var file: string
    // the entries as they were read last
    var values: seq<Entry>

    ghost predicate Valid()
      reads this
    {
      Parse(file).1 == Clean && values == EntriesOf(file)
    }

    ghost function Bound(section: string, name: string): seq<Entry>
      reads this
    {
      Keys(values, Key(section, name))
    }

    ghost function Unrelated(section: string, name: string): seq<Entry>
      reads this
    {
      Others(values, Key(section, name))
    }

    constructor (file: string)
      requires Parse(file).1 == Clean
      ensures Valid() && this.file == file
    {
      this.file := file;
      new;
      var ok, es := ReadConfig(file);
      values := es;
    }

    method Lookup(section: string, name: string) returns (found: seq<Entry>)
      ensures found == Bound(section, name)
    {
      hide Keys;
      found := [];
      var i := 0;
      assert values[0..] == values && found + Bound(section, name) == Bound(section, name);
      while i < |values|
        invariant i <= |values| && found + Keys(values[i..], Key(section, name)) == Bound(section, name)
      {
        KeysStep(values, i, Key(section, name), found);
        if values[i].section == Some(section) && values[i].name == name {
          found := found + [values[i]];
        }
        i := i + 1;
      }
      NoKeys(Key(section, name));
      assert values[i..] == [] && found + [] == found;
    }

    // config_get: the last value the key is bound to.
    method Get(section: string, name: string) returns (r: Option<Option<string>>)
      ensures r == if Bound(section, name) == [] then None else Some(Bound(section, name)[|Bound(section, name)| - 1].value)
    {
      var found := Lookup(section, name);
      r := if found == [] then None else Some(found[|found| - 1].value);
    }

    // config_write and config_refresh
    method Write(section: string, name: string, value: Option<string>, preg: Option<Option<string> -> bool>) returns (r: Result)
      modifies this
      ensures file == Rewritten(old(file), Change(section, name, value, preg))
      ensures if Parse(file).1 == Clean then r == Done && Valid() else r == Unreadable && values == old(values)
    {
      file := WriteConfig(file, section, name, value, preg);
      var ok, es := ReadConfig(file);
      if !ok {
        return Unreadable;
      }
      values := es;
      return Done;
    }

    // config_set; a value of None is a null pointer, which deletes.
    method Set(key: string, value: Option<string>) returns (r: Result)
      requires Valid()
      modifies this
      ensures Normalized(key).None? ==> r == InvalidName && file == old(file) && values == old(values)
      ensures Normalized(key).Some? ==>
        var (section, name) := Normalized(key).value;
        var bound := old(Bound(section, name));
        if |bound| > 1 then r == Multivar && file == old(file) && values == old(values)
        else if |bound| == 1 && bound[0].value == value then r == Done && file == old(file) && values == old(values)
        else file == Rewritten(old(file), Change(section, name, Escaping(value), None))
             && r == if Parse(file).1 == Clean then Done else Unreadable
      ensures Normalized(key).Some? && value.Some? && r != Multivar ==>
        var (section, name) := Normalized(key).value;
        CanSet(old(file), section, name, value.value) ==>
          && r == Done && Valid()
          && Bound(section, name) == [Entry(Some(section), name, value)]
          && Unrelated(section, name) == old(Unrelated(section, name))
    {
      hide Parse, Normalized, Rewritten, Keys, Others, Escape, CanSet, IsKeyName, EntriesOf, SetWorks;
      var k := NormalizeName(key);
      if k.None? {
        return InvalidName;
      }
      NormalizedIsKeyName(key);
      var (section, name) := k.value;
      var existing := Lookup(section, name);
      if |existing| > 1 {
        return Multivar;
      }
      if |existing| == 1 && existing[0].value == value {
        KeysAre(values, Key(section, name));
        assert existing[0] == Entry(Some(section), name, value);
        assert existing == [existing[0]];
        return Done;
      }
      var escaped: Option<string> := None;
      if value.Some? {
        var e := ConfigReader.EscapeValue(value.value);
        escaped := Some(e);
        SetWorksIff(file, section, name, value.value);
      }
      ghost var before := file;
      r := Write(section, name, escaped, None);
      if value.Some? && CanSet(before, section, name, value.value) {
        WorksMeans(before, file, section, name, value.value);
      }
    }

    // config_delete
    method Delete(key: string) returns (r: Result)
      requires Valid()
      modifies this
      ensures Normalized(key).None? ==> r == InvalidName && file == old(file) && values == old(values)
      ensures Normalized(key).Some? ==>
        var (section, name) := Normalized(key).value;
        var bound := old(Bound(section, name));
        if |bound| == 1 then r == Done && Valid() && Bound(section, name) == []
          && Unrelated(section, name) == old(Unrelated(section, name))
        else r == (if bound == [] then NotFound else Multivar) && file == old(file) && values == old(values)
    {
      hide Parse, Normalized, Rewritten, Keys, Others, IsKeyName, EntriesOf;
      var k := NormalizeName(key);
      if k.None? {
        return InvalidName;
      }
      NormalizedIsKeyName(key);
      var (section, name) := k.value;
      var existing := Lookup(section, name);
      if existing == [] {
        return NotFound;
      }
      if |existing| > 1 {
        return Multivar;
      }
      DeleteWorks(file, section, name);
      r := Write(section, name, None, None);
    }

    // config_set_multivar: every value of the key that the pattern accepts is replaced,
    // without being escaped; if there is none, the value is added. This works exactly if the
    // value can be set that way.
    method SetMultivar(key: string, preg: Option<string> -> bool, value: string) returns (r: Result)
      requires Valid()
      modifies this
      ensures Normalized(key).None? ==> r == InvalidName && file == old(file) && values == old(values)
      ensures Normalized(key).Some? ==>
        var (section, name) := Normalized(key).value;
        var ch := Change(section, name, Some(value), Some(preg));
        && file == Rewritten(old(file), ch) && r == (if Parse(file).1 == Clean then Done else Unreadable)
        && (CanReplace(old(file), section, name, value, preg) ==>
              r == Done && Valid() && values == WantedAll(old(values), ch, value))
        && ('\n' !in value ==>
              (CanReplace(old(file), section, name, value, preg) <==> r == Done && values == WantedAll(old(values), ch, value)))
    {
      hide Parse, Normalized, Rewritten, IsKeyName, EntriesOf, CanReplace, WantedAll;
      var k := NormalizeName(key);
      if k.None? {
        return InvalidName;
      }
      NormalizedIsKeyName(key);
      var (section, name) := k.value;
      if CanReplace(file, section, name, value, preg) {
        ReplaceIfCan(file, section, name, value, preg);
      }
      if '\n' !in value {
        ReplaceWorksIff(file, section, name, value, preg);
      }
      r := Write(section, name, Some(value), Some(preg));
    }

    // config_delete_multivar
    method DeleteMultivar(key: string, preg: Option<string> -> bool) returns (r: Result)
      requires Valid()
      modifies this
      ensures Normalized(key).None? ==> r == InvalidName && file == old(file) && values == old(values)
      ensures Normalized(key).Some? ==>
        var (section, name) := Normalized(key).value;
        if old(Bound(section, name)) == [] then r == NotFound && file == old(file) && values == old(values)
        else r == Done && Valid() && values == Replaced(old(values), Change(section, name, None, Some(preg)))
    {
      hide Parse, Normalized, Rewritten, Keys, Others, IsKeyName, EntriesOf, Replaced, AnyAccepted;
      var k := NormalizeName(key);
      if k.None? {
        return InvalidName;
      }
      NormalizedIsKeyName(key);
      var (section, name) := k.value;
      var existing := Lookup(section, name);
      if existing == [] {
        return NotFound;
      }
      RemoveWorks(file, Change(section, name, None, Some(preg)));
      r := Write(section, name, None, Some(preg));
    }
  }

  // ---- patterns

  lemma RemoveWorks(file: string, ch: Change)
    requires IsKeyName(ch.section, ch.name) && Parse(file).1 == Clean && ch.preg.Some? && ch.value.None?
    ensures Parse(Rewritten(file, ch)).1 == Clean
    ensures EntriesOf(Rewritten(file, ch)) == Replaced(EntriesOf(file), ch)
  {
    hide Parse, Appends, Standing, NewLine, NewSection, ReadSection, IsSection, Rewritten, Entries, Replaced, AnyAccepted;
    AppendsUnlessAccepted(ch, Start(ch), Parse(file).0, None);
    HeaderStands(ch);
    ReplaceMatching(file, ch);
    var r := Replaced(EntriesOf(file), ch);
    assert r + [] == r;
  }

  // A value that is set with a pattern is not escaped: a quote in it is lost.
  lemma QuoteIsLost(name: string, a: string, b: string)
    requires IsName(name) && IsName(a) && IsName(b)
    ensures ReadBack(name, a + "\"" + b) == a + b
  {
    hide Assignment, Strip, TrimEnd, Next, IsName;
    var v := a + "\"" + b;
    QuoteReads(name, a, b);
    AssignmentStands(name, v, a + b);
    var text := ValueText(name, v);
    NoQuotesFor(a, b);
    assert [] + v + [] == v;
    assert text == "\t" + name + " = " + v + "\n";
    StandingNext(VariableBlock(text, name, Some(a + b), false), []);
    assert text + [] == text;
  }

  lemma NoQuotesFor(a: string, b: string)
    requires IsName(a) && IsName(b)
    ensures QuotesFor(a + "\"" + b) == []
  {
  }

  lemma QuoteReads(name: string, a: string, b: string)
    requires IsName(name) && IsName(a) && IsName(b)
    ensures var v := a + "\"" + b;
      '\n' !in v && Assignment(Strip(TrimEnd(name + " = " + v), 0).0) == Some((name, Some((a + b, false))))
  {
    hide Assignment, Strip, TrimEnd, Unescape, Scan;
    var v := a + "\"" + b;
    var line := name + " = " + v;
    LastOfName(b);
    assert line[|line| - 1] == b[|b| - 1];
    TrimEndIs(line, line);
    ScanPlain(line, 0, 0, 0);
    StripWhole(line);
    QuoteVanishes(a, b);
    assert v == a + ("\"" + b) && line == name + " =" + " " + v;
    AssignmentOf(name, " ", v);
  }

  lemma LastOfName(b: string)
    requires IsName(b)
    ensures !IsSpace(b[|b| - 1])
  {
  }

  lemma QuoteVanishes(a: string, b: string)
    requires IsName(a) && IsName(b)
    ensures Unescape(a + ("\"" + b)) == Some((a + b, false))
  {
    hide Escape;
    EscapeIsSame(a);
    EscapeIsSame(b);
    UnescapeEscape(a, "\"" + b);
    UnescapeEscape(b, []);
    assert ("\"" + b)[1..] == b && b + [] == b;
  }

  lemma WorksMeans(before: string, after: string, section: string, name: string, v: string)
    requires SetWorks(before, section, name, v) && after == Rewritten(before, Setting(section, name, v))
    ensures Parse(after).1 == Clean
    ensures Keys(EntriesOf(after), Key(section, name)) == [Entry(Some(section), name, Some(v))]
    ensures Others(EntriesOf(after), Key(section, name)) == Others(EntriesOf(before), Key(section, name))
  {
    hide Parse, Rewritten, Keys, Others, Escape, EntriesOf;
    KeysOf(EntriesOf(after), Key(section, name), Setting(section, name, v));
    KeysOf(EntriesOf(before), Key(section, name), Setting(section, name, v));
  }

  // Deleting puts nothing at the end of the file, so that it always works.
  lemma DeleteWorks(file: string, section: string, name: string)
    requires IsKeyName(section, name) && Parse(file).1 == Clean
    ensures var after := Rewritten(file, Key(section, name));
      && Parse(after).1 == Clean && Keys(EntriesOf(after), Key(section, name)) == []
      && Others(EntriesOf(after), Key(section, name)) == Others(EntriesOf(file), Key(section, name))
  {
    hide Parse, Rewritten, Keys, Others, EntriesOf, Standing, NewSection, Appends;
    var ch := Key(section, name);
    HeaderStands(ch);
    AppendsUnlessPlaced(ch, Start(ch), Parse(file).0, None);
    SetOnly(file, ch);
  }
}
