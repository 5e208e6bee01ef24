// git_buf_quote and git_buf_unquote of libgit2/src/buffer.c: names in double quotes, with
// escapes for what could be misread.
module Quoting {
  import opened Options
  import opened Bytes

  const QUOTE: byte := 34
  const BACKSLASH: byte := 92

  // The characters from 7 to 13 that have an escape of their own: a, b, t, n, v, f, r.
  function Short(c: byte): byte
    requires 7 <= c <= 13
  {
    match c
    case 7 => 97
    case 8 => 98
    case 9 => 116
    case 10 => 110
    case 11 => 118
    case 12 => 102
    case _ => 114
  }

  predicate Suspicious(c: byte) {
    c == QUOTE || c == BACKSLASH || c < 32 || c > 126
  }

  predicate NeedsQuotes(s: seq<byte>) {
    (s != [] && s[0] == 33) || exists i :: 0 <= i < |s| && Suspicious(s[i])
  }

  function Octal(c: byte): seq<byte> {
    [BACKSLASH, (48 + c as int / 64) as byte, (48 + c as int / 8 % 8) as byte, (48 + c as int % 8) as byte]
  }

  function QuoteByte(c: byte): seq<byte> {
    if 7 <= c <= 13 then [BACKSLASH, Short(c)]
    else if c == QUOTE || c == BACKSLASH then [BACKSLASH, c]
    else if c < 32 || c > 126 then Octal(c)
    else [c]
  }

  function QuoteAll(s: seq<byte>): seq<byte> {
    if s == [] then [] else QuoteByte(s[0]) + QuoteAll(s[1..])
  }

  function Quoted(s: seq<byte>): seq<byte> {
    if NeedsQuotes(s) then [QUOTE] + QuoteAll(s) + [QUOTE] else s
  }

  lemma {:induction false} QuotePlain(s: seq<byte>, i: nat)
    requires i <= |s| && forall k :: 0 <= k < i ==> !Suspicious(s[k])
    ensures QuoteAll(s) == s[..i] + QuoteAll(s[i..])
  {
    hide QuoteByte;
    if i == 0 {
      assert s[..0] == [] && s[0..] == s;
    } else {
      QuotePlain(s, i - 1);
      PlainByte(s[i - 1]);
      QuoteStep(s[..i - 1], s, i - 1);
      assert s[..i] == s[..i - 1] + [s[i - 1]];
    }
  }

  lemma PlainByte(c: byte)
    requires !Suspicious(c)
    ensures QuoteByte(c) == [c]
  {
  }

  lemma QuoteStep(out: seq<byte>, s: seq<byte>, i: nat)
    requires i < |s|
    ensures out + QuoteAll(s[i..]) == out + QuoteByte(s[i]) + QuoteAll(s[i + 1..])
  {
    hide QuoteByte;
    assert s[i..][0] == s[i] && s[i..][1..] == s[i + 1..];
  }

  // git_buf_quote
  method Quote(buf: seq<byte>) returns (r: seq<byte>)
    ensures r == Quoted(buf)
  {
    hide QuoteAll, QuoteByte;
    var quote := |buf| > 0 && buf[0] == 33;
    var i := 0;
    while !quote && i < |buf|
      invariant i <= |buf| && forall k :: 0 <= k < i ==> !Suspicious(buf[k])
      invariant quote ==> NeedsQuotes(buf)
      invariant !quote ==> |buf| == 0 || buf[0] != 33
      decreases |buf| - i, !quote
    {
      if Suspicious(buf[i]) {
        quote := true;
      } else {
        i := i + 1;
      }
    }
    if !quote {
      return buf;
    }
    QuotePlain(buf, i);
    r := [QUOTE] + buf[..i];
    ghost var head := r;
    assert [QUOTE] + (buf[..i] + QuoteAll(buf[i..])) == r + QuoteAll(buf[i..]);
    while i < |buf|
      invariant i <= |buf| && [QUOTE] + QuoteAll(buf) == r + QuoteAll(buf[i..])
    {
      QuoteStep(r, buf, i);
      var piece := QuotedByte(buf[i]);
      r := r + piece;
      i := i + 1;
    }
    QuoteEnd(buf, r);
    r := r + [QUOTE];
  }

  lemma QuoteEnd(s: seq<byte>, r: seq<byte>)
    ensures r + QuoteAll(s[|s|..]) == r
  {
    assert s[|s|..] == [] && r + [] == r;
  }

  method QuotedByte(c: byte) returns (piece: seq<byte>)
    ensures piece == QuoteByte(c)
  {
    if c >= 7 && c <= 13 {
      piece := [BACKSLASH, Short(c)];
    } else if c == QUOTE || c == BACKSLASH {
      piece := [BACKSLASH, c];
    } else if c != 32 && (c < 33 || c > 126) {
      piece := Octal(c);
    } else {
      piece := [c];
    }
  }

  // ---- unquoting

  predicate IsSpace(c: byte) {
    c == 32 || 9 <= c <= 13
  }

  function TrimEnd(s: seq<byte>): seq<byte> {
    if s != [] && IsSpace(s[|s| - 1]) then TrimEnd(s[..|s| - 1]) else s
  }

  predicate IsOctal(c: byte) {
    48 <= c <= 55
  }

  function OctalValue(a: byte, b: byte, c: byte): byte
    requires 48 <= a <= 51 && IsOctal(b) && IsOctal(c)
  {
    ((a as int - 48) * 64 + (b as int - 48) * 8 + (c as int - 48)) as byte
  }

  // What one escape stands for, and how much of the text it takes behind the backslash.
  function Escape(u: seq<byte>): Option<(byte, nat)>
    requires u != []
  {
    var c := u[0];
    if c == QUOTE || c == BACKSLASH then Some((c, 1))
    else if c == 97 then Some((7, 1))
    else if c == 98 then Some((8, 1))
    else if c == 102 then Some((12, 1))
    else if c == 110 then Some((10, 1))
    else if c == 114 then Some((13, 1))
    else if c == 116 then Some((9, 1))
    else if c == 118 then Some((11, 1))
    else if 48 <= c <= 51 && |u| >= 3 && IsOctal(u[1]) && IsOctal(u[2]) then Some((OctalValue(c, u[1], u[2]), 3))
    else None
  }

  // The text between the quotes.
  function Inner(u: seq<byte>): Option<seq<byte>>
    decreases |u|
  {
    if u == [] then Some([])
    else if u[0] != BACKSLASH then Before(u[0], Inner(u[1..]))
    else if |u| == 1 then None
    else match Escape(u[1..])
      case None => None
      case Some((c, n)) => if n + 1 > |u| then None else Before(c, Inner(u[n + 1..]))
  }

  function Before(c: byte, r: Option<seq<byte>>): Option<seq<byte>> {
    if r.None? then None else Some([c] + r.value)
  }

  function Unquoted(s: seq<byte>): Option<seq<byte>> {
    var t := TrimEnd(s);
    if |t| < 2 || t[0] != QUOTE || t[|t| - 1] != QUOTE then None else Inner(t[1..|t| - 1])
  }

  function Behind(v: seq<byte>, r: Option<seq<byte>>): Option<seq<byte>> {
    if r.None? then None else Some(v + r.value)
  }

  lemma {:induction false} InnerStep(v: seq<byte>, u: seq<byte>)
    requires u != []
    ensures Behind(v, Inner(u)) ==
      if u[0] != BACKSLASH then Behind(v + [u[0]], Inner(u[1..]))
      else if |u| == 1 || Escape(u[1..]).None? then None
      else var (c, n) := Escape(u[1..]).value; if n + 1 > |u| then None else Behind(v + [c], Inner(u[n + 1..]))
  {
    hide Escape;
    forall c, r: Option<seq<byte>>
      ensures Behind(v, Before(c, r)) == Behind(v + [c], r)
    {
      if r.Some? {
        assert v + ([c] + r.value) == v + [c] + r.value;
      }
    }
  }

  method TrimSize(buf: array<byte>, size: nat) returns (n: nat)
    requires size <= buf.Length
    ensures n <= size && buf[..n] == TrimEnd(buf[..size])
  {
    n := size;
    while n > 0 && IsSpace(buf[n - 1])
      invariant n <= size && TrimEnd(buf[..size]) == TrimEnd(buf[..n])
    {
      assert buf[..n][..n - 1] == buf[..n - 1];
      n := n - 1;
    }
  }

  lemma NothingBefore(r: Option<seq<byte>>)
    ensures Behind([], r) == r
  {
    if r.Some? {
      assert [] + r.value == r.value;
    }
  }

  lemma InnerOfNothing(v: seq<byte>)
    ensures Behind(v, Inner([])) == Some(v)
  {
    assert v + [] == v;
  }

  // One escape, from behind the backslash on; none taken if it is not valid.
  method ReadEscape(buf: array<byte>, j: nat, n: nat, ghost rest: seq<byte>) returns (ch: byte, taken: nat)
    requires 0 < j < n - 1 && n <= buf.Length && buf[n - 1] == QUOTE && rest == buf[j..n - 1]
    ensures if taken == 0 then Escape(rest) == None else Escape(rest) == Some((ch, taken)) && j + taken <= n - 1
  {
    var c := buf[j];
    assert c == rest[0];
    if c == QUOTE || c == BACKSLASH {
      return c, 1;
    } else if c == 97 {
      return 7, 1;
    } else if c == 98 {
      return 8, 1;
    } else if c == 102 {
      return 12, 1;
    } else if c == 110 {
      return 10, 1;
    } else if c == 114 {
      return 13, 1;
    } else if c == 116 {
      return 9, 1;
    } else if c == 118 {
      return 11, 1;
    } else if 48 <= c <= 51 {
      if j == n - 3 {
        return 0, 0;
      }
      // at the last place before the quote, the quote itself is looked at and refused
      if !IsOctal(buf[j + 1]) {
        assert j + 1 < n - 1 ==> buf[j + 1] == rest[1];
        return 0, 0;
      }
      assert buf[j + 1] == rest[1] && buf[j + 2] == rest[2];
      if !IsOctal(buf[j + 2]) {
        return 0, 0;
      }
      return OctalValue(c, buf[j + 1], buf[j + 2]), 3;
    }
    return 0, 0;
  }

  // git_buf_unquote, in place: what is written never gets ahead of what is read.
  method Unquote(buf: array<byte>, size: nat) returns (ok: bool, newSize: nat)
    requires size <= buf.Length
    modifies buf
    ensures ok <==> Unquoted(old(buf[..size])).Some?
    ensures ok ==> newSize <= size && buf[..newSize] == Unquoted(old(buf[..size])).value
  {
    hide Inner, Escape, TrimEnd;
    var n := TrimSize(buf, size);
    newSize := n;
    if n < 2 || buf[0] != QUOTE || buf[n - 1] != QUOTE {
      return false, n;
    }
    ghost var t := buf[..n];
    ghost var u := t[1..n - 1];
    var i, j := 0, 1;
    assert u[0..] == u && buf[..0] == [];
    NothingBefore(Inner(u));
    while j < n - 1
      invariant i < j <= n - 1 && n <= buf.Length
      invariant forall k :: j <= k < n ==> buf[k] == t[k]
      invariant Inner(u) == Behind(buf[..i], Inner(u[j - 1..]))
    {
      ghost var rest := u[j - 1..];
      var e: nat := 0;
      InnerStep(buf[..i], rest);
      var ch := buf[j];
      assert rest[0] == t[j] && rest[1..] == u[j..];
      if ch == BACKSLASH {
        if j == n - 2 {
          return false, n;
        }
        var read, taken := ReadEscape(buf, j + 1, n, rest[1..]);
        if taken == 0 {
          return false, n;
        }
        ch := read;
        e := taken;
        assert rest[e + 1..] == u[j + e..];
      }
      ghost var before := buf[..i];
      buf[i] := ch;
      assert buf[..i + 1] == before + [ch];
      i, j := i + 1, j + e + 1;
    }
    assert u[j - 1..] == [];
    InnerOfNothing(buf[..i]);
    return true, i;
  }

  // ---- what comes out

  predicate Printable(s: seq<byte>) {
    forall i :: 0 <= i < |s| ==> 32 <= s[i] <= 126
  }

  // Each character between the quotes: as it is, or behind a backslash its letter, itself or
  // three octal digits.
  lemma ByteIs(c: byte)
    ensures var q := QuoteByte(c);
      && Printable(q)
      && if 7 <= c <= 13 then |q| == 2 && q[0] as int == '\\' as int && q[1] as int == "abtnvfr"[c as int - 7] as int
         else if c as int == '"' as int || c as int == '\\' as int then |q| == 2 && q[0] as int == '\\' as int && q[1] == c
         else if 32 <= c <= 126 then q == [c]
         else (|q| == 4 && q[0] as int == '\\' as int && IsOctal(q[1]) && IsOctal(q[2]) && IsOctal(q[3])
               && c as int == 64 * (q[1] as int - 48) + 8 * (q[2] as int - 48) + (q[3] as int - 48))
  {
  }

  // Names come out printable. They come out unchanged exactly if they hold no quote, no
  // backslash and nothing that is not printable, and do not begin with an exclamation mark.
  lemma QuotedIs(s: seq<byte>)
    ensures Printable(Quoted(s))
    ensures Quoted(s) == s <==>
      Printable(s) && (forall i :: 0 <= i < |s| ==> s[i] as int != '"' as int && s[i] as int != '\\' as int)
      && (s != [] ==> s[0] as int != '!' as int)
  {
    hide QuoteByte;
    AllPrintable(s);
  }

  lemma {:induction false} AllPrintable(s: seq<byte>)
    ensures Printable(QuoteAll(s)) && |QuoteAll(s)| >= |s|
  {
    hide QuoteByte;
    if s != [] {
      AllPrintable(s[1..]);
      ByteIs(s[0]);
    }
  }

  // ---- nothing is lost

  lemma ByteReads(c: byte, t: seq<byte>)
    ensures Inner(QuoteByte(c) + t) == Before(c, Inner(t))
  {
    var q := QuoteByte(c);
    var u := q + t;
    if |q| == 1 {
      assert u[1..] == t;
    } else {
      assert u[1..][0] == q[1];
      if |q| == 2 {
        assert u[2..] == t;
      } else {
        OctalReads(c);
        assert u[1..][1] == q[2] && u[1..][2] == q[3] && u[4..] == t;
      }
    }
  }

  lemma OctalReads(c: byte)
    ensures var q := Octal(c); 48 <= q[1] <= 51 && IsOctal(q[2]) && IsOctal(q[3]) && OctalValue(q[1], q[2], q[3]) == c
  {
  }

  lemma {:induction false} AllReads(s: seq<byte>)
    ensures Inner(QuoteAll(s)) == Some(s)
  {
    hide Inner, QuoteByte;
    if s == [] {
      InnerOfNothing([]);
      NothingBefore(Inner([]));
    } else {
      AllReads(s[1..]);
      ByteReads(s[0], QuoteAll(s[1..]));
      assert [s[0]] + s[1..] == s;
    }
  }

  // What has been quoted reads back as it was.
  lemma UnquoteQuote(s: seq<byte>)
    requires NeedsQuotes(s)
    ensures Unquoted(Quoted(s)) == Some(s)
  {
    hide Inner, QuoteAll;
    var q := [QUOTE] + QuoteAll(s) + [QUOTE];
    AllReads(s);
    assert TrimEnd(q) == q;
    assert q[1..|q| - 1] == QuoteAll(s);
  }

  // Spaces behind the closing quote make no difference.
  lemma {:induction false} SpacesBehind(s: seq<byte>, spaces: seq<byte>)
    requires forall i :: 0 <= i < |spaces| ==> spaces[i] as int in {32, 9, 10, 11, 12, 13}
    ensures TrimEnd(s + spaces) == TrimEnd(s) && Unquoted(s + spaces) == Unquoted(s)
    decreases |spaces|
  {
    if spaces == [] {
      assert s + spaces == s;
    } else {
      var rest := spaces[..|spaces| - 1];
      assert (s + spaces)[..|s + spaces| - 1] == s + rest;
      SpacesBehind(s, rest);
    }
  }

  // No two names are quoted alike, whether they need it or not.
  lemma QuotedIsInjective(s: seq<byte>, t: seq<byte>)
    requires Quoted(s) == Quoted(t)
    ensures s == t
  {
    if NeedsQuotes(s) && NeedsQuotes(t) {
      UnquoteQuote(s);
      UnquoteQuote(t);
    } else if NeedsQuotes(s) {
      assert t[0] == QUOTE && Suspicious(t[0]);
    } else if NeedsQuotes(t) {
      assert s[0] == QUOTE && Suspicious(s[0]);
    }
  }
}
