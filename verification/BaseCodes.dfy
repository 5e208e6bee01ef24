// The text codes of libgit2/src/buffer.c: base64 (section 4 of RFC 4648) and base85.
module BaseCodes {
  import opened Options
  import opened Bytes

  const PAD: byte := 61

  // ---- base64

  // base64_encode
  function Letter64(v: int): byte
    requires 0 <= v < 64
  {
    if v < 26 then (65 + v) as byte
    else if v < 52 then (97 + v - 26) as byte
    else if v < 62 then (48 + v - 52) as byte
    else if v == 62 then 43 else 47
  }

  // base64_decode; -1 for a character that is not allowed. The padding counts as 0.
  function Value64(c: byte): int {
    if 65 <= c <= 90 then c as int - 65
    else if 97 <= c <= 122 then c as int - 97 + 26
    else if 48 <= c <= 57 then c as int - 48 + 52
    else if c == 43 then 62
    else if c == 47 then 63
    else if c == PAD then 0
    else -1
  }

  lemma Letter64Reads(v: int)
    requires 0 <= v < 64
    ensures Value64(Letter64(v)) == v && Letter64(v) != PAD
  {
  }

  const Capitals := "ABCDEFGHIJKLM" + "NOPQRSTUVWXYZ"
  const Smalls := "abcdefghijklm" + "nopqrstuvwxyz"
  const Figures := "0123456789"

  lemma Ranges(i: nat)
    ensures |Capitals| == |Smalls| == 26 && |Figures| == 10
    ensures i < 26 ==> Capitals[i] as int == 65 + i && Smalls[i] as int == 97 + i
    ensures i < 10 ==> Figures[i] as int == 48 + i
  {
  }

  // The letters in the order of their values.
  const Alphabet64 := Capitals + Smalls + Figures + "+/"

  lemma Letters64(v: int)
    requires 0 <= v < 64
    ensures |Alphabet64| == 64 && Letter64(v) as int == Alphabet64[v] as int && PAD as int == '=' as int
  {
    Ranges(if v < 26 then v else if v < 52 then v - 26 else if v < 62 then v - 52 else 0);
    hide Capitals, Smalls, Figures;
  }

  // Three bytes as four letters.
  function Four(a: byte, b: byte, c: byte): (r: seq<byte>)
    ensures |r| == 4
  {
    [Letter64(a as int / 4), Letter64(a as int % 4 * 16 + b as int / 16),
     Letter64(b as int % 16 * 4 + c as int / 64), Letter64(c as int % 64)]
  }

  function Encode64(data: seq<byte>): seq<byte> {
    if data == [] then []
    else if |data| == 1 then Four(data[0], 0, 0)[..2] + [PAD, PAD]
    else if |data| == 2 then Four(data[0], data[1], 0)[..3] + [PAD]
    else Four(data[0], data[1], data[2]) + Encode64(data[3..])
  }

  // The letters are the digits to the base 64 of three bytes as a number. Where bytes are
  // missing, so are the digits that they alone would change.
  lemma Digits64(data: seq<byte>)
    requires data != []
    ensures var a, b, c := At(data, 0), At(data, 1), At(data, 2);
      var n := a * 0x1_0000 + b * 0x100 + c;
      && |Encode64(data)| >= 4 && 0 <= n < 0x100_0000
      && Encode64(data)[0] == Letter64(n / 0x4_0000) && Encode64(data)[1] == Letter64(n / 0x1000 % 64)
      && Encode64(data)[2] == (if |data| > 1 then Letter64(n / 64 % 64) else '=' as byte)
      && Encode64(data)[3] == (if |data| > 2 then Letter64(n % 64) else '=' as byte)
      && Encode64(data)[4..] == if |data| > 3 then Encode64(data[3..]) else []
  {
    hide Letter64;
    DigitsOfThree(At(data, 0), At(data, 1), At(data, 2));
  }

  lemma DigitsOfThree(a: int, b: int, c: int)
    requires 0 <= a < 256 && 0 <= b < 256 && 0 <= c < 256
    ensures var n := a * 0x1_0000 + b * 0x100 + c;
      n / 0x4_0000 == a / 4 && n / 0x1000 % 64 == a % 4 * 16 + b / 16 && n / 64 % 64 == b % 16 * 4 + c / 64 && n % 64 == c % 64
  {
    FourDigits(a / 4, a % 4 * 16 + b / 16, b % 16 * 4 + c / 64, c % 64);
  }

  lemma FourDigits(v: int, w: int, x: int, y: int)
    requires 0 <= v < 64 && 0 <= w < 64 && 0 <= x < 64 && 0 <= y < 64
    ensures var n := v * 0x4_0000 + w * 0x1000 + x * 64 + y;
      n / 0x4_0000 == v && n / 0x1000 % 64 == w && n / 64 % 64 == x && n % 64 == y
  {
    var n := v * 0x4_0000 + w * 0x1000 + x * 64 + y;
    assert n / 0x1000 == v * 64 + w && n / 64 == v * 0x1000 + w * 64 + x;
  }

  // git_buf_encode_base64
  method EncodeBase64(buf: seq<byte>, data: seq<byte>) returns (r: seq<byte>)
    ensures r == buf + Encode64(data)
  {
    hide Encode64, Four;
    var extra := |data| % 3;
    var read := 0;
    r := buf;
    assert data[0..] == data;
    while read < |data| - extra
      invariant read % 3 == 0 && read <= |data| - extra && r + Encode64(data[read..]) == buf + Encode64(data)
    {
      Step64(r, data, read);
      r := r + Four(data[read], data[read + 1], data[read + 2]);
      read := read + 3;
    }
    Last64(r, data, read);
    if extra > 0 {
      var a := data[read];
      var b: byte := if extra > 1 then data[read + 1] else 0;
      var four := Four(a, b, 0);
      r := r + ([four[0], four[1], if extra > 1 then four[2] else PAD, PAD]);
    }
  }

  lemma Step64(r: seq<byte>, data: seq<byte>, i: nat)
    requires i + 3 <= |data|
    ensures r + Encode64(data[i..]) == r + Four(data[i], data[i + 1], data[i + 2]) + Encode64(data[i + 3..])
  {
    hide Four;
    var t := data[i..];
    assert t[0] == data[i] && t[1] == data[i + 1] && t[2] == data[i + 2] && t[3..] == data[i + 3..];
  }

  lemma Last64(r: seq<byte>, data: seq<byte>, i: nat)
    requires i <= |data| < i + 3
    ensures |data| == i ==> r + Encode64(data[i..]) == r
    ensures |data| == i + 1 ==> var f := Four(data[i], 0, 0); Encode64(data[i..]) == [f[0], f[1], PAD, PAD]
    ensures |data| == i + 2 ==> var f := Four(data[i], data[i + 1], 0); Encode64(data[i..]) == [f[0], f[1], f[2], PAD]
  {
    if |data| == i {
      assert data[i..] == [] && r + [] == r;
    }
  }

  // Four values as three bytes. The source keeps them in signed bytes and cuts off what
  // does not fit.
  function Three(a: int, b: int, c: int, d: int): seq<byte>
    requires 0 <= a < 64 && 0 <= b < 64 && 0 <= c < 64 && 0 <= d < 64
  {
    [(a * 4 + b / 16) as byte, (b % 16 * 16 + c / 4) as byte, (c % 4 * 64 + d) as byte]
  }

  function Decode64(text: seq<byte>): Option<seq<byte>>
  {
    if |text| % 4 != 0 then None
    else if text == [] then Some([])
    else
      var a, b, c, d := Value64(text[0]), Value64(text[1]), Value64(text[2]), Value64(text[3]);
      var rest := Decode64(text[4..]);
      if a < 0 || b < 0 || c < 0 || d < 0 || rest.None? then None else Some(Three(a, b, c, d) + rest.value)
  }

  // git_buf_decode_base64; a text that is not valid leaves the buffer as it was.
  method DecodeBase64(buf: seq<byte>, text: seq<byte>) returns (ok: bool, r: seq<byte>)
    ensures ok <==> Decode64(text).Some?
    ensures r == if ok then buf + Decode64(text).value else buf
  {
    hide Decode64, Three;
    r := buf;
    if |text| % 4 != 0 {
      NotFours(text);
      return false, r;
    }
    var i := 0;
    assert text[0..] == text;
    while i < |text|
      invariant i % 4 == 0 && i <= |text| && (Decode64(text).Some? <==> Decode64(text[i..]).Some?)
      invariant Decode64(text).Some? ==> r + Decode64(text[i..]).value == buf + Decode64(text).value
    {
      FourStep(r, text, i);
      var a, b, c, d := Value64(text[i]), Value64(text[i + 1]), Value64(text[i + 2]), Value64(text[i + 3]);
      if a < 0 || b < 0 || c < 0 || d < 0 {
        return false, buf;
      }
      r := r + Three(a, b, c, d);
      i := i + 4;
    }
    NoFours(r, text);
    return true, r;
  }

  lemma NotFours(text: seq<byte>)
    requires |text| % 4 != 0
    ensures Decode64(text) == None
  {
  }

  lemma NoFours(r: seq<byte>, text: seq<byte>)
    ensures Decode64(text[|text|..]) == Some([]) && r + [] == r
  {
    assert text[|text|..] == [];
  }

  lemma FourStep(r: seq<byte>, text: seq<byte>, i: nat)
    requires i + 4 <= |text| && (|text| - i) % 4 == 0
    ensures var a, b, c, d := Value64(text[i]), Value64(text[i + 1]), Value64(text[i + 2]), Value64(text[i + 3]);
      if a < 0 || b < 0 || c < 0 || d < 0 then Decode64(text[i..]) == None
      else var rest := Decode64(text[i + 4..]);
        (Decode64(text[i..]).Some? <==> rest.Some?)
        && (rest.Some? ==> r + Decode64(text[i..]).value == r + Three(a, b, c, d) + rest.value)
  {
    hide Three, Value64;
    var t := text[i..];
    assert t[0] == text[i] && t[1] == text[i + 1] && t[2] == text[i + 2] && t[3] == text[i + 3] && t[4..] == text[i + 4..];
    var rest := Decode64(text[i + 4..]);
    var a, b, c, d := Value64(text[i]), Value64(text[i + 1]), Value64(text[i + 2]), Value64(text[i + 3]);
    if a >= 0 && b >= 0 && c >= 0 && d >= 0 && rest.Some? {
      Below64(text[i]);
      Below64(text[i + 1]);
      Below64(text[i + 2]);
      Below64(text[i + 3]);
      assert r + (Three(a, b, c, d) + rest.value) == r + Three(a, b, c, d) + rest.value;
    }
  }

  lemma Below64(c: byte)
    ensures Value64(c) < 64
  {
  }

  function Padding(n: nat): nat {
    if n % 3 == 0 then 0 else 3 - n % 3
  }

  function Zeros(n: nat): (r: seq<byte>)
    ensures |r| == n
  {
    seq(n, i => 0)
  }

  lemma SixBits(a: int, b: int, c: int)
    requires 0 <= a < 256 && 0 <= b < 256 && 0 <= c < 256
    ensures var v, w, x, y := a / 4, a % 4 * 16 + b / 16, b % 16 * 4 + c / 64, c % 64;
      && 0 <= v < 64 && 0 <= w < 64 && 0 <= x < 64 && 0 <= y < 64
      && v * 4 + w / 16 == a && w % 16 * 16 + x / 4 == b && x % 4 * 64 + y == c
  {
    var w, x := a % 4 * 16 + b / 16, b % 16 * 4 + c / 64;
    assert w / 16 == a % 4 && w % 16 == b / 16 && x / 4 == b % 16 && x % 4 == c / 64;
  }

  lemma FourReads(a: byte, b: byte, c: byte)
    ensures var f := Four(a, b, c);
      var v, w, x, y := Value64(f[0]), Value64(f[1]), Value64(f[2]), Value64(f[3]);
      0 <= v < 64 && 0 <= w < 64 && 0 <= x < 64 && 0 <= y < 64 && Three(v, w, x, y) == [a, b, c]
      && (c == 0 ==> y == 0) && (b == 0 && c == 0 ==> x == 0)
  {
    hide Letter64, Value64;
    SixBits(a as int, b as int, c as int);
    Letter64Reads(a as int / 4);
    Letter64Reads(a as int % 4 * 16 + b as int / 16);
    Letter64Reads(b as int % 16 * 4 + c as int / 64);
    Letter64Reads(c as int % 64);
  }

  lemma Group64(t: seq<byte>, u: seq<byte>)
    requires |t| == 4 && |u| % 4 == 0 && Decode64(u).Some?
    requires forall i :: 0 <= i < 4 ==> 0 <= Value64(t[i]) < 64
    ensures Decode64(t + u) == Some(Three(Value64(t[0]), Value64(t[1]), Value64(t[2]), Value64(t[3])) + Decode64(u).value)
  {
    hide Value64, Three;
    assert (t + u)[4..] == u;
  }

  // What has been encoded reads back as the data, with a zero for each character of padding.
  lemma {:induction false} Decode64Encode64(data: seq<byte>)
    ensures |Encode64(data)| % 4 == 0 && Decode64(Encode64(data)) == Some(data + Zeros(Padding(|data|)))
    decreases |data|
  {
    hide Four, Three, Value64, Decode64;
    var none: seq<byte> := [];
    NoFours([], none);
    assert none[|none|..] == none;
    assert Value64(PAD) == 0 by { PadIsZero(); }
    if data == [] {
      assert data + Zeros(0) == [];
    } else {
      var a := data[0];
      var b: byte := if |data| > 1 then data[1] else 0;
      var c: byte := if |data| > 2 then data[2] else 0;
      var f := Four(a, b, c);
      FourReads(a, b, c);
      if |data| >= 3 {
        Decode64Encode64(data[3..]);
        Group64(f, Encode64(data[3..]));
        var z := Zeros(Padding(|data|));
        assert Padding(|data|) == Padding(|data[3..]|);
        assert [a, b, c] + (data[3..] + z) == data + z;
      } else {
        var t := if |data| == 1 then [f[0], f[1], PAD, PAD] else [f[0], f[1], f[2], PAD];
        Last64([], data, 0);
        assert data[0..] == data && t + [] == t;
        Group64(t, []);
        assert [a, b, c] + [] == data + Zeros(Padding(|data|));
      }
    }
  }

  lemma PadIsZero()
    ensures Value64(PAD) == 0
  {
  }

  // ---- base85

  // base85_encode
  function Letter85(v: int): byte
    requires 0 <= v < 85
  {
    if v < 10 then (48 + v) as byte
    else if v < 36 then (65 + v - 10) as byte
    else if v < 62 then (97 + v - 36) as byte
    else if v == 62 then 33
    else if v < 67 then (35 + v - 63) as byte
    else if v < 71 then (40 + v - 67) as byte
    else if v == 71 then 45
    else if v < 78 then (59 + v - 72) as byte
    else if v < 81 then (94 + v - 78) as byte
    else (123 + v - 81) as byte
  }

  // base85_decode, less one; -1 for a character that is not allowed.
  function Value85(c: byte): int {
    if 48 <= c <= 57 then c as int - 48
    else if 65 <= c <= 90 then c as int - 65 + 10
    else if 97 <= c <= 122 then c as int - 97 + 36
    else if c == 33 then 62
    else if 35 <= c <= 38 then c as int - 35 + 63
    else if 40 <= c <= 43 then c as int - 40 + 67
    else if c == 45 then 71
    else if 59 <= c <= 64 then c as int - 59 + 72
    else if 94 <= c <= 96 then c as int - 94 + 78
    else if 123 <= c <= 126 then c as int - 123 + 81
    else -1
  }

  lemma Letter85Reads(v: int)
    requires 0 <= v < 85
    ensures Value85(Letter85(v)) == v
  {
  }

  lemma Below85(c: byte)
    ensures Value85(c) < 85 && (Value85(c) >= 0 ==> Letter85(Value85(c)) == c)
  {
  }

  const Alphabet85 := Figures + Capitals + Smalls + "!#$%&()*+-;" + "<=>?@^_`{|}~"

  lemma Letters85(v: int)
    requires 0 <= v < 85
    ensures |Alphabet85| == 85 && Letter85(v) as int == Alphabet85[v] as int
  {
    Ranges(if v < 10 then v else if v < 36 then v - 10 else if v < 62 then v - 36 else 0);
    hide Capitals, Smalls, Figures;
  }

  const WORD := 0x1_0000_0000

  function At(data: seq<byte>, i: nat): int {
    if i < |data| then data[i] as int else 0
  }

  // The first four bytes as a number; what is missing counts as 0.
  function Word(data: seq<byte>): (w: int)
    ensures 0 <= w < WORD
  {
    At(data, 0) * 0x100_0000 + At(data, 1) * 0x1_0000 + At(data, 2) * 0x100 + At(data, 3)
  }

  function Bytes4(w: int): (r: seq<byte>)
    requires 0 <= w < WORD
    ensures |r| == 4
  {
    [(w / 0x100_0000) as byte, (w / 0x1_0000 % 0x100) as byte, (w / 0x100 % 0x100) as byte, (w % 0x100) as byte]
  }

  // The five digits of a number, as letters.
  function Five(w: int): (r: seq<byte>)
    requires 0 <= w < WORD
    ensures |r| == 5
  {
    [Letter85(w / 85 / 85 / 85 / 85), Letter85(w / 85 / 85 / 85 % 85), Letter85(w / 85 / 85 % 85), Letter85(w / 85 % 85), Letter85(w % 85)]
  }

  function Encode85(data: seq<byte>): seq<byte>
    decreases |data|
  {
    if data == [] then [] else Five(Word(data)) + Encode85(if |data| <= 4 then [] else data[4..])
  }

  // The letters are the digits to the base 85 of four bytes as a number.
  lemma Digits85(data: seq<byte>) returns (a: int, b: int, c: int, d: int, e: int)
    requires data != []
    ensures 0 <= a < 85 && 0 <= b < 85 && 0 <= c < 85 && 0 <= d < 85 && 0 <= e < 85
    ensures (((a * 85 + b) * 85 + c) * 85 + d) * 85 + e
         == At(data, 0) * 0x100_0000 + At(data, 1) * 0x1_0000 + At(data, 2) * 0x100 + At(data, 3)
    ensures Encode85(data) ==
      [Letter85(a), Letter85(b), Letter85(c), Letter85(d), Letter85(e)] + if |data| > 4 then Encode85(data[4..]) else []
  {
    hide Letter85;
    var w := Word(data);
    var w1, w2, w3 := w / 85, w / 85 / 85, w / 85 / 85 / 85;
    a, b, c, d, e := w3 / 85, w3 % 85, w2 % 85, w1 % 85, w % 85;
    assert Five(w) == [Letter85(a), Letter85(b), Letter85(c), Letter85(d), Letter85(e)];
  }

  // git_buf_encode_base85
  method EncodeBase85(buf: seq<byte>, data: seq<byte>) returns (r: seq<byte>)
    ensures r == buf + Encode85(data)
  {
    hide Encode85, Five, Word;
    r := buf;
    var read := 0;
    assert data[0..] == data;
    while read < |data|
      invariant read <= |data| && r + Encode85(data[read..]) == buf + Encode85(data)
    {
      var acc, taken := ReadWord(data, read);
      var b85 := DigitsOf(acc);
      Step85(r, data, read);
      r := r + b85;
      read := read + taken;
    }
    Last85(r, data);
  }

  method ReadWord(data: seq<byte>, read: nat) returns (acc: int, taken: nat)
    requires read < |data|
    ensures acc == Word(data[read..]) && taken == if |data| - read < 4 then |data| - read else 4
  {
    acc, taken := 0, 0;
    var unit := 0x100_0000;
    while taken < 4 && read + taken < |data|
      invariant taken <= 4 && read + taken <= |data|
      invariant unit == if taken == 0 then 0x100_0000 else if taken == 1 then 0x1_0000 else if taken == 2 then 0x100 else if taken == 3 then 1 else 0
      invariant acc == (if taken > 0 then data[read] as int * 0x100_0000 else 0) + (if taken > 1 then data[read + 1] as int * 0x1_0000 else 0)
        + (if taken > 2 then data[read + 2] as int * 0x100 else 0) + (if taken > 3 then data[read + 3] as int else 0)
    {
      acc := acc + data[read + taken] as int * unit;
      unit := unit / 0x100;
      taken := taken + 1;
    }
  }

  method DigitsOf(w: int) returns (b85: seq<byte>)
    requires 0 <= w < WORD
    ensures b85 == Five(w)
  {
    var acc := w;
    b85 := [];
    var i := 4;
    while i >= 0
      invariant -1 <= i <= 4 && 0 <= acc < WORD && (i <= 0 ==> acc < 85)
      invariant acc == if i == 4 then w else if i == 3 then w / 85 else if i == 2 then w / 85 / 85
        else if i == 1 then w / 85 / 85 / 85 else if i == 0 then w / 85 / 85 / 85 / 85 else 0
      invariant b85 == if i == -1 then Five(w) else Five(w)[i + 1..]
    {
      var val := acc % 85;
      acc := acc / 85;
      assert Five(w)[i] == Letter85(val);
      assert [Five(w)[i]] + Five(w)[i + 1..] == Five(w)[i..];
      b85 := [Letter85(val)] + b85;
      i := i - 1;
    }
  }

  lemma Step85(r: seq<byte>, data: seq<byte>, i: nat)
    requires i < |data|
    ensures r + Encode85(data[i..]) == r + Five(Word(data[i..])) + Encode85(data[if |data| - i < 4 then |data| else i + 4..])
  {
    hide Five, Word;
    var t := data[i..];
    var rest := if |t| <= 4 then [] else t[4..];
    assert rest == data[if |data| - i < 4 then |data| else i + 4..];
    assert r + (Five(Word(t)) + Encode85(rest)) == r + Five(Word(t)) + Encode85(rest);
  }

  lemma Last85(r: seq<byte>, data: seq<byte>)
    ensures r + Encode85(data[|data|..]) == r
  {
    assert data[|data|..] == [] && r + [] == r;
  }

  // The number that five letters stand for; none if one of them is not allowed.
  function Number(t: seq<byte>): Option<int>
    requires |t| >= 5
  {
    var a, b, c, d, e := Value85(t[0]), Value85(t[1]), Value85(t[2]), Value85(t[3]), Value85(t[4]);
    if a < 0 || b < 0 || c < 0 || d < 0 || e < 0 then None
    else Some((((a * 85 + b) * 85 + c) * 85 + d) * 85 + e)
  }

  function Least(a: nat, b: nat): nat {
    if a < b then a else b
  }

  // So many bytes from the groups of a text.
  function Groups(text: seq<byte>, n: nat): Option<seq<byte>>
    decreases n
  {
    if n == 0 then Some([])
    else if |text| < 5 then None
    else match Number(text)
      case None => None
      case Some(w) =>
        if w >= WORD || w < 0 then None
        else match Groups(text[5..], n - Least(n, 4))
          case None => None
          case Some(rest) => Some(Bytes4(w)[..Least(n, 4)] + rest)
  }

  function Decode85(text: seq<byte>, n: nat): Option<seq<byte>> {
    if |text| % 5 != 0 || n > |text| * 4 / 5 then None else Groups(text, n)
  }

  // git_buf_decode_base85; a text that is not valid leaves the buffer as it was.
  method DecodeBase85(buf: seq<byte>, text: seq<byte>, outputLen: nat) returns (ok: bool, r: seq<byte>)
    ensures ok <==> Decode85(text, outputLen).Some?
    ensures r == if ok then buf + Decode85(text, outputLen).value else buf
  {
    hide Groups, Bytes4, Number;
    r := buf;
    if |text| % 5 != 0 || outputLen > |text| * 4 / 5 {
      return false, r;
    }
    var left: nat, i: nat := outputLen, 0;
    assert text[0..] == text;
    while left > 0
      invariant i <= |text| && (|text| - i) % 5 == 0 && left * 5 <= (|text| - i) * 4
      invariant Behind(buf, Groups(text, outputLen)) == Behind(r, Groups(text[i..], left))
    {
      GroupStep(r, text, i, left);
      var w := ReadGroup(text, i);
      if w.None? {
        return false, buf;
      }
      var cnt := if left < 4 then left else 4;
      left := left - cnt;
      r := r + Bytes4(w.value)[..cnt];
      i := i + 5;
    }
    NoGroups(r, text[i..]);
    return true, r;
  }

  function Behind(v: seq<byte>, r: Option<seq<byte>>): Option<seq<byte>> {
    if r.None? then None else Some(v + r.value)
  }

  // Five letters, with the source's check that the number fits 32 bits: the digits so far
  // are kept in 32 bits, and multiplied once more only if that is safe.
  method ReadGroup(text: seq<byte>, i: nat) returns (w: Option<int>)
    requires i + 5 <= |text|
    ensures w == if Number(text[i..]).Some? && Number(text[i..]).value < WORD then Number(text[i..]) else None
    ensures w.Some? ==> 0 <= w.value < WORD
  {
    var acc, k := 0, 0;
    ghost var t := text[i..];
    while k < 4
      invariant k <= 4 && 0 <= acc
      invariant forall l :: 0 <= l < k ==> 0 <= Value85(t[l]) < 85
      invariant acc == if k == 0 then 0 else if k == 1 then Value85(t[0]) else if k == 2 then Value85(t[0]) * 85 + Value85(t[1])
        else if k == 3 then (Value85(t[0]) * 85 + Value85(t[1])) * 85 + Value85(t[2])
        else ((Value85(t[0]) * 85 + Value85(t[1])) * 85 + Value85(t[2])) * 85 + Value85(t[3])
      invariant acc < if k == 0 then 1 else if k == 1 then 85 else if k == 2 then 7225 else if k == 3 then 614125 else 52200625
    {
      var de := Value85(text[i + k]);
      assert text[i + k] == t[k];
      if de < 0 {
        return None;
      }
      Below85(text[i + k]);
      acc := acc * 85 + de;
      k := k + 1;
    }
    var de := Value85(text[i + 4]);
    assert text[i + 4] == t[4];
    if de < 0 {
      return None;
    }
    Below85(text[i + 4]);
    if (WORD - 1) / 85 < acc || WORD - 1 - de < acc * 85 {
      return None;
    }
    return Some(acc * 85 + de);
  }

  lemma GroupStep(r: seq<byte>, text: seq<byte>, i: nat, n: nat)
    requires i + 5 <= |text| && n > 0
    ensures var w := Number(text[i..]);
      Behind(r, Groups(text[i..], n)) ==
        if w.None? || w.value >= WORD || w.value < 0 then None
        else Behind(r + Bytes4(w.value)[..Least(n, 4)], Groups(text[i + 5..], n - Least(n, 4)))
  {
    hide Number, Bytes4;
    var t := text[i..];
    assert t[5..] == text[i + 5..];
    var w, rest := Number(t), Groups(t[5..], n - Least(n, 4));
    if w.Some? && 0 <= w.value < WORD && rest.Some? {
      assert r + (Bytes4(w.value)[..Least(n, 4)] + rest.value) == r + Bytes4(w.value)[..Least(n, 4)] + rest.value;
    }
  }

  lemma NoGroups(r: seq<byte>, text: seq<byte>)
    ensures Groups(text, 0) == Some([]) && r + [] == r
  {
  }

  // A group is accepted exactly if its letters are allowed and its number fits 32 bits.
  lemma GroupFits(t: seq<byte>)
    requires |t| == 5
    ensures Decode85(t, 4).Some? <==> Number(t).Some? && Number(t).value < WORD
  {
    hide Number, Bytes4;
    NoGroups([], t[5..]);
    NumberPositive(t);
  }

  lemma NumberPositive(t: seq<byte>)
    requires |t| >= 5
    ensures Number(t).Some? ==> Number(t).value >= 0
  {
    hide Value85;
  }

  lemma FiveReads(w: int, u: seq<byte>)
    requires 0 <= w < WORD
    ensures Number(Five(w) + u) == Some(w)
  {
    hide Letter85, Value85;
    Letter85Reads(w / 85 / 85 / 85 / 85);
    Letter85Reads(w / 85 / 85 / 85 % 85);
    Letter85Reads(w / 85 / 85 % 85);
    Letter85Reads(w / 85 % 85);
    Letter85Reads(w % 85);
    var t := Five(w) + u;
    assert t[0] == Five(w)[0] && t[1] == Five(w)[1] && t[2] == Five(w)[2] && t[3] == Five(w)[3] && t[4] == Five(w)[4];
  }

  lemma WordReads(data: seq<byte>)
    ensures Bytes4(Word(data))[..Least(|data|, 4)] == data[..Least(|data|, 4)]
  {
    var w := Word(data);
    var a, b, c, d := At(data, 0), At(data, 1), At(data, 2), At(data, 3);
    assert w / 0x100_0000 == a && w / 0x1_0000 == a * 0x100 + b && w / 0x100 == a * 0x1_0000 + b * 0x100 + c;
    assert w / 0x1_0000 % 0x100 == b && w / 0x100 % 0x100 == c && w % 0x100 == d;
  }

  // What has been encoded reads back as the data, given its length.
  lemma {:induction false} GroupsOfEncode85(data: seq<byte>)
    ensures Groups(Encode85(data), |data|) == Some(data)
    ensures |Encode85(data)| % 5 == 0 && |data| * 5 <= |Encode85(data)| * 4
    decreases |data|
  {
    hide Five, Word, Number, Bytes4, Groups;
    NoGroups([], Encode85([]));
    if data != [] {
      var rest := if |data| <= 4 then [] else data[4..];
      GroupsOfEncode85(rest);
      FiveReads(Word(data), Encode85(rest));
      WordReads(data);
      FirstGroup(Five(Word(data)), Encode85(rest), Word(data), |data|);
      assert data[..Least(|data|, 4)] + rest == data;
    }
  }

  lemma FirstGroup(t: seq<byte>, u: seq<byte>, w: int, n: nat)
    requires |t| == 5 && n > 0 && Number(t + u) == Some(w) && 0 <= w < WORD && Groups(u, n - Least(n, 4)).Some?
    ensures Groups(t + u, n) == Some(Bytes4(w)[..Least(n, 4)] + Groups(u, n - Least(n, 4)).value)
  {
    hide Number, Bytes4;
    assert (t + u)[5..] == u;
  }

  lemma Decode85Encode85(data: seq<byte>)
    ensures Decode85(Encode85(data), |data|) == Some(data)
  {
    GroupsOfEncode85(data);
  }
}
