// The conversions of manager/math_functions.cpp: a sequence of bits is cut into packs of
// 24 bits, and the number they stand for is divided by 36 again and again to give the
// letters of a Zcode; the letters are divided by 2 again and again to give the bits back.
module ZcodeMath {
  import opened Options

  // The number that the digits stand for.
  function Value(b: nat, s: seq<int>): int {
    if s == [] then 0 else Value(b, s[..|s| - 1]) * b + s[|s| - 1]
  }

  ghost predicate Digits(b: nat, s: seq<int>) {
    forall i :: 0 <= i < |s| ==> 0 <= s[i] < b
  }

  // The digits of a number, without leading zeros.
  function InBase(b: nat, n: nat): (s: seq<int>)
    requires b >= 2
    decreases n
  {
    if n == 0 then [] else InBase(b, n / b) + [n % b]
  }

  function NoZeros(s: seq<int>): seq<int> {
    if s != [] && s[0] == 0 then NoZeros(s[1..]) else s
  }

  function Reverse<T>(s: seq<T>): (r: seq<T>)
    ensures |r| == |s| && forall i :: 0 <= i < |s| ==> r[i] == s[|s| - 1 - i]
  {
    seq(|s|, i requires 0 <= i < |s| => s[|s| - 1 - i])
  }

  // ---- numbers and digits

  lemma {:induction false} ValueFits(b: nat, s: seq<int>)
    requires b >= 2 && Digits(b, s)
    ensures Value(b, s) >= 0 && (Value(b, s) == 0 <==> NoZeros(s) == [])
  {
    if s != [] {
      var t, d := s[..|s| - 1], s[|s| - 1];
      assert s == t + [d];
      ValueFits(b, t);
      NoZerosAppend(t, d);
      assert NoZeros([d]) == if d == 0 then [] else [d] by { assert [d][1..] == []; }
      if Value(b, t) > 0 {
        assert Value(b, t) * b > 0;
      }
    }
  }

  // Only zeros in front are dropped, and all of them.
  lemma {:induction false} NoZerosIs(s: seq<int>) returns (k: nat)
    ensures k <= |s| && NoZeros(s) == s[k..] && (forall i :: 0 <= i < k ==> s[i] == 0) && (k < |s| ==> s[k] != 0)
  {
    if s != [] && s[0] == 0 {
      k := NoZerosIs(s[1..]);
      k := k + 1;
    } else {
      k := 0;
    }
  }

  lemma {:induction false} NoZerosAppend(t: seq<int>, d: int)
    ensures NoZeros(t + [d]) == if NoZeros(t) == [] then NoZeros([d]) else NoZeros(t) + [d]
  {
    if t == [] {
      assert t + [d] == [d];
    } else if t[0] == 0 {
      assert (t + [d])[1..] == t[1..] + [d];
      NoZerosAppend(t[1..], d);
    }
  }

  lemma DivideBack(b: nat, q: int, d: int)
    requires b >= 2 && 0 <= d < b && q >= 0
    ensures (q * b + d) / b == q && (q * b + d) % b == d
  {
    var n := q * b + d;
    assert n == n / b * b + n % b;
    assert (n / b - q) * b == d - n % b;
    if n / b != q {
      Multiple(b, n / b - q);
    }
  }

  lemma Multiple(b: nat, k: int)
    requires b >= 2 && k != 0
    ensures k * b >= b || k * b + b <= 0
  {
    if k > 0 {
      assert (k - 1) * b >= 0;
    } else {
      assert (-k - 1) * b >= 0;
    }
  }

  // The digits of a number are its representation, but for leading zeros.
  lemma {:induction false} InBaseOfValue(b: nat, s: seq<int>)
    requires b >= 2 && Digits(b, s)
    ensures Value(b, s) >= 0 && InBase(b, Value(b, s)) == NoZeros(s)
  {
    ValueFits(b, s);
    if s != [] {
      var t, d := s[..|s| - 1], s[|s| - 1];
      assert s == t + [d];
      InBaseOfValue(b, t);
      ValueFits(b, t);
      DivideBack(b, Value(b, t), d);
      NoZerosAppend(t, d);
      if NoZeros(s) != [] {
        assert NoZeros(t) == [] ==> NoZeros([d]) == [d] by { assert [d][1..] == []; }
      }
    }
  }

  lemma DivMod(b: nat, n: nat)
    requires b >= 2
    ensures n == n / b * b + n % b && 0 <= n % b < b && 0 <= n / b && (n > 0 ==> n / b < n)
    ensures n / b == 0 ==> n % b == n
  {
  }

  lemma {:induction false} ValueInBase(b: nat, n: nat)
    requires b >= 2
    ensures Value(b, InBase(b, n)) == n && Digits(b, InBase(b, n))
    ensures InBase(b, n) == [] || InBase(b, n)[0] != 0
    decreases n
  {
    if n > 0 {
      var q, d := n / b, n % b;
      DivMod(b, n);
      ValueInBase(b, q);
      ValueAppend(b, InBase(b, q), d);
      assert InBase(b, n) == InBase(b, q) + [d];
      if InBase(b, q) == [] {
        assert q == 0;
      }
    }
  }

  lemma ValueStep(b: nat, s: seq<int>, i: nat)
    requires i < |s|
    ensures Value(b, s[..i + 1]) == Value(b, s[..i]) * b + s[i]
  {
    assert s[..i + 1][..i] == s[..i];
  }

  lemma ValueAppend(b: nat, s: seq<int>, d: int)
    ensures Value(b, s + [d]) == Value(b, s) * b + d
  {
    assert (s + [d])[..|s|] == s;
  }

  // ---- packs of 24 bits

  const PACK := 16777216

  // The packs, taken from the right.
  function Packs(bits: seq<int>): seq<int>
    decreases |bits|
  {
    if bits == [] then []
    else if |bits| <= 24 then [Value(2, bits)]
    else Packs(bits[..|bits| - 24]) + [Value(2, bits[|bits| - 24..])]
  }

  function Pow2(n: nat): nat {
    if n == 0 then 1 else 2 * Pow2(n - 1)
  }

  lemma {:induction false} ValueConcat(a: seq<int>, c: seq<int>)
    ensures Value(2, a + c) == Value(2, a) * Pow2(|c|) + Value(2, c)
  {
    if c == [] {
      assert a + c == a;
    } else {
      var e, d := c[..|c| - 1], c[|c| - 1];
      ValueConcat(a, e);
      assert (a + c)[..|a + c| - 1] == a + e;
      assert Value(2, a) * Pow2(|c|) == Value(2, a) * Pow2(|e|) * 2;
    }
  }

  lemma {:induction false} ValueBound(s: seq<int>)
    requires Digits(2, s)
    ensures 0 <= Value(2, s) < Pow2(|s|)
  {
    if s != [] {
      ValueBound(s[..|s| - 1]);
    }
  }

  lemma Pow24()
    ensures Pow2(24) == PACK
  {
    assert Pow2(4) == 16 && Pow2(8) == 256 && Pow2(12) == 4096 && Pow2(16) == 65536 && Pow2(20) == 1048576;
  }

  lemma {:induction false} PowGrows(m: nat, n: nat)
    requires m <= n
    ensures Pow2(m) <= Pow2(n)
  {
    if m < n {
      PowGrows(m, n - 1);
    }
  }

  // The packs stand for the same number as the bits.
  lemma {:induction false} PacksValue(bits: seq<int>)
    requires Digits(2, bits)
    ensures Value(PACK, Packs(bits)) == Value(2, bits) && Digits(PACK, Packs(bits))
    decreases |bits|
  {
    Pow24();
    if bits == [] {
    } else if |bits| <= 24 {
      ValueBound(bits);
      PowGrows(|bits|, 24);
      ValueAppend(PACK, [], Value(2, bits));
      assert [] + [Value(2, bits)] == [Value(2, bits)];
    } else {
      var a, c := bits[..|bits| - 24], bits[|bits| - 24..];
      assert bits == a + c;
      PacksValue(a);
      ValueConcat(a, c);
      ValueBound(c);
      ValueAppend(PACK, Packs(a), Value(2, c));
    }
  }

  method PackValue(pack: seq<int>) returns (result: int)
    ensures result == Value(2, pack)
  {
    result := 0;
    var p := 0;
    while p < |pack|
      invariant p <= |pack| && result == Value(2, pack[..p])
    {
      ValueStep(2, pack, p);
      result := result * 2 + pack[p];
      p := p + 1;
    }
    assert pack[..p] == pack;
  }

  // arr_01_to_24_bit_pack_numbers
  method PackBits(bits: seq<int>) returns (numbers: seq<int>, error: int)
    ensures error == if Digits(2, bits) then 0 else 106
    ensures error == 0 ==> numbers == Packs(bits)
  {
    hide Packs, Reverse;
    var pack: seq<int> := [];
    numbers := [];
    var count, i := 0, |bits| - 1;
    ghost var end := |bits|;
    NoPacks(bits, numbers);
    while i >= 0
      invariant -1 <= i < |bits| && count == |pack| == end - 1 - i < 24 && end <= |bits| && (i == -1 ==> end == 0)
      invariant Reverse(pack) == bits[i + 1..end]
      invariant forall j :: i < j < |bits| ==> 0 <= bits[j] < 2
      invariant Packs(bits) == Packs(bits[..end]) + Reverse(numbers)
    {
      if bits[i] != 0 && bits[i] != 1 {
        return [], 106;
      }
      BitTakenBack(bits, i, end, pack);
      pack := pack + [bits[i]];
      count := count + 1;
      if !(count < 24 && i != 0) {
        count := 0;
        pack := Reverse(pack);
        var result := PackValue(pack);
        PackTaken(bits, end, i, result, numbers);
        numbers := numbers + [result];
        end := i;
        pack := [];
      }
      i := i - 1;
    }
    NoPacks(bits, Reverse(numbers));
    return Reverse(numbers), 0;
  }

  lemma NoPacks(bits: seq<int>, numbers: seq<int>)
    ensures bits[..|bits|] == bits && bits[|bits|..] == [] && Packs(bits[..0]) == [] && Reverse<int>([]) == []
    ensures Packs(bits) + [] == Packs(bits) && [] + numbers == numbers
  {
    assert bits[..0] == [];
  }

  lemma BitTakenBack(bits: seq<int>, i: nat, end: nat, pack: seq<int>)
    requires i < end <= |bits| && Reverse(pack) == bits[i + 1..end]
    ensures Reverse(pack + [bits[i]]) == bits[i..end]
  {
    assert Reverse(pack + [bits[i]]) == [bits[i]] + Reverse(pack) == bits[i..end];
  }

  lemma PackTaken(bits: seq<int>, end: nat, i: nat, result: int, numbers: seq<int>)
    requires i < end <= |bits| && end - i <= 24 && (end - i == 24 || i == 0) && result == Value(2, bits[i..end])
    ensures Packs(bits[..end]) + Reverse(numbers) == Packs(bits[..i]) + Reverse(numbers + [result])
  {
    assert Reverse(numbers + [result]) == [result] + Reverse(numbers);
    if i == 0 {
      assert bits[..0] == [] && bits[0..end] == bits[..end];
      assert Packs(bits[..end]) == [result];
      assert Packs([]) == [];
    } else {
      assert bits[..end][..end - 24] == bits[..i] && bits[..end][end - 24..] == bits[i..end];
      assert Packs(bits[..end]) == Packs(bits[..i]) + [result] by { assert end > 24; }
    }
  }

  // ---- division

  // div_24_bit_pack_numbers_36. The number divided in each step stays below 36 * 2^24, so
  // that error 107 does not occur.
  method DivideBy36(numbers: seq<int>) returns (result: seq<int>, rest: int, error: int)
    requires numbers != [] && Digits(PACK, numbers)
    ensures error == 0 && |result| == |numbers| && Digits(PACK, result) && 0 <= rest < 36
    ensures Value(PACK, numbers) == Value(PACK, result) * 36 + rest
  {
    result := [];
    var cur, last := 0, |numbers| - 1;
    var prepared := numbers[cur];
    assert numbers[..0] == [];
    ghost var before := 0;
    while true
      invariant 0 <= cur <= last && |result| == cur && Digits(PACK, result)
      invariant 0 <= prepared < 36 * PACK && before == prepared - numbers[cur]
      invariant 0 <= before && before / PACK < 36 && before % PACK == 0
      invariant Value(PACK, numbers[..cur]) == Value(PACK, result) * 36 + before / PACK
      decreases last - cur
    {
      var quotient := prepared / 36;
      ValueStep(PACK, numbers, cur);
      ValueAppend(PACK, result, quotient);
      result := result + [quotient];
      rest := prepared - quotient * 36;
      cur := cur + 1;
      if cur > last {
        break;
      }
      prepared := PACK * rest + numbers[cur];
      before := PACK * rest;
      if numbers[cur] > prepared {
        return [], 0, 107;
      }
    }
    assert numbers[..cur] == numbers;
    return result, rest, 0;
  }

  predicate AllZero(s: seq<int>) {
    forall i :: 0 <= i < |s| ==> s[i] == 0
  }

  lemma {:induction false} AllZeroValue(b: nat, s: seq<int>)
    requires b >= 2 && Digits(b, s)
    ensures AllZero(s) <==> Value(b, s) == 0
    ensures Value(b, s) >= 0
  {
    if s != [] {
      var t := s[..|s| - 1];
      AllZeroValue(b, t);
      if Value(b, t) > 0 {
        assert Value(b, t) * b > 0;
      }
      assert AllZero(s) <==> AllZero(t) && s[|s| - 1] == 0;
    }
  }

  // ---- letters

  function Letter(d: int): char
    requires 0 <= d < 36
  {
    if d < 10 then ('0' as int + d) as char else ('a' as int + d - 10) as char
  }

  predicate IsLetter(c: char) {
    '0' <= c <= '9' || 'a' <= c <= 'z'
  }

  function Number(c: char): int
    requires IsLetter(c)
  {
    if c <= '9' then c as int - '0' as int else c as int - 'a' as int + 10
  }

  function Letters(s: seq<int>): (r: string)
    requires Digits(36, s)
    ensures |r| == |s| && forall i :: 0 <= i < |s| ==> r[i] == Letter(s[i])
  {
    seq(|s|, i requires 0 <= i < |s| => Letter(s[i]))
  }

  ghost predicate AllLetters(s: string) {
    forall i :: 0 <= i < |s| ==> IsLetter(s[i])
  }

  function Numbers(s: string): (r: seq<int>)
    requires AllLetters(s)
    ensures |r| == |s| && Digits(36, r) && forall i :: 0 <= i < |s| ==> r[i] == Number(s[i])
  {
    seq(|s|, i requires 0 <= i < |s| => Number(s[i]))
  }

  // The digits from 10 on are the small letters.
  lemma LetterTable(d: int)
    requires 0 <= d < 36
    ensures Letter(d) == ("0123456789" + "abcdefghijklm" + "nopqrstuvwxyz")[d]
  {
  }

  lemma LettersBack(s: seq<int>)
    requires Digits(36, s)
    ensures AllLetters(Letters(s)) && Numbers(Letters(s)) == s
  {
  }

  lemma NumbersBack(s: string)
    requires AllLetters(s)
    ensures Letters(Numbers(s)) == s
  {
  }

  // numbers_to_letters
  method NumbersToLetters(digits: seq<int>) returns (letters: string, error: int)
    ensures error == if Digits(36, digits) then 0 else 1
    ensures error == 0 ==> letters == Letters(digits)
  {
    letters := [];
    var i := 0;
    while i < |digits|
      invariant i == |letters| <= |digits| && forall j :: 0 <= j < i ==> 0 <= digits[j] < 36 && letters[j] == Letter(digits[j])
    {
      if digits[i] < 0 || digits[i] > 35 {
        return letters, 1;
      }
      letters := letters + [Letter(digits[i])];
      i := i + 1;
    }
    return letters, 0;
  }

  // letters_to_numbers; an empty text is refused as well.
  method LettersToNumbers(letters: string) returns (numbers: seq<int>, error: int)
    ensures error == if letters != [] && AllLetters(letters) then 0 else 100
    ensures error == 0 ==> numbers == Numbers(letters)
  {
    numbers := [];
    if letters == [] {
      return [], 100;
    }
    var i := 0;
    while i < |letters|
      invariant i == |numbers| <= |letters| && forall j :: 0 <= j < i ==> IsLetter(letters[j]) && numbers[j] == Number(letters[j])
    {
      if !IsLetter(letters[i]) {
        return [], 100;
      }
      numbers := numbers + [Number(letters[i])];
      i := i + 1;
    }
    return numbers, 0;
  }

  // ---- encoding

  function Encoded(bits: seq<int>): string
    requires Digits(2, bits)
  {
    ValueFits(2, bits);
    ValueInBase(36, Value(2, bits));
    Letters(InBase(36, Value(2, bits)))
  }

  lemma EncodedIs(bits: seq<int>)
    requires Digits(2, bits)
    ensures var z := Encoded(bits);
      AllLetters(z) && (z != [] ==> z[0] != '0') && Value(36, Numbers(z)) == Value(2, bits)
  {
    ValueFits(2, bits);
    ValueInBase(36, Value(2, bits));
    LettersBack(InBase(36, Value(2, bits)));
  }

  // encode_zcode_24_bit_pack_numbers
  method EncodePacks(numbers: seq<int>) returns (letters: string, error: int)
    requires Digits(PACK, numbers)
    ensures error == 0 && Value(PACK, numbers) >= 0 && Digits(36, InBase(36, Value(PACK, numbers)))
    ensures letters == Letters(InBase(36, Value(PACK, numbers)))
  {
    var working, nums: seq<int> := numbers, [];
    AllZeroValue(PACK, numbers);
    ValueInBase(36, Value(PACK, numbers));
    ghost var n := Value(PACK, numbers);
    assert Reverse(nums) == [] && InBase(36, n) + [] == InBase(36, n);
    while !AllZero(working)
      invariant Digits(PACK, working) && Value(PACK, working) >= 0
      invariant InBase(36, n) == InBase(36, Value(PACK, working)) + Reverse(nums)
      decreases Value(PACK, working)
    {
      ghost var w := Value(PACK, working);
      AllZeroValue(PACK, working);
      var rest, error';
      working, rest, error' := DivideBy36(working);
      AllZeroValue(PACK, working);
      DivideBack(36, Value(PACK, working), rest);
      assert Reverse(nums + [rest]) == [rest] + Reverse(nums);
      assert InBase(36, w / 36) + [rest] + Reverse(nums) == InBase(36, w / 36) + ([rest] + Reverse(nums));
      nums := nums + [rest];
    }
    AllZeroValue(PACK, working);
    assert [] + Reverse(nums) == Reverse(nums);
    nums := Reverse(nums);
    letters, error := NumbersToLetters(nums);
  }

  // encode_zcode_arr01
  method Encode(bits: seq<int>) returns (letters: string, error: int)
    ensures error == if Digits(2, bits) then 0 else 8106
    ensures error == 0 ==> letters == Encoded(bits)
  {
    var numbers;
    numbers, error := PackBits(bits);
    if error != 0 {
      return [], error + 8000;
    }
    PacksValue(bits);
    letters, error := EncodePacks(numbers);
  }

  // ---- decoding

  // div2
  method DivideBy2(letters: string) returns (result: string, rest: int, error: int)
    ensures error == if letters != [] && AllLetters(letters) then 0 else 5100
    ensures error == 0 ==> |result| == |letters| && AllLetters(result) && 0 <= rest < 2
    ensures error == 0 ==> Value(36, Numbers(letters)) == Value(36, Numbers(result)) * 2 + rest
  {
    var numbers;
    numbers, error := LettersToNumbers(letters);
    if error != 0 {
      return [], 0, error + 5000;
    }
    var digits: seq<int> := [];
    var cur, last := 0, |numbers| - 1;
    var prepared := numbers[cur];
    assert numbers[..0] == [];
    rest := 0;
    while true
      invariant 0 <= cur <= last && |digits| == cur && Digits(36, digits)
      invariant 0 <= rest < 2 && prepared == 36 * rest + numbers[cur]
      invariant Value(36, numbers[..cur]) == Value(36, digits) * 2 + rest
      decreases last - cur
    {
      var quotient := prepared / 2;
      ValueStep(36, numbers, cur);
      ValueAppend(36, digits, quotient);
      digits := digits + [quotient];
      rest := prepared - quotient * 2;
      cur := cur + 1;
      if cur > last {
        break;
      }
      prepared := 36 * rest + numbers[cur];
    }
    assert numbers[..cur] == numbers;
    LettersBack(digits);
    result, error := NumbersToLetters(digits);
  }

  predicate OnlyZeros(s: string) {
    forall i :: 0 <= i < |s| ==> s[i] == '0'
  }

  function Decoded(letters: string): seq<int>
    requires AllLetters(letters)
  {
    ValueFits(36, Numbers(letters));
    InBase(2, Value(36, Numbers(letters)))
  }

  // decode_zcode on what follows the slash. A text of zeros only, or an empty one, stands
  // for no bits.
  method Decode(letters: string) returns (bits: seq<int>, error: int)
    ensures error == if AllLetters(letters) then 0 else 103
    ensures error == 0 ==> bits == Decoded(letters)
  {
    bits := [];
    var working := letters;
    ghost var n := if AllLetters(letters) then Value(36, Numbers(letters)) else 0;
    if AllLetters(letters) {
      ZerosValue(letters);
    }
    assert Reverse(bits) == [] && InBase(2, n) + [] == InBase(2, n);
    while !OnlyZeros(working)
      invariant AllLetters(letters) <==> AllLetters(working)
      invariant AllLetters(letters) ==> Value(36, Numbers(working)) >= 0
      invariant AllLetters(letters) ==> InBase(2, n) == InBase(2, Value(36, Numbers(working))) + Reverse(bits)
      decreases if AllLetters(working) then Value(36, Numbers(working)) else 0
    {
      ghost var w := if AllLetters(working) then Value(36, Numbers(working)) else 0;
      var rest, error';
      ghost var before := working;
      working, rest, error' := DivideBy2(working);
      if error' != 0 {
        return [], 103;
      }
      ZerosValue(before);
      ZerosValue(working);
      BitTaken(w, Value(36, Numbers(working)), rest, bits);
      bits := bits + [rest];
    }
    ZerosValue(working);
    assert [] + Reverse(bits) == Reverse(bits);
    bits := Reverse(bits);
    return bits, 0;
  }

  lemma BitTaken(w: int, q: int, rest: int, bits: seq<int>)
    requires w == q * 2 + rest && 0 <= rest < 2 && q >= 0 && w > 0
    ensures InBase(2, w) + Reverse(bits) == InBase(2, q) + Reverse(bits + [rest])
  {
    DivideBack(2, q, rest);
    assert Reverse(bits + [rest]) == [rest] + Reverse(bits);
    assert InBase(2, q) + [rest] + Reverse(bits) == InBase(2, q) + ([rest] + Reverse(bits));
  }

  lemma ZerosValue(s: string)
    requires AllLetters(s)
    ensures OnlyZeros(s) <==> Value(36, Numbers(s)) == 0
    ensures Value(36, Numbers(s)) >= 0
  {
    AllZeroValue(36, Numbers(s));
    if AllZero(Numbers(s)) {
      forall i | 0 <= i < |s|
        ensures s[i] == '0'
      {
        assert Numbers(s)[i] == 0;
      }
    }
  }

  // ---- integers

  function Padded(s: seq<int>): seq<int>
    decreases 3 - |s|
  {
    if |s| < 3 then Padded([0] + s) else s
  }

  lemma {:induction false} PaddedValue(b: nat, s: seq<int>)
    requires b >= 2 && Digits(b, s)
    ensures Digits(b, Padded(s)) && NoZeros(Padded(s)) == NoZeros(s)
    decreases 3 - |s|
  {
    if |s| < 3 {
      PaddedValue(b, [0] + s);
      assert ([0] + s)[1..] == s;
    }
  }

  lemma PaddedIs(s: seq<int>)
    ensures |s| == 0 ==> Padded(s) == [0, 0, 0]
    ensures |s| == 1 ==> Padded(s) == [0, 0] + s
    ensures |s| == 2 ==> Padded(s) == [0] + s
    ensures |s| > 2 ==> Padded(s) == s
  {
    if |s| == 0 {
      assert [0] + s == [0] && [0] + [0] == [0, 0] && [0] + [0, 0] == [0, 0, 0];
    } else if |s| == 1 {
      assert [0] + ([0] + s) == [0, 0] + s;
    }
  }

  // The digits of an integer, last first. Quotient and remainder are cut off towards
  // zero, as the source's language has them, so that a negative number has a negative
  // remainder in the end.
  method TakeDigits(number: int) returns (digits: seq<int>)
    ensures number >= 0 ==> Reverse(digits) == InBase(36, number)
    ensures number < 0 ==> digits != [] && digits[|digits| - 1] < 0
  {
    hide InBase, Reverse;
    digits := [];
    var n := number;
    ghost var all := if number >= 0 then InBase(36, number) else [];
    NoDigits(all);
    while n != 0
      invariant number >= 0 ==> n >= 0 && all == InBase(36, n) + Reverse(digits)
      invariant number < 0 ==> n <= 0 && (n == 0 ==> digits != [] && digits[|digits| - 1] < 0)
      decreases if n < 0 then -n else n
    {
      var quotient := if n < 0 then -(-n / 36) else n / 36;
      var remainder := n - quotient * 36;
      if number >= 0 {
        DigitTaken(n, quotient, remainder, digits);
      }
      digits := digits + [remainder];
      n := quotient;
    }
    NoDigits(Reverse(digits));
  }

  lemma NoDigits(s: seq<int>)
    ensures InBase(36, 0) == [] && Reverse<int>([]) == [] && s + [] == s && [] + s == s
  {
  }

  lemma DigitTaken(n: nat, q: nat, d: int, digits: seq<int>)
    requires n > 0 && n == q * 36 + d && 0 <= d < 36
    ensures InBase(36, n) + Reverse(digits) == InBase(36, q) + Reverse(digits + [d])
  {
    DivideBack(36, q, d);
    var s := InBase(36, q);
    assert InBase(36, n) == s + [d];
    hide InBase;
    assert Reverse(digits + [d]) == [d] + Reverse(digits);
    assert s + [d] + Reverse(digits) == s + ([d] + Reverse(digits));
  }

  // convert_integer_to_base_36: the name of a zekyll, of three letters at least. A
  // negative number ends in an error.
  method IntegerToBase36(number: int) returns (letters: string, error: int)
    ensures error == if number >= 0 then 0 else 1
    ensures number >= 0 ==> Digits(36, Padded(InBase(36, number))) && letters == Letters(Padded(InBase(36, number)))
  {
    var digits := TakeDigits(number);
    ghost var read := digits;
    PaddedIs(Reverse(digits));
    if |digits| == 0 {
      digits := digits + [0];
    }
    if |digits| == 1 {
      digits := digits + [0];
    }
    if |digits| == 2 {
      digits := digits + [0];
    }
    assert Reverse(digits) == Padded(Reverse(read));
    if number >= 0 {
      ValueInBase(36, number);
      PaddedValue(36, InBase(36, number));
    } else {
      assert Reverse(digits)[|digits| - |read|] == read[|read| - 1];
    }
    digits := Reverse(digits);
    letters, error := NumbersToLetters(digits);
  }

  // What an int of 32 bits makes of n where it wraps around.
  function Int32(n: int): int {
    (n + 0x8000_0000) % 0x1_0000_0000 - 0x8000_0000
  }

  lemma Int32Exact(n: nat)
    ensures Int32(n) == n <==> n < 0x8000_0000
  {
  }

  lemma Int32Adds(n: int, m: int, bit: int)
    requires bit == 0 || bit == 1
    ensures Int32(Int32(n) + bit * Int32(m)) == Int32(n + bit * m) && Int32(Int32(m) * 2) == Int32(m * 2)
  {
    hide Int32;
    var j := Int32Differs(n);
    var k := Int32Differs(m);
    Int32Same(Int32(n) + bit * Int32(m), n + bit * m, if bit == 0 then j else j + k);
    Int32Same(Int32(m) * 2, m * 2, 2 * k);
  }

  lemma Int32Differs(n: int) returns (k: int)
    ensures Int32(n) == n + k * 0x1_0000_0000
  {
    k := -((n + 0x8000_0000) / 0x1_0000_0000);
  }

  lemma Int32Same(a: int, b: int, k: int)
    requires a == b + k * 0x1_0000_0000
    ensures Int32(a) == Int32(b)
  {
    assert (a + 0x8000_0000) % 0x1_0000_0000 == (b + 0x8000_0000) % 0x1_0000_0000;
  }

  // get_integer_from_base_36, which finds the bits as decode_zcode does. The sum is an int of
  // 32 bits, so that it is exact below 2^31.
  method Base36ToInteger(letters: string) returns (number: int, error: int)
    ensures error == if AllLetters(letters) then 0 else 13100
    ensures error == 0 ==> number == Int32(Value(36, Numbers(letters)))
  {
    number, error := 0, 0;
    var bits: seq<int>, decodeError := Decode(letters);
    if decodeError != 0 {
      return 0, 13100;
    }
    ValueFits(36, Numbers(letters));
    ValueInBase(2, Value(36, Numbers(letters)));
    number := SumBits(bits);
  }

  method SumBits(bits: seq<int>) returns (number: int)
    requires Digits(2, bits)
    ensures number == Int32(Value(2, bits))
  {
    hide Value, Int32;
    number := Int32(0);
    var i, mul := |bits| - 1, Int32(1);
    ghost var n, m := 0, 1;
    assert bits[..|bits|] == bits;
    while i >= 0
      invariant -1 <= i < |bits| && number == Int32(n) && mul == Int32(m)
      invariant Value(2, bits) == Value(2, bits[..i + 1]) * m + n
    {
      ValueStep(2, bits, i);
      Doubled(Value(2, bits[..i]), bits[i], m);
      Int32Adds(n, m, bits[i]);
      number := Int32(number + bits[i] * mul);
      mul := Int32(mul * 2);
      n, m := n + bits[i] * m, m * 2;
      i := i - 1;
    }
    NoValue(bits, m);
  }

  lemma Doubled(v: int, bit: int, mul: int)
    ensures (v * 2 + bit) * mul == v * (mul * 2) + bit * mul
  {
  }

  lemma NoValue(bits: seq<int>, mul: int)
    ensures Value(2, bits[..0]) * mul == 0
  {
    assert bits[..0] == [];
  }

  lemma {:induction false} NoZerosValue(b: nat, s: seq<int>)
    ensures Value(b, NoZeros(s)) == Value(b, s)
  {
    if s != [] && s[0] == 0 {
      NoZerosValue(b, s[1..]);
      ZeroAhead(b, s);
    }
  }

  lemma {:induction false} ZeroAhead(b: nat, s: seq<int>)
    requires s != [] && s[0] == 0
    ensures Value(b, s) == Value(b, s[1..])
  {
    if |s| > 1 {
      ZeroAhead(b, s[..|s| - 1]);
      assert s[..|s| - 1][1..] == s[1..][..|s| - 2];
    } else {
      assert s[..0] == [] && s[1..] == [];
    }
  }

  // The name of a zekyll reads back as its number.
  lemma NameIsNumber(n: nat)
    ensures var s := Padded(InBase(36, n));
      Digits(36, s) && AllLetters(Letters(s)) && |Letters(s)| >= 3 && Value(36, Numbers(Letters(s))) == n
  {
    var s := InBase(36, n);
    ValueInBase(36, n);
    PaddedValue(36, s);
    PaddedIs(s);
    LettersBack(Padded(s));
    NoZerosValue(36, Padded(s));
    NoZerosValue(36, s);
  }

  // ---- round trips

  lemma DecodeEncode(bits: seq<int>)
    requires Digits(2, bits)
    ensures AllLetters(Encoded(bits)) && Decoded(Encoded(bits)) == NoZeros(bits)
  {
    ValueFits(2, bits);
    var n := Value(2, bits);
    ValueInBase(36, n);
    LettersBack(InBase(36, n));
    InBaseOfValue(2, bits);
  }

  function NoZeroLetters(s: string): string {
    if s != [] && s[0] == '0' then NoZeroLetters(s[1..]) else s
  }

  lemma EncodeDecode(letters: string)
    requires AllLetters(letters)
    ensures Digits(2, Decoded(letters)) && Encoded(Decoded(letters)) == NoZeroLetters(letters)
  {
    var s := Numbers(letters);
    ValueFits(36, s);
    ValueInBase(2, Value(36, s));
    InBaseOfValue(36, s);
    SameZeros(letters);
  }

  lemma {:induction false} SameZeros(letters: string)
    requires AllLetters(letters)
    ensures Digits(36, NoZeros(Numbers(letters))) && NoZeroLetters(letters) == Letters(NoZeros(Numbers(letters)))
  {
    if letters != [] && letters[0] == '0' {
      SameZeros(letters[1..]);
      assert Numbers(letters)[1..] == Numbers(letters[1..]);
    } else {
      NumbersBack(letters);
    }
  }
}
