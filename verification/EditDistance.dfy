// levenshtein of manager/external_functions.cpp: the least total weight of a script that
// turns one string into the other from left to right, found with three rows that take
// turns.
module EditDistance {
  import opened Options

  // swap, substitution, insertion, deletion. Any of them may be negative.
  datatype Weights = Weights(w: int, s: int, a: int, d: int)

  // What a script does at the front of what is left of the string.
  datatype Op = Put(c: char) | Insert(c: char) | Delete | Swap

  function Used(op: Op): nat {
    match op
    case Put(_) => 1
    case Insert(_) => 0
    case Delete => 1
    case Swap => 2
  }

  function Made(op: Op, x: string): string
    requires |x| == Used(op)
  {
    match op
    case Put(c) => [c]
    case Insert(c) => [c]
    case Delete => []
    case Swap => [x[1], x[0]]
  }

  // Putting a character that is there already costs nothing.
  function Price(op: Op, x: string, k: Weights): int
    requires |x| == Used(op)
  {
    match op
    case Put(c) => if x[0] == c then 0 else k.s
    case Insert(_) => k.a
    case Delete => k.d
    case Swap => k.w
  }

  // What a script makes of a string, if it uses up all of it and no more.
  function Apply(ops: seq<Op>, from: string): Option<string> {
    if ops == [] then if from == [] then Some([]) else None
    else
      var n := Used(ops[0]);
      if |from| < n then None
      else match Apply(ops[1..], from[n..])
        case None => None
        case Some(to) => Some(Made(ops[0], from[..n]) + to)
  }

  function Cost(ops: seq<Op>, from: string, k: Weights): int
    requires Apply(ops, from).Some?
  {
    if ops == [] then 0
    else
      var n := Used(ops[0]);
      Price(ops[0], from[..n], k) + Cost(ops[1..], from[n..], k)
  }

  function Least(a: int, b: int): int {
    if a <= b then a else b
  }

  // The weights of the last operation that the source considers, in its order.
  function Distance(from: string, to: string, k: Weights): int
    decreases |from| + |to|
  {
    if from == [] then |to| * k.a
    else if to == [] then |from| * k.d
    else
      var m, n := |from| - 1, |to| - 1;
      var put := Distance(from[..m], to[..n], k) + if from[m] == to[n] then 0 else k.s;
      var swap := if m > 0 && n > 0 && from[m - 1] == to[n] && from[m] == to[n - 1]
        then Least(put, Distance(from[..m - 1], to[..n - 1], k) + k.w) else put;
      Least(Least(swap, Distance(from[..m], to, k) + k.d), Distance(from, to[..n], k) + k.a)
  }

  // ---- no script is cheaper

  // The last operation of a script works on the end of the string.
  lemma {:induction false} LastOp(ops: seq<Op>, from: string, k: Weights) returns (i: nat)
    requires ops != [] && Apply(ops, from).Some?
    ensures var init, op := ops[..|ops| - 1], ops[|ops| - 1];
      && i <= |from| && |from| - i == Used(op) && Apply(init, from[..i]).Some?
      && Apply(ops, from).value == Apply(init, from[..i]).value + Made(op, from[i..])
      && Cost(ops, from, k) == Cost(init, from[..i], k) + Price(op, from[i..], k)
  {
    hide Made, Price;
    var n := Used(ops[0]);
    if |ops| == 1 {
      i := 0;
      assert ops[1..] == [] && ops[..0] == [] && from[..0] == [];
      assert from[n..] == [] && from[0..] == from[..n] == from;
      assert Made(ops[0], from) + [] == [] + Made(ops[0], from);
    } else {
      var rest := ops[1..];
      var j := LastOp(rest, from[n..], k);
      i := n + j;
      OneLess(ops, from, n, j);
      Joined(Made(ops[0], from[..n]), Apply(rest[..|rest| - 1], from[n..][..j]).value, Made(ops[|ops| - 1], from[i..]));
    }
  }

  lemma OneLess(ops: seq<Op>, from: string, n: nat, j: nat)
    requires |ops| > 1 && n + j <= |from|
    ensures var init, rest := ops[..|ops| - 1], ops[1..];
      init[1..] == rest[..|rest| - 1] && init[0] == ops[0] && init != [] && rest[|rest| - 1] == ops[|ops| - 1]
    ensures var x := from[..n + j];
      x[n..] == from[n..][..j] && x[..n] == from[..n] && from[n..][j..] == from[n + j..]
  {
  }

  lemma {:induction false} NoneIsCheaper(ops: seq<Op>, from: string, to: string, k: Weights)
    requires Apply(ops, from) == Some(to)
    ensures Distance(from, to, k) <= Cost(ops, from, k)
    decreases |ops|
  {
    if ops != [] {
      var i := LastOp(ops, from, k);
      var init, op := ops[..|ops| - 1], ops[|ops| - 1];
      var before := Apply(init, from[..i]).value;
      var made := Made(op, from[i..]);
      NoneIsCheaper(init, from[..i], before, k);
      assert to == before + made && to[..|before|] == before;
      LastStep(from, to, i, |before|, op, k);
    }
  }

  lemma {:induction false} Inside(from: string, to: string, k: Weights)
    requires from != [] && to != []
    ensures var m, n := |from| - 1, |to| - 1;
      var put := Distance(from[..m], to[..n], k) + if from[m] == to[n] then 0 else k.s;
      var swap := if m > 0 && n > 0 && from[m - 1] == to[n] && from[m] == to[n - 1]
        then Least(put, Distance(from[..m - 1], to[..n - 1], k) + k.w) else put;
      Distance(from, to, k) == Least(Least(swap, Distance(from[..m], to, k) + k.d), Distance(from, to[..n], k) + k.a)
  {
  }

  // One operation more costs at least the difference of the distances.
  lemma {:induction false} LastStep(from: string, to: string, i: nat, j: nat, op: Op, k: Weights)
    requires i <= |from| && |from| - i == Used(op) && j <= |to| && to[j..] == Made(op, from[i..])
    ensures Distance(from, to, k) <= Distance(from[..i], to[..j], k) + Price(op, from[i..], k)
  {
    hide Distance;
    assert |to| - j == |Made(op, from[i..])|;
    match op {
      case Put(c) => LastPut(from, to, c, k);
      case Insert(c) => LastInsert(from, to, k);
      case Delete => LastDelete(from, to, k);
      case Swap => SwapStep(from, to, i, j, k);
    }
  }

  lemma SwapStep(from: string, to: string, i: nat, j: nat, k: Weights)
    requires |from| == i + 2 && |to| == j + 2 && to[j..] == [from[i..][1], from[i..][0]]
    ensures Distance(from, to, k) <= Distance(from[..i], to[..j], k) + k.w
  {
    hide Distance;
    assert from[i..][0] == from[i] && from[i..][1] == from[i + 1];
    LastSwap(from, to, k);
  }

  lemma LastPut(from: string, to: string, c: char, k: Weights)
    requires from != [] && to != [] && to[|to| - 1..] == [c]
    ensures var i, j := |from| - 1, |to| - 1;
      Distance(from, to, k) <= Distance(from[..i], to[..j], k) + if from[i..][0] == c then 0 else k.s
  {
    Inside(from, to, k);
    hide Distance;
    assert to[|to| - 1..][0] == to[|to| - 1] && from[|from| - 1..][0] == from[|from| - 1];
  }

  lemma LastInsert(from: string, to: string, k: Weights)
    requires to != []
    ensures Distance(from, to, k) <= Distance(from[..|from|], to[..|to| - 1], k) + k.a
  {
    assert from[..|from|] == from;
    if from == [] {
      assert |to| * k.a == |to[..|to| - 1]| * k.a + k.a;
    } else {
      Inside(from, to, k);
      hide Distance;
    }
  }

  lemma LastDelete(from: string, to: string, k: Weights)
    requires from != []
    ensures Distance(from, to, k) <= Distance(from[..|from| - 1], to[..|to|], k) + k.d
  {
    assert to[..|to|] == to;
    if to == [] {
      DeleteAll(from, |from| - 1, k);
    } else {
      Inside(from, to, k);
      hide Distance;
    }
  }

  lemma LastSwap(from: string, to: string, k: Weights)
    requires |from| >= 2 && |to| >= 2 && to[|to| - 2..] == [from[|from| - 1], from[|from| - 2]]
    ensures Distance(from, to, k) <= Distance(from[..|from| - 2], to[..|to| - 2], k) + k.w
  {
    Inside(from, to, k);
    hide Distance;
    assert to[|to| - 2..][0] == to[|to| - 2] && to[|to| - 2..][1] == to[|to| - 1];
  }

  lemma DeleteAll(from: string, i: nat, k: Weights)
    requires |from| == i + 1
    ensures Distance(from, [], k) == Distance(from[..i], [], k) + k.d
  {
    assert |from| * k.d == i * k.d + k.d;
  }

  // ---- some script costs just that

  lemma {:induction false} Extend(ops: seq<Op>, from: string, op: Op, x: string, k: Weights)
    requires Apply(ops, from).Some? && |x| == Used(op)
    ensures Apply(ops + [op], from + x) == Some(Apply(ops, from).value + Made(op, x))
    ensures Cost(ops + [op], from + x, k) == Cost(ops, from, k) + Price(op, x, k)
  {
    hide Made, Price, Used;
    if ops == [] {
      assert ops + [op] == [op] && from + x == x && [op][1..] == [] && x[..|x|] == x && x[|x|..] == [];
      assert Made(op, x) + [] == Made(op, x) && [] + Made(op, x) == Made(op, x);
    } else {
      var n := Used(ops[0]);
      assert (ops + [op])[1..] == ops[1..] + [op] && (from + x)[n..] == from[n..] + x && (from + x)[..n] == from[..n];
      Extend(ops[1..], from[n..], op, x, k);
      Joined(Made(ops[0], from[..n]), Apply(ops[1..], from[n..]).value, Made(op, x));
    }
  }

  lemma Joined(a: string, b: string, c: string)
    ensures a + (b + c) == a + b + c
  {
  }

  lemma {:induction false} Achieved(from: string, to: string, k: Weights) returns (ops: seq<Op>)
    ensures Apply(ops, from) == Some(to) && Cost(ops, from, k) == Distance(from, to, k)
    decreases |from| + |to|
  {
    if from == [] && to == [] {
      ops := [];
    } else {
      var i, j, op := Cheapest(from, to, k);
      assert from == from[..i] + from[i..] && to == to[..j] + to[j..];
      ops := Achieved(from[..i], to[..j], k);
      Extend(ops, from[..i], op, from[i..], k);
      ops := ops + [op];
    }
  }

  // The operation that the distance was taken from.
  lemma Cheapest(from: string, to: string, k: Weights) returns (i: nat, j: nat, op: Op)
    requires from != [] || to != []
    ensures i <= |from| && |from| - i == Used(op) && j <= |to| && to[j..] == Made(op, from[i..])
    ensures i + j < |from| + |to|
    ensures Distance(from, to, k) == Distance(from[..i], to[..j], k) + Price(op, from[i..], k)
  {
    var m, n := |from| - 1, |to| - 1;
    if from == [] {
      i, j, op := 0, n, Insert(to[n]);
      assert |to| * k.a == |to[..n]| * k.a + k.a;
      assert from[..0] == from;
    } else if to == [] {
      i, j, op := m, 0, Delete;
      assert to[..0] == to;
      DeleteAll(from, m, k);
    } else {
      i, j, op := CheapestInside(from, to, k);
    }
  }

  lemma CheapestInside(from: string, to: string, k: Weights) returns (i: nat, j: nat, op: Op)
    requires from != [] && to != []
    ensures i <= |from| && |from| - i == Used(op) && j <= |to| && to[j..] == Made(op, from[i..])
    ensures i + j < |from| + |to|
    ensures Distance(from, to, k) == Distance(from[..i], to[..j], k) + Price(op, from[i..], k)
  {
    var m, n := |from| - 1, |to| - 1;
    assert from[..|from|] == from && to[..|to|] == to;
    var dist, put := Distance(from, to, k), Distance(from[..m], to[..n], k) + if from[m] == to[n] then 0 else k.s;
    Inside(from, to, k);
    hide Distance;
    if dist == Distance(from, to[..n], k) + k.a {
      i, j, op := |from|, n, Insert(to[n]);
    } else if dist == Distance(from[..m], to, k) + k.d {
      i, j, op := m, |to|, Delete;
    } else if dist == put {
      i, j, op := m, n, Put(to[n]);
    } else {
      i, j, op := m - 1, n - 1, Swap;
      assert from[i..] == [from[i], from[m]] && to[j..] == [to[j], to[n]];
    }
  }

  // ---- what the weights are for

  // One operation in the middle of a string that stays the same around it.
  lemma {:induction false} Between(u: string, op: Op, x: string, v: string, k: Weights) returns (ops: seq<Op>)
    requires |x| == Used(op)
    ensures Apply(ops, u + x + v) == Some(u + Made(op, x) + v) && Cost(ops, u + x + v, k) == Price(op, x, k)
    decreases |u| + |v|
  {
    hide Made, Price, Used, Apply, Cost;
    if v != [] {
      var n := |v| - 1;
      ops := Between(u, op, x, v[..n], k);
      PutOne(v[n], k);
      Extend(ops, u + x + v[..n], Put(v[n]), [v[n]], k);
      ops := ops + [Put(v[n])];
      assert v[..n] + [v[n]] == v;
      Joined(u + x, v[..n], [v[n]]);
      Joined(u + Made(op, x), v[..n], [v[n]]);
    } else if u != [] {
      ops := Kept(u, k);
      Extend(ops, u, op, x, k);
      ops := ops + [op];
      assert u + x + v == u + x && u + Made(op, x) + v == u + Made(op, x);
    } else {
      NoOps(k);
      Extend([], [], op, x, k);
      ops := [] + [op];
      assert u + x + v == [] + x && u + Made(op, x) + v == [] + Made(op, x);
    }
  }

  lemma PutOne(c: char, k: Weights)
    ensures Used(Put(c)) == 1 && Made(Put(c), [c]) == [c] && Price(Put(c), [c], k) == 0
  {
  }

  lemma NoOps(k: Weights)
    ensures Apply([], []) == Some([]) && Cost([], [], k) == 0
  {
  }

  lemma {:induction false} Kept(u: string, k: Weights) returns (ops: seq<Op>)
    ensures Apply(ops, u) == Some(u) && Cost(ops, u, k) == 0
  {
    ops := [];
    if u != [] {
      var n := |u| - 1;
      ops := Kept(u[..n], k);
      Extend(ops, u[..n], Put(u[n]), [u[n]], k);
      assert u[..n] + [u[n]] == u;
      ops := ops + [Put(u[n])];
    }
  }

  // A string can be left alone for nothing, and each change in it can be had for its weight.
  lemma EachWeight(u: string, b: char, c: char, v: string, k: Weights)
    ensures Distance(u, u, k) <= 0
    ensures Distance(u + [b] + v, u + [c] + v, k) <= k.s || b == c
    ensures Distance(u + [] + v, u + [c] + v, k) <= k.a
    ensures Distance(u + [c] + v, u + [] + v, k) <= k.d
    ensures Distance(u + [b, c] + v, u + [c, b] + v, k) <= k.w
  {
    hide Distance, Apply, Cost;
    var kept := Kept(u, k);
    NoneIsCheaper(kept, u, u, k);
    var put := Between(u, Put(c), [b], v, k);
    NoneIsCheaper(put, u + [b] + v, u + [c] + v, k);
    var insert := Between(u, Insert(c), [], v, k);
    NoneIsCheaper(insert, u + [] + v, u + [c] + v, k);
    var delete := Between(u, Delete, [c], v, k);
    NoneIsCheaper(delete, u + [c] + v, u + [] + v, k);
    var swap := Between(u, Swap, [b, c], v, k);
    NoneIsCheaper(swap, u + [b, c] + v, u + [c, b] + v, k);
  }

  // With positive weights only equal strings have no distance.
  lemma {:induction false} NothingIffSame(from: string, to: string, k: Weights)
    requires k.w > 0 && k.s > 0 && k.a > 0 && k.d > 0
    ensures Distance(from, to, k) >= 0 && (Distance(from, to, k) == 0 <==> from == to)
    decreases |from| + |to|
  {
    if from == [] || to == [] {
      OneIsEmpty(from, to, k);
    } else {
      var m, n := |from| - 1, |to| - 1;
      Inside(from, to, k);
      hide Distance;
      NothingIffSame(from[..m], to[..n], k);
      NothingIffSame(from[..m], to, k);
      NothingIffSame(from, to[..n], k);
      if m > 0 && n > 0 {
        NothingIffSame(from[..m - 1], to[..n - 1], k);
      }
      SameLast(from, to);
    }
  }

  lemma OneIsEmpty(from: string, to: string, k: Weights)
    requires k.a > 0 && k.d > 0 && (from == [] || to == [])
    ensures Distance(from, to, k) >= 0 && (Distance(from, to, k) == 0 <==> from == to)
  {
    assert |to| > 0 ==> (|to| - 1) * k.a >= 0;
    assert |from| > 0 ==> (|from| - 1) * k.d >= 0;
  }

  lemma SameLast(from: string, to: string)
    requires from != [] && to != []
    ensures var m, n := |from| - 1, |to| - 1; from == to <==> from[..m] == to[..n] && from[m] == to[n]
  {
    assert from == from[..|from| - 1] + [from[|from| - 1]] && to == to[..|to| - 1] + [to[|to| - 1]];
  }

  // ---- the three rows

  ghost predicate Row(row: array<int>, from: string, to: string, k: Weights)
    reads row
  {
    row.Length == |to| + 1 && forall j :: 0 <= j <= |to| ==> row[j] == Distance(from, to[..j], k)
  }

  lemma {:induction false} DistanceAt(from: string, to: string, i: nat, j: nat, k: Weights)
    requires i < |from| && j < |to|
    ensures var put := Distance(from[..i], to[..j], k) + if from[i] == to[j] then 0 else k.s;
      var swap := if i > 0 && j > 0 && from[i - 1] == to[j] && from[i] == to[j - 1]
        then Least(put, Distance(from[..i - 1], to[..j - 1], k) + k.w) else put;
      Distance(from[..i + 1], to[..j + 1], k) ==
        Least(Least(swap, Distance(from[..i], to[..j + 1], k) + k.d), Distance(from[..i + 1], to[..j], k) + k.a)
  {
    Prefixes(from, i);
    Prefixes(to, j);
    Inside(from[..i + 1], to[..j + 1], k);
    hide Distance;
  }

  lemma Prefixes(s: string, i: nat)
    requires i < |s|
    ensures var a := s[..i + 1]; a != [] && |a| == i + 1 && a[i] == s[i] && a[..i] == s[..i]
    ensures i > 0 ==> s[..i + 1][i - 1] == s[i - 1] && s[..i + 1][..i - 1] == s[..i - 1]
  {
  }

  // One row, from the two before it.
  method FillRow(row0: array<int>, row1: array<int>, row2: array<int>, from: string, to: string, i: nat, k: Weights)
    requires row0 != row2 && row1 != row2 && row2.Length == |to| + 1 && i < |from|
    requires Row(row1, from[..i], to, k) && (i > 0 ==> Row(row0, from[..i - 1], to, k))
    requires row0.Length == |to| + 1
    modifies row2
    ensures Row(row2, from[..i + 1], to, k)
  {
    hide Distance;
    row2[0] := (i + 1) * k.d;
    EmptyEnds(from, to, i + 1, k);
    var j := 0;
    while j < |to|
      invariant j <= |to|
      invariant forall l :: 0 <= l <= j ==> row2[l] == Distance(from[..i + 1], to[..l], k)
    {
      row2[j + 1] := row1[j] + if from[i] != to[j] then k.s else 0;
      if i > 0 && j > 0 && from[i - 1] == to[j] && from[i] == to[j - 1] && row2[j + 1] > row0[j - 1] + k.w {
        row2[j + 1] := row0[j - 1] + k.w;
      }
      if row2[j + 1] > row1[j + 1] + k.d {
        row2[j + 1] := row1[j + 1] + k.d;
      }
      if row2[j + 1] > row2[j] + k.a {
        row2[j + 1] := row2[j] + k.a;
      }
      DistanceAt(from, to, i, j, k);
      j := j + 1;
    }
  }

  lemma EmptyEnds(from: string, to: string, i: nat, k: Weights)
    requires i <= |from|
    ensures Distance(from[..i], to[..0], k) == i * k.d
    ensures forall j :: 0 <= j <= |to| ==> Distance([], to[..j], k) == j * k.a
  {
    assert to[..0] == [];
  }

  // The least weight of a script: no script that turns string1 into string2 costs less,
  // and one of them costs just that.
  method Levenshtein(string1: string, string2: string, k: Weights) returns (r: int)
    ensures forall ops :: Apply(ops, string1) == Some(string2) ==> r <= Cost(ops, string1, k)
    ensures exists ops :: Apply(ops, string1) == Some(string2) && r == Cost(ops, string1, k)
  {
    hide Distance, Apply, Cost;
    var len1, len2 := |string1|, |string2|;
    var row0, row1, row2 := new int[len2 + 1], new int[len2 + 1], new int[len2 + 1];
    EmptyEnds(string1, string2, 0, k);
    var j := 0;
    while j <= len2
      invariant j <= len2 + 1 && forall l :: 0 <= l < j ==> row1[l] == l * k.a
    {
      row1[j] := j * k.a;
      j := j + 1;
    }
    assert string1[..0] == [];
    var i := 0;
    while i < len1
      invariant i <= len1 && row0 != row2 && row1 != row2 && row0 != row1
      invariant fresh(row0) && fresh(row1) && fresh(row2)
      invariant row0.Length == row1.Length == row2.Length == len2 + 1
      invariant Row(row1, string1[..i], string2, k) && (i > 0 ==> Row(row0, string1[..i - 1], string2, k))
    {
      FillRow(row0, row1, row2, string1, string2, i, k);
      row0, row1, row2 := row1, row2, row0;
      i := i + 1;
    }
    assert string1[..len1] == string1 && string2[..len2] == string2;
    r := row1[len2];
    forall ops | Apply(ops, string1) == Some(string2)
      ensures r <= Cost(ops, string1, k)
    {
      NoneIsCheaper(ops, string1, string2, k);
    }
    ghost var best := Achieved(string1, string2, k);
  }

  // ---- the size of the numbers

  function Size(x: int): nat {
    if x < 0 then -x else x
  }

  // A script has one operation at most for each character of the two strings, so that the
  // distance stays within as many weights. With one weight more, that is what the loops
  // add to it, all sums stay below 2^31 if (|from| + |to| + 1) * m does.
  lemma {:induction false} DistanceFits(from: string, to: string, k: Weights, m: nat)
    requires Size(k.w) <= m && Size(k.s) <= m && Size(k.a) <= m && Size(k.d) <= m
    ensures Size(Distance(from, to, k)) <= (|from| + |to|) * m
    decreases |from| + |to|
  {
    hide Distance;
    if from == [] && to == [] {
      EmptyEnds(from, to, 0, k);
      assert from[..0] == from && to[..0] == to;
    } else {
      var i, j, op := Cheapest(from, to, k);
      DistanceFits(from[..i], to[..j], k, m);
      assert Size(Price(op, from[i..], k)) <= m;
      Grows(i + j, |from| + |to|, m);
    }
  }

  lemma {:induction false} Grows(i: nat, n: nat, m: nat)
    requires i < n
    ensures i * m + m <= n * m
  {
    assert (n - 1) * m + m == n * m;
    if i < n - 1 {
      Grows(i, n - 1, m);
    }
  }
}
