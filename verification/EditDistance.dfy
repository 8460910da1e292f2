/** Edit distance: the two-row table against shortest chains of single edits. */
module EditDistance {

  function Min(x: nat, y: nat): nat {
    if x <= y then x else y
  }

  function Min3(x: nat, y: nat, z: nat): nat {
    Min(Min(x, y), z)
  }

  function Init(s: string): string
    requires s != []
  {
    s[..|s| - 1]
  }

  function LastChar(s: string): char
    requires s != []
  {
    s[|s| - 1]
  }

  function Cost(a: string, b: string): nat
    requires a != [] && b != []
  {
    if LastChar(a) == LastChar(b) then 0 else 1
  }

  function Distance(a: string, b: string): nat
    decreases |a| + |b|
  {
    if a == [] then |b|
    else if b == [] then |a|
    else Min3(Distance(Init(a), b) + 1, Distance(a, Init(b)) + 1, Distance(Init(a), Init(b)) + Cost(a, b))
  }

  /** The first `j + 1` entries of the row after `prev`, for the `i`-th character `c`. */
  function RowPart(prev: seq<nat>, i: nat, c: char, b: string, j: nat): (row: seq<nat>)
    requires |prev| == |b| + 1 && j <= |b|
    ensures |row| == j + 1
  {
    if j == 0 then [i]
    else
      var row := RowPart(prev, i, c, b, j - 1);
      row + [Min3(prev[j] + 1, row[j - 1] + 1, prev[j - 1] + if c == b[j - 1] then 0 else 1)]
  }

  /** The row for the first `i` characters of `a`. */
  function Row(a: string, b: string, i: nat): (row: seq<nat>)
    requires i <= |a|
    ensures |row| == |b| + 1
  {
    if i == 0 then seq(|b| + 1, j => j)
    else RowPart(Row(a, b, i - 1), i, a[i - 1], b, |b|)
  }

  lemma {:induction false} RowPartEntry(prev: seq<nat>, i: nat, c: char, b: string, j: nat, k: nat)
    requires |prev| == |b| + 1 && k <= j <= |b|
    ensures var row := RowPart(prev, i, c, b, j);
            row[k] == if k == 0 then i
                      else Min3(prev[k] + 1, row[k - 1] + 1, prev[k - 1] + if c == b[k - 1] then 0 else 1)
  {
    if k < j {
      RowPartEntry(prev, i, c, b, j - 1, k);
    }
  }

  /** `f` obeys the recurrence at one pair of strings. */
  ghost predicate Recurs(f: (string, string) -> nat, s: string, t: string) {
    if s == [] then f(s, t) == |t|
    else if t == [] then f(s, t) == |s|
    else f(s, t) == Min3(f(Init(s), t) + 1, f(s, Init(t)) + 1, f(Init(s), Init(t)) + Cost(s, t))
  }

  lemma {:induction false} RowTabulates(f: (string, string) -> nat, a: string, b: string, i: nat, j: nat)
    requires forall s, t :: Recurs(f, s, t)
    requires i <= |a| && j <= |b|
    ensures Row(a, b, i)[j] == f(a[..i], b[..j])
  {
    assert Recurs(f, a[..i], b[..j]);
    if i > 0 {
      RowPartEntry(Row(a, b, i - 1), i, a[i - 1], b, |b|, j);
      if j > 0 {
        RowTabulates(f, a, b, i - 1, j);
        RowTabulates(f, a, b, i, j - 1);
        RowTabulates(f, a, b, i - 1, j - 1);
        PrefixRecurs(f, a, b, i, j);
      }
    }
  }

  lemma PrefixRecurs(f: (string, string) -> nat, a: string, b: string, i: nat, j: nat)
    requires 1 <= i <= |a| && 1 <= j <= |b| && Recurs(f, a[..i], b[..j])
    ensures f(a[..i], b[..j]) ==
            Min3(f(a[..i - 1], b[..j]) + 1, f(a[..i], b[..j - 1]) + 1,
                 f(a[..i - 1], b[..j - 1]) + if a[i - 1] == b[j - 1] then 0 else 1)
  {
    var s, t := a[..i], b[..j];
    assert Init(s) == a[..i - 1] && Init(t) == b[..j - 1];
  }

  lemma {:induction false} RowIsDistance(a: string, b: string)
    ensures Row(a, b, |a|)[|b|] == Distance(a, b)
  {
    var f: (string, string) -> nat := (s, t) => Distance(s, t);
    forall s, t ensures Recurs(f, s, t) {
      Recurrence(f, s, t);
    }
    RowTabulates(f, a, b, |a|, |b|);
    assert a[..|a|] == a && b[..|b|] == b;
  }

  lemma {:induction false} Recurrence(f: (string, string) -> nat, s: string, t: string)
    requires forall x, y :: f(x, y) == Distance(x, y)
    ensures Recurs(f, s, t)
  {
  }

  // ------------------------------------------------------- the program

  /** Two rows of the table, swapped after each character of `a`. */
  method Levenshtein(a: string, b: string) returns (distance: nat)
    ensures distance == Distance(a, b)
  {
    if |a| == 0 {
      return |b|;
    }
    if |b| == 0 {
      return |a|;
    }
    var prev := new nat[|b| + 1](j => j);
    var curr := new nat[|b| + 1](_ => 0);
    var i := 1;
    while i <= |a|
      invariant 1 <= i <= |a| + 1
      invariant prev != curr && prev.Length == curr.Length == |b| + 1
      invariant fresh(prev) && fresh(curr)
      invariant prev[..] == Row(a, b, i - 1)
    {
      FillRow(prev, curr, i, a[i - 1], b);
      prev, curr := curr, prev;
      i := i + 1;
    }
    RowIsDistance(a, b);
    assert prev[..][|b|] == prev[|b|];
    distance := prev[|b|];
  }

  /** The inner loop: overwrites `curr` with the row after `prev`. */
  method FillRow(prev: array<nat>, curr: array<nat>, i: nat, c: char, b: string)
    requires prev != curr && prev.Length == curr.Length == |b| + 1
    modifies curr
    ensures curr[..] == RowPart(prev[..], i, c, b, |b|)
  {
    ghost var above := prev[..];
    curr[0] := i;
    var j := 1;
    while j <= |b|
      invariant 1 <= j <= |b| + 1
      invariant curr[..j] == RowPart(above, i, c, b, j - 1)
    {
      var cost := if c == b[j - 1] then 0 else 1;
      ghost var done := curr[..j];
      assert done[j - 1] == curr[j - 1];
      curr[j] := Min3(prev[j] + 1, curr[j - 1] + 1, prev[j - 1] + cost);
      assert curr[..j + 1] == done + [curr[j]];
      j := j + 1;
    }
    assert curr[..] == curr[..|b| + 1];
  }

  // -------------------------------------------------- what it measures

  /** One insertion, deletion or substitution of one character, anywhere. */
  ghost predicate OneEdit(s: string, t: string) {
    exists p: string, m: string, n: string, z: string ::
      s == p + m + z && t == p + n + z && |m| <= 1 && |n| <= 1 && m != n
  }

  ghost predicate Chain(steps: seq<string>, a: string, b: string) {
    && steps != [] && steps[0] == a && steps[|steps| - 1] == b
    && forall i | 0 <= i < |steps| - 1 :: OneEdit(steps[i], steps[i + 1])
  }

  lemma {:induction false} Bounds(a: string, b: string)
    ensures |a| <= |b| + Distance(a, b) && |b| <= |a| + Distance(a, b)
    ensures Distance(a, b) <= if |a| <= |b| then |b| else |a|
    decreases |a| + |b|
  {
    if a != [] && b != [] {
      Bounds(Init(a), b);
      Bounds(a, Init(b));
      Bounds(Init(a), Init(b));
    }
  }

  lemma {:induction false} Symmetric(a: string, b: string)
    ensures Distance(a, b) == Distance(b, a)
    decreases |a| + |b|
  {
    if a != [] && b != [] {
      Symmetric(Init(a), b);
      Symmetric(a, Init(b));
      Symmetric(Init(a), Init(b));
    }
  }

  lemma {:induction false} ZeroOnlyOnEqual(a: string, b: string)
    ensures Distance(a, b) == 0 <==> a == b
    decreases |a| + |b|
  {
    if a != [] && b != [] {
      ZeroOnlyOnEqual(Init(a), Init(b));
      assert a == Init(a) + [LastChar(a)] && b == Init(b) + [LastChar(b)];
    }
  }

  /** Every way to build the last column costs at least the distance. */
  lemma {:induction false} Unfold(a: string, b: string)
    ensures a != [] ==> Distance(a, b) <= Distance(Init(a), b) + 1
    ensures b != [] ==> Distance(a, b) <= Distance(a, Init(b)) + 1
    ensures a != [] && b != [] ==> Distance(a, b) <= Distance(Init(a), Init(b)) + Cost(a, b)
  {
  }

  lemma {:induction false} Triangle(a: string, b: string, c: string)
    ensures Distance(a, c) <= Distance(a, b) + Distance(b, c)
    decreases |a| + |b| + |c|
  {
    if a == [] || b == [] || c == [] {
      Bounds(a, b);
      Bounds(b, c);
      Bounds(a, c);
    } else {
      Unfold(a, c);
      if Distance(a, b) == Distance(Init(a), b) + 1 {
        Triangle(Init(a), b, c);
      } else if Distance(b, c) == Distance(b, Init(c)) + 1 {
        Triangle(a, b, Init(c));
      } else if Distance(a, b) == Distance(a, Init(b)) + 1 {
        if Distance(b, c) == Distance(Init(b), c) + 1 {
          Triangle(a, Init(b), c);
        } else {
          Triangle(a, Init(b), Init(c));
        }
      } else if Distance(b, c) == Distance(Init(b), c) + 1 {
        Triangle(Init(a), Init(b), c);
      } else {
        Triangle(Init(a), Init(b), Init(c));
      }
    }
  }

  lemma {:induction false} CommonSuffix(a: string, b: string, z: string)
    ensures Distance(a + z, b + z) <= Distance(a, b)
  {
    if z == [] {
      assert a + z == a && b + z == b;
    } else {
      assert Init(a + z) == a + Init(z) && Init(b + z) == b + Init(z);
      Unfold(a + z, b + z);
      CommonSuffix(a, b, Init(z));
    }
  }

  lemma {:induction false} OneEditCostsOne(s: string, t: string)
    requires OneEdit(s, t)
    ensures Distance(s, t) <= 1
  {
    var p: string, m: string, n: string, z: string :|
      s == p + m + z && t == p + n + z && |m| <= 1 && |n| <= 1 && m != n;
    CommonSuffix(p + m, p + n, z);
    TailEditCostsOne(p, m, n);
  }

  lemma {:induction false} AppendCostsOne(p: string, c: char)
    ensures Distance(p + [c], p) <= 1
  {
    var s := p + [c];
    assert s != [] && Init(s) == p;
    ZeroOnlyOnEqual(p, p);
    Unfold(s, p);
  }

  lemma {:induction false} ReplaceCostsOne(p: string, c: char, d: char)
    ensures Distance(p + [c], p + [d]) <= 1
  {
    var s, t := p + [c], p + [d];
    assert s != [] && t != [] && Init(s) == p && Init(t) == p;
    ZeroOnlyOnEqual(p, p);
    Unfold(s, t);
  }

  lemma {:induction false} TailEditCostsOne(p: string, m: string, n: string)
    requires |m| <= 1 && |n| <= 1
    ensures Distance(p + m, p + n) <= 1
  {
    assert p + [] == p;
    if m == [] && n == [] {
      ZeroOnlyOnEqual(p, p);
    } else if n == [] {
      assert m == [m[0]];
      AppendCostsOne(p, m[0]);
    } else if m == [] {
      assert n == [n[0]];
      AppendCostsOne(p, n[0]);
      Symmetric(p + n, p);
    } else {
      assert m == [m[0]] && n == [n[0]];
      ReplaceCostsOne(p, m[0], n[0]);
    }
  }

  /** No chain of edits is shorter than the distance. */
  lemma {:induction false} NoShorterChain(steps: seq<string>, a: string, b: string)
    requires Chain(steps, a, b)
    ensures Distance(a, b) <= |steps| - 1
  {
    if |steps| == 1 {
      ZeroOnlyOnEqual(a, b);
    } else {
      var rest := steps[1..];
      forall i | 0 <= i < |rest| - 1 ensures OneEdit(rest[i], rest[i + 1]) {
        assert OneEdit(steps[i + 1], steps[i + 1 + 1]);
      }
      NoShorterChain(rest, steps[1], b);
      assert OneEdit(steps[0], steps[0 + 1]);
      OneEditCostsOne(a, steps[1]);
      Triangle(a, steps[1], b);
    }
  }

  lemma EditUnderSuffix(s: string, t: string, z: string)
    requires OneEdit(s, t)
    ensures OneEdit(s + z, t + z)
  {
    var p: string, m: string, n: string, y: string :|
      s == p + m + y && t == p + n + y && |m| <= 1 && |n| <= 1 && m != n;
    assert s + z == p + m + (y + z) && t + z == p + n + (y + z);
  }

  lemma LastEdit(p: string, m: string, n: string)
    requires |m| <= 1 && |n| <= 1 && m != n
    ensures OneEdit(p + m, p + n)
  {
    assert p + m == p + m + [] && p + n == p + n + [];
  }

  lemma ChainJoin(x: seq<string>, y: seq<string>, a: string, b: string, c: string)
    requires Chain(x, a, b) && Chain(y, b, c)
    ensures Chain(x + y[1..], a, c)
  {
  }

  lemma ChainUnderSuffix(x: seq<string>, a: string, b: string, z: string) returns (y: seq<string>)
    requires Chain(x, a, b)
    ensures Chain(y, a + z, b + z) && |y| == |x|
  {
    y := seq(|x|, i requires 0 <= i < |x| => x[i] + z);
    forall i | 0 <= i < |y| - 1 ensures OneEdit(y[i], y[i + 1]) {
      assert OneEdit(x[i], x[i + 1]);
      EditUnderSuffix(x[i], x[i + 1], z);
    }
  }

  lemma StepFirst(a: string, b: string, c: string, rest: seq<string>) returns (steps: seq<string>)
    requires OneEdit(a, b) && Chain(rest, b, c)
    ensures Chain(steps, a, c) && |steps| == |rest| + 1
  {
    ChainJoin([a, b], rest, a, b, c);
    steps := [a, b] + rest[1..];
  }

  lemma StepLast(a: string, b: string, c: string, rest: seq<string>) returns (steps: seq<string>)
    requires Chain(rest, a, b) && OneEdit(b, c)
    ensures Chain(steps, a, c) && |steps| == |rest| + 1
  {
    ChainJoin(rest, [b, c], a, b, c);
    steps := rest + [b, c][1..];
  }

  lemma LastCharEdits(a: string)
    requires a != []
    ensures OneEdit(a, Init(a)) && OneEdit(Init(a), a)
  {
    var p, x := Init(a), [LastChar(a)];
    assert a == p + x && p == p + [];
    LastEdit(p, x, []);
    LastEdit(p, [], x);
  }

  /** Some chain of edits is exactly as long as the distance. */
  lemma {:induction false} ShortestChain(a: string, b: string) returns (steps: seq<string>)
    ensures Chain(steps, a, b) && |steps| == Distance(a, b) + 1
    decreases |a| + |b|
  {
    if a == [] && b == [] {
      steps := [a];
    } else if b == [] || (a != [] && Distance(a, b) == Distance(Init(a), b) + 1) {
      LastCharEdits(a);
      var rest := ShortestChain(Init(a), b);
      steps := StepFirst(a, Init(a), b, rest);
    } else if a == [] || Distance(a, b) == Distance(a, Init(b)) + 1 {
      LastCharEdits(b);
      var rest := ShortestChain(a, Init(b));
      steps := StepLast(a, Init(b), b, rest);
    } else {
      steps := ShortestDiagonal(a, b);
    }
  }

  lemma {:induction false} ShortestDiagonal(a: string, b: string) returns (steps: seq<string>)
    requires a != [] && b != [] && Distance(a, b) == Distance(Init(a), Init(b)) + Cost(a, b)
    ensures Chain(steps, a, b) && |steps| == Distance(a, b) + 1
    decreases |a| + |b|, 0
  {
    var rest := ShortestChain(Init(a), Init(b));
    steps := Diagonal(a, b, rest);
  }

  lemma Diagonal(a: string, b: string, rest: seq<string>) returns (steps: seq<string>)
    requires a != [] && b != [] && Chain(rest, Init(a), Init(b))
    ensures Chain(steps, a, b) && |steps| == |rest| + Cost(a, b)
  {
    var p, q, x, y := Init(a), Init(b), [LastChar(a)], [LastChar(b)];
    assert a == p + x && b == q + y;
    steps := ChainUnderSuffix(rest, p, q, y);
    if LastChar(a) != LastChar(b) {
      assert x[0] != y[0];
      LastEdit(p, x, y);
      steps := StepFirst(a, p + y, b, steps);
    }
  }

  /** The distance is the length of the shortest chain of single edits. */
  lemma DistanceIsShortest(a: string, b: string, d: nat)
    ensures d == Distance(a, b) <==>
              && (exists steps :: Chain(steps, a, b) && |steps| == d + 1)
              && forall steps | Chain(steps, a, b) :: d + 1 <= |steps|
  {
    var best := ShortestChain(a, b);
    forall steps | Chain(steps, a, b) ensures Distance(a, b) + 1 <= |steps| {
      NoShorterChain(steps, a, b);
    }
  }
}
