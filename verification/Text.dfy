/**
Cutting text to a budget of columns or of bytes. `width` is the terminal's
column table; offsets count characters.
*/
module Text {
  import opened Wrappers

  type Widths = char -> nat

  const ZWJ: char := '\U{200D}'
  const ELLIPSIS: char := '\U{2026}'

  /** All the column table has to promise. */
  ghost predicate IsTable(width: Widths) {
    width(ZWJ) == 0 && width(ELLIPSIS) == 1
  }

  function DisplayWidth(width: Widths, s: string): nat {
    if s == [] then 0 else width(s[0]) + DisplayWidth(width, s[1..])
  }

  lemma {:induction false} WidthAppend(width: Widths, a: string, b: string)
    ensures DisplayWidth(width, a + b) == DisplayWidth(width, a) + DisplayWidth(width, b)
  {
    if a == [] {
      assert a + b == b;
    } else {
      assert (a + b)[1..] == a[1..] + b;
      WidthAppend(width, a[1..], b);
    }
  }

  lemma WidthSplit(width: Widths, s: string, k: nat)
    requires k <= |s|
    ensures DisplayWidth(width, s) == DisplayWidth(width, s[..k]) + DisplayWidth(width, s[k..])
  {
    assert s == s[..k] + s[k..];
    WidthAppend(width, s[..k], s[k..]);
  }

  lemma WidthGrows(width: Widths, s: string, i: nat, j: nat)
    requires i <= j <= |s|
    ensures DisplayWidth(width, s[..i]) <= DisplayWidth(width, s[..j])
    ensures DisplayWidth(width, s[j..]) <= DisplayWidth(width, s[i..])
  {
    WidthSplit(width, s[..j], i);
    assert s[..j][..i] == s[..i];
    WidthSplit(width, s[i..], j - i);
    assert s[i..][j - i..] == s[j..];
  }

  lemma WidthStep(width: Widths, s: string, i: nat)
    requires i < |s|
    ensures DisplayWidth(width, s[..i + 1]) == DisplayWidth(width, s[..i]) + width(s[i])
    ensures DisplayWidth(width, s[i..]) == width(s[i]) + DisplayWidth(width, s[i + 1..])
  {
    assert s[..i + 1] == s[..i] + [s[i]];
    WidthAppend(width, s[..i], [s[i]]);
    assert [s[i]][1..] == [];
  }

  // ------------------------------------------------ what a cut must be

  predicate Joiners(s: string, from: nat, to: nat)
    requires to <= |s|
  {
    forall i | from <= i < to :: s[i] == ZWJ
  }

  /** The longest prefix within the budget, less the joiners at its end. */
  ghost predicate IsLeftFit(width: Widths, s: string, budget: nat, end: nat) {
    && end <= |s| && DisplayWidth(width, s[..end]) <= budget
    && (end > 0 ==> s[end - 1] != ZWJ)
    && forall k | end < k <= |s| && DisplayWidth(width, s[..k]) <= budget :: Joiners(s, end, k)
  }

  /** The longest suffix within the budget, less the joiners at its start. */
  ghost predicate IsRightFit(width: Widths, s: string, budget: nat, start: nat) {
    && start <= |s| && DisplayWidth(width, s[start..]) <= budget
    && (start < |s| ==> s[start] != ZWJ)
    && forall k | 0 <= k < start && DisplayWidth(width, s[k..]) <= budget :: Joiners(s, k, start)
  }

  lemma LeftFitIsUnique(width: Widths, s: string, budget: nat, x: nat, y: nat)
    requires IsLeftFit(width, s, budget, x) && IsLeftFit(width, s, budget, y)
    ensures x == y
  {
  }

  // ----------------------------------------------------------- the loops

  /** Backs up past the joiners that end a prefix. */
  method TrimTrailingZwj(s: string, from: nat) returns (end: nat)
    requires from <= |s|
    ensures end <= from && Joiners(s, end, from)
    ensures end > 0 ==> s[end - 1] != ZWJ
  {
    end := from;
    while end > 0 && s[end - 1] == ZWJ
      invariant end <= from && Joiners(s, end, from)
    {
      end := end - 1;
    }
  }

  method LeftmostFitEnd(width: Widths, s: string, maxCols: nat) returns (end: nat)
    ensures IsLeftFit(width, s, maxCols, end)
  {
    var used := 0;
    var stop := 0;
    while stop < |s| && used + width(s[stop]) <= maxCols
      invariant 0 <= stop <= |s|
      invariant used == DisplayWidth(width, s[..stop]) && used <= maxCols
    {
      WidthStep(width, s, stop);
      used := used + width(s[stop]);
      stop := stop + 1;
    }
    end := TrimTrailingZwj(s, stop);
    WidthGrows(width, s, end, stop);
    forall k | end < k <= |s| && DisplayWidth(width, s[..k]) <= maxCols ensures Joiners(s, end, k) {
      if k > stop {
        WidthStep(width, s, stop);
        WidthGrows(width, s, stop + 1, k);
      }
    }
  }

  method RightmostFitStart(width: Widths, s: string, maxCols: nat) returns (start: nat)
    ensures IsRightFit(width, s, maxCols, start)
  {
    var used := 0;
    var stop := |s|;
    while stop > 0 && used + width(s[stop - 1]) <= maxCols
      invariant 0 <= stop <= |s|
      invariant used == DisplayWidth(width, s[stop..]) && used <= maxCols
    {
      WidthStep(width, s, stop - 1);
      stop := stop - 1;
      used := used + width(s[stop]);
    }
    start := stop;
    while start < |s| && s[start] == ZWJ
      invariant stop <= start <= |s| && Joiners(s, stop, start)
    {
      start := start + 1;
    }
    RightFitFrom(width, s, maxCols, stop, start);
  }

  lemma RightFitFrom(width: Widths, s: string, budget: nat, stop: nat, start: nat)
    requires stop <= start <= |s| && Joiners(s, stop, start)
    requires start < |s| ==> s[start] != ZWJ
    requires DisplayWidth(width, s[stop..]) <= budget
    requires stop > 0 ==> DisplayWidth(width, s[stop..]) + width(s[stop - 1]) > budget
    ensures IsRightFit(width, s, budget, start)
  {
    WidthGrows(width, s, stop, start);
    forall k | 0 <= k < start && DisplayWidth(width, s[k..]) <= budget ensures Joiners(s, k, start) {
      if k < stop {
        WidthStep(width, s, stop - 1);
        WidthGrows(width, s, k, stop - 1);
      }
    }
  }

  // ----------------------------------------------------- truncated texts

  lemma LeftFitExists(width: Widths, s: string, budget: nat)
    ensures exists end :: IsLeftFit(width, s, budget, end)
  {
    var stop := 0;
    while stop < |s| && DisplayWidth(width, s[..stop + 1]) <= budget
      invariant stop <= |s| && DisplayWidth(width, s[..stop]) <= budget
    {
      stop := stop + 1;
    }
    var end := stop;
    while end > 0 && s[end - 1] == ZWJ
      invariant end <= stop && Joiners(s, end, stop)
    {
      end := end - 1;
    }
    WidthGrows(width, s, end, stop);
    forall k | end < k <= |s| && DisplayWidth(width, s[..k]) <= budget ensures Joiners(s, end, k) {
      if k > stop {
        WidthGrows(width, s, stop + 1, k);
      }
    }
    assert IsLeftFit(width, s, budget, end);
  }

  ghost function LeftFit(width: Widths, s: string, budget: nat): (end: nat)
    ensures IsLeftFit(width, s, budget, end)
  {
    LeftFitExists(width, s, budget);
    var end: nat :| IsLeftFit(width, s, budget, end);
    end
  }

  ghost function Truncated(width: Widths, s: string, maxCols: nat): string {
    if DisplayWidth(width, s) <= maxCols then s else s[..LeftFit(width, s, maxCols)]
  }

  method TruncateDisplay(width: Widths, s: string, maxCols: nat) returns (r: string)
    ensures r == Truncated(width, s, maxCols)
  {
    if DisplayWidth(width, s) <= maxCols {
      return s;
    }
    var end := LeftmostFitEnd(width, s, maxCols);
    LeftFitIsUnique(width, s, maxCols, end, LeftFit(width, s, maxCols));
    r := s[..end];
  }

  ghost function WithEllipsis(width: Widths, s: string, maxCols: nat): string {
    if maxCols == 0 then ""
    else if DisplayWidth(width, s) <= maxCols then s
    else if maxCols == 1 then [ELLIPSIS]
    else s[..LeftFit(width, s, maxCols - 1)] + [ELLIPSIS]
  }

  method TruncateDisplayEllipsis(width: Widths, s: string, maxCols: nat) returns (r: string)
    ensures r == WithEllipsis(width, s, maxCols)
  {
    if maxCols == 0 {
      return "";
    }
    if DisplayWidth(width, s) <= maxCols {
      return s;
    }
    if maxCols == 1 {
      return [ELLIPSIS];
    }
    var end := LeftmostFitEnd(width, s, maxCols - 1);
    LeftFitIsUnique(width, s, maxCols - 1, end, LeftFit(width, s, maxCols - 1));
    r := s[..end] + [ELLIPSIS];
  }

  /** How a shortened text is put together. */
  ghost predicate MiddleCut(width: Widths, s: string, maxCols: nat, r: string, head: nat, tail: nat)
    requires maxCols >= 2
  {
    && head < tail <= |s|
    && r == s[..head] + [ELLIPSIS] + s[tail..]
    && IsLeftFit(width, s, maxCols / 2, head)
    && IsRightFit(width, s, (maxCols - 1) / 2, tail)
    && DisplayWidth(width, s[head..tail]) >= 2
  }

  /**
   Too long for two or more columns: a true head and tail that do not overlap
   around at least two columns of removed text, and a result within budget.
   */
  method MiddleTruncate(width: Widths, s: string, maxCols: nat) returns (r: string, ghost head: nat, ghost tail: nat)
    requires IsTable(width)
    ensures DisplayWidth(width, s) <= maxCols ==> r == s
    ensures DisplayWidth(width, s) > maxCols ==>
              && (maxCols == 0 ==> r == "") && (maxCols == 1 ==> r == [ELLIPSIS])
              && (maxCols >= 2 ==> MiddleCut(width, s, maxCols, r, head, tail))
    ensures DisplayWidth(width, r) <= maxCols
  {
    head, tail := 0, 0;
    EllipsisIsOneWide(width);
    if DisplayWidth(width, s) <= maxCols {
      return s, head, tail;
    }
    if maxCols == 0 {
      return "", head, tail;
    }
    if maxCols == 1 {
      return [ELLIPSIS], head, tail;
    }
    var budget := maxCols - 1;
    var headBudget := (budget + 1) / 2;
    var tailBudget := budget - headBudget;
    var end := LeftmostFitEnd(width, s, headBudget);
    var start := RightmostFitStart(width, s, tailBudget);
    HeadBeforeTail(width, s, end, start, budget);
    head, tail := end, start;
    r := s[..end] + [ELLIPSIS] + s[start..];
    WidthAppend(width, s[..end] + [ELLIPSIS], s[start..]);
    WidthAppend(width, s[..end], [ELLIPSIS]);
  }

  lemma HeadBeforeTail(width: Widths, s: string, end: nat, start: nat, budget: nat)
    requires end <= |s| && start <= |s| && DisplayWidth(width, s) >= budget + 2
    requires DisplayWidth(width, s[..end]) + DisplayWidth(width, s[start..]) <= budget
    ensures end < start && DisplayWidth(width, s[end..start]) >= 2
  {
    WidthSplit(width, s, end);
    if end < start {
      WidthSplit(width, s[end..], start - end);
      assert s[end..][..start - end] == s[end..start] && s[end..][start - end..] == s[start..];
    } else {
      WidthGrows(width, s, start, end);
    }
  }

  // ------------------------------------------------------------- laws

  /** A fit of a prefix that reaches past the budget is a fit of the whole. */
  lemma FitOfPrefix(width: Widths, s: string, cut: nat, budget: nat, end: nat)
    requires cut <= |s| && DisplayWidth(width, s[..cut]) > budget
    requires IsLeftFit(width, s[..cut], budget, end)
    ensures IsLeftFit(width, s, budget, end)
  {
    assert s[..cut][..end] == s[..end];
    forall k | end < k <= |s| && DisplayWidth(width, s[..k]) <= budget ensures Joiners(s, end, k) {
      if k >= cut {
        WidthGrows(width, s, cut, k);
      } else {
        assert s[..cut][..k] == s[..k];
        assert Joiners(s[..cut], end, k);
      }
    }
  }

  /** The fit for a larger budget is the fit for a smaller one it does not exceed. */
  lemma FitForLess(width: Widths, s: string, large: nat, small: nat, end: nat)
    requires IsLeftFit(width, s, large, end) && small <= large && DisplayWidth(width, s[..end]) <= small
    ensures IsLeftFit(width, s, small, end)
  {
  }

  /** Cutting to `a` columns and then to `b` is cutting once to the smaller. */
  lemma TruncationComposes(width: Widths, s: string, a: nat, b: nat)
    ensures Truncated(width, Truncated(width, s, a), b) == Truncated(width, s, if a <= b then a else b)
  {
    if DisplayWidth(width, s) > a {
      var cut := LeftFit(width, s, a);
      var t := s[..cut];
      assert t == Truncated(width, s, a);
      if b < a {
        if DisplayWidth(width, t) <= b {
          FitForLess(width, s, a, b, cut);
          LeftFitIsUnique(width, s, b, cut, LeftFit(width, s, b));
        } else {
          var end := LeftFit(width, t, b);
          FitOfPrefix(width, s, cut, b, end);
          LeftFitIsUnique(width, s, b, end, LeftFit(width, s, b));
          assert t[..end] == s[..end];
        }
      }
    }
  }

  /** A shortened text is the longest prefix within budget, less the joiners at its end. */
  lemma ShortenedIsClean(width: Widths, s: string, maxCols: nat)
    ensures var r := Truncated(width, s, maxCols);
            && r <= s && DisplayWidth(width, r) <= maxCols
            && (r != s && r != [] ==> r[|r| - 1] != ZWJ)
            && (r == s <==> DisplayWidth(width, s) <= maxCols)
            && (r != s ==> IsLeftFit(width, s, maxCols, |r|))
  {
  }

  /** The ellipsis fits too, and tells shortened text from whole. */
  lemma EllipsisFits(width: Widths, s: string, maxCols: nat)
    requires IsTable(width)
    ensures DisplayWidth(width, WithEllipsis(width, s, maxCols)) <= maxCols
    ensures WithEllipsis(width, s, 0) == ""
    ensures DisplayWidth(width, s) <= maxCols && maxCols > 0 ==> WithEllipsis(width, s, maxCols) == s
    ensures DisplayWidth(width, s) > maxCols > 0 ==>
              var r := WithEllipsis(width, s, maxCols);
              && r != [] && r[|r| - 1] == ELLIPSIS && r[..|r| - 1] <= s && r != s
              && (maxCols >= 2 ==> IsLeftFit(width, s, maxCols - 1, |r| - 1))
  {
    assert [ELLIPSIS][1..] == [];
    if maxCols > 0 && DisplayWidth(width, s) > maxCols {
      if maxCols == 1 {
        assert [ELLIPSIS][..0] == [];
      } else {
        var end := LeftFit(width, s, maxCols - 1);
        var r := s[..end] + [ELLIPSIS];
        WidthAppend(width, s[..end], [ELLIPSIS]);
        assert r[..|r| - 1] == s[..end];
      }
    }
  }

  /** How many characters without width a text begins with. */
  function ZeroRun(width: Widths, s: string): (z: nat)
    ensures z <= |s|
  {
    if s == [] || width(s[0]) > 0 then 0 else 1 + ZeroRun(width, s[1..])
  }

  /**
   The text begins with characters without width, not all of them joiners, and
   the next one takes `a` columns or more: a cut to `a` with an ellipsis keeps
   the zero-width ones alone, which a cut to one column would drop.
   */
  predicate ZeroWidthHead(width: Widths, s: string, a: nat) {
    var z := ZeroRun(width, s);
    z < |s| && width(s[z]) >= a && exists i | 0 <= i < z :: s[i] != ZWJ
  }

  /** With ellipses a second cut agrees with one cut to the smaller budget, one corner aside. */
  lemma EllipsisComposesIff(width: Widths, s: string, a: nat, b: nat)
    requires IsTable(width)
    ensures WithEllipsis(width, WithEllipsis(width, s, a), b) == WithEllipsis(width, s, if a <= b then a else b) <==>
            !(b == 1 && a >= 2 && DisplayWidth(width, s) > a && ZeroWidthHead(width, s, a))
  {
    if a >= 2 && DisplayWidth(width, s) > a {
      ZeroWidthHeadIsKept(width, s, a);
    }
    EllipsisFits(width, s, a);
    EllipsisIsOneWide(width);
    if DisplayWidth(width, s) > a && a >= 2 && 0 < b < a {
      var cut := LeftFit(width, s, a - 1);
      WidthAppend(width, s[..cut], [ELLIPSIS]);
      if DisplayWidth(width, s[..cut]) >= b {
        if b >= 2 {
          EllipsisRecut(width, s, cut, b);
        }
      } else {
        EllipsisStays(width, s, cut, a, b);
      }
    }
  }

  lemma {:induction false} ZeroRunIsLongest(width: Widths, s: string, k: nat)
    requires k <= |s|
    ensures DisplayWidth(width, s[..k]) == 0 <==> k <= ZeroRun(width, s)
    ensures k < ZeroRun(width, s) ==> width(s[k]) == 0
    ensures ZeroRun(width, s) < |s| ==> width(s[ZeroRun(width, s)]) > 0
  {
    if s != [] {
      if width(s[0]) == 0 {
        ZeroRunIsLongest(width, s[1..], if k == 0 then 0 else k - 1);
      }
      if k > 0 {
        assert s[..k][1..] == s[1..][..k - 1];
      }
    }
  }

  /** The corner in terms of the first cut: a head is left, and it has no width. */
  lemma ZeroWidthHeadIsKept(width: Widths, s: string, a: nat)
    requires IsTable(width) && a >= 2 && DisplayWidth(width, s) > a
    ensures ZeroWidthHead(width, s, a) <==>
              var cut := LeftFit(width, s, a - 1); cut > 0 && DisplayWidth(width, s[..cut]) == 0
  {
    var z, cut := ZeroRun(width, s), LeftFit(width, s, a - 1);
    ZeroRunIsLongest(width, s, z);
    ZeroRunIsLongest(width, s, cut);
    assert s[..|s|] == s;
    ZeroRunIsLongest(width, s, |s|);
    WidthStep(width, s, z);
    if ZeroWidthHead(width, s, a) {
      if cut > z {
        WidthGrows(width, s, z + 1, cut);
      }
      assert Joiners(s, cut, z);
    }
  }

  const ACCENT: char := '\U{0301}'
  const WIDE: char := '\U{6F22}'

  /** A combining accent before a wide character: cut to two columns it stays, cut to one it goes. */
  lemma EllipsisCorner(width: Widths)
    requires IsTable(width) && width(ACCENT) == 0 && width(WIDE) == 2
    ensures var s := [ACCENT, WIDE, WIDE];
            && WithEllipsis(width, s, 2) == [ACCENT, ELLIPSIS]
            && WithEllipsis(width, WithEllipsis(width, s, 2), 1) == [ACCENT, ELLIPSIS]
            && WithEllipsis(width, s, 1) == [ELLIPSIS]
  {
    var s := [ACCENT, WIDE, WIDE];
    WidthAppend(width, [ACCENT], [WIDE, WIDE]);
    WidthAppend(width, [WIDE], [WIDE]);
    WidthAppend(width, [ACCENT], [WIDE]);
    WidthAppend(width, [ACCENT], [ELLIPSIS]);
    assert [ACCENT][1..] == [] && [WIDE][1..] == [] && [ELLIPSIS][1..] == [];
    assert [ACCENT] + [WIDE, WIDE] == s && [WIDE] + [WIDE] == [WIDE, WIDE];
    assert [ACCENT] + [ELLIPSIS] == [ACCENT, ELLIPSIS];
    assert s[..1] == [ACCENT] && s[..2] == [ACCENT] + [WIDE];
    forall k | 1 < k <= |s| ensures DisplayWidth(width, s[..k]) > 1 {
      WidthGrows(width, s, 2, k);
    }
    LeftFitIsUnique(width, s, 1, 1, LeftFit(width, s, 1));
  }

  lemma EllipsisIsOneWide(width: Widths)
    requires IsTable(width)
    ensures DisplayWidth(width, [ELLIPSIS]) == 1
  {
  }

  /** A first cut that fits the second budget is what the second cut would make. */
  lemma EllipsisStays(width: Widths, s: string, cut: nat, a: nat, b: nat)
    requires IsTable(width) && a >= 2 && 0 < b < a && DisplayWidth(width, s) > a
    requires cut == LeftFit(width, s, a - 1) && DisplayWidth(width, s[..cut]) < b
    ensures b >= 2 ==> s[..cut] == s[..LeftFit(width, s, b - 1)]
    ensures s[..cut] + [ELLIPSIS] == [ELLIPSIS] <==> cut == 0
  {
  }

  /** Cutting a text that already ends in an ellipsis cuts the text itself. */
  lemma EllipsisRecut(width: Widths, s: string, cut: nat, b: nat)
    requires IsTable(width) && cut <= |s| && b >= 2 && DisplayWidth(width, s[..cut]) >= b
    ensures var t := s[..cut] + [ELLIPSIS];
            t[..LeftFit(width, t, b - 1)] == s[..LeftFit(width, s, b - 1)]
  {
    var t := s[..cut] + [ELLIPSIS];
    assert t[..cut] == s[..cut];
    var end := LeftFit(width, s[..cut], b - 1);
    FitOfPrefix(width, t, cut, b - 1, end);
    FitOfPrefix(width, s, cut, b - 1, end);
    LeftFitIsUnique(width, t, b - 1, end, LeftFit(width, t, b - 1));
    LeftFitIsUnique(width, s, b - 1, end, LeftFit(width, s, b - 1));
    assert t[..end] == s[..end];
  }

  // --------------------------------------------------------------- bytes

  /** The bits of a character number that `n` bytes carry: seven in one, else six in each after the first. */
  function PayloadBits(n: nat): nat
    requires 1 <= n <= 4
  {
    if n == 1 then 7 else 7 - n + 6 * (n - 1)
  }

  function Pow2(n: nat): nat {
    if n == 0 then 1 else 2 * Pow2(n - 1)
  }

  lemma PayloadSizes()
    ensures Pow2(PayloadBits(1)) == 0x80 && Pow2(PayloadBits(2)) == 0x800
    ensures Pow2(PayloadBits(3)) == 0x1_0000 && Pow2(PayloadBits(4)) == 0x20_0000
  {
  }

  /** Bytes of one character in UTF-8 (section 3 of RFC 3629): as few as carry its number. */
  function Utf8Size(c: char): (n: nat)
    ensures 1 <= n <= 4 && (c as int) < Pow2(PayloadBits(n))
    ensures n > 1 ==> (c as int) >= Pow2(PayloadBits(n - 1))
  {
    PayloadSizes();
    if (c as int) < 0x80 then 1
    else if (c as int) < 0x800 then 2
    else if (c as int) < 0x1_0000 then 3
    else 4
  }

  function Utf8Length(s: string): nat {
    if s == [] then 0 else Utf8Size(s[0]) + Utf8Length(s[1..])
  }

  predicate IsCharBoundary(s: string, offset: nat) {
    offset == 0 || (s != [] && offset >= Utf8Size(s[0]) && IsCharBoundary(s[1..], offset - Utf8Size(s[0])))
  }

  /** `text[..offset]`, for an offset on a character boundary. */
  function BytePrefix(s: string, offset: nat): (r: string)
    requires IsCharBoundary(s, offset)
    ensures r <= s && Utf8Length(r) == offset
  {
    if offset == 0 then ""
    else
      var rest := BytePrefix(s[1..], offset - Utf8Size(s[0]));
      assert ([s[0]] + rest)[1..] == rest;
      [s[0]] + rest
  }

  lemma {:induction false} PrefixIsBoundary(s: string, i: nat)
    requires i <= |s|
    ensures IsCharBoundary(s, Utf8Length(s[..i]))
    ensures Utf8Length(s[..i]) <= Utf8Length(s)
  {
    if i > 0 {
      assert s[..i][1..] == s[1..][..i - 1];
      PrefixIsBoundary(s[1..], i - 1);
    }
  }

  lemma {:induction false} LongerHasMoreBytes(s: string, i: nat, j: nat)
    requires i < j <= |s|
    ensures Utf8Length(s[..i]) < Utf8Length(s[..j])
  {
    assert s[..j][1..] == s[1..][..j - 1];
    if i > 0 {
      assert s[..i][1..] == s[1..][..i - 1];
      LongerHasMoreBytes(s[1..], i - 1, j - 1);
    }
  }

  /** The longest prefix of whole characters within the cap. */
  ghost predicate IsByteCut(s: string, cap: nat, r: string) {
    && r <= s && Utf8Length(r) <= cap
    && forall i | |r| < i <= |s| :: Utf8Length(s[..i]) > cap
  }

  method TruncateBytes(text: string, cap: Option<nat>) returns (r: string)
    ensures cap.None? ==> r == text
    ensures cap.Some? ==> IsByteCut(text, cap.value, r)
    ensures cap.Some? && Utf8Length(text) <= cap.value ==> r == text
  {
    if cap.None? {
      return text;
    }
    if Utf8Length(text) <= cap.value {
      return text;
    }
    var end := cap.value;
    while end > 0 && !IsCharBoundary(text, end)
      invariant 0 <= end <= cap.value
      invariant forall k | end < k <= cap.value :: !IsCharBoundary(text, k)
    {
      end := end - 1;
    }
    r := BytePrefix(text, end);
    forall i | |r| < i <= |text| ensures Utf8Length(text[..i]) > cap.value {
      PrefixIsBoundary(text, i);
      LongerHasMoreBytes(text, |r|, i);
      assert text[..|r|] == r;
    }
  }

  lemma ByteCutIsUnique(s: string, cap: nat, x: string, y: string)
    requires IsByteCut(s, cap, x) && IsByteCut(s, cap, y)
    ensures x == y
  {
    assert x == s[..|x|] && y == s[..|y|];
  }
}
