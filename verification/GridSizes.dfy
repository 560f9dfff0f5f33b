/**
 Distributing the width of a grid over its columns, or its height over its rows
 (mgfc/gridlayout.c, mgfc/gridlayout.h).
*/
module GridSizes {

  const SPLITER_SIZE := 4

  const WORD := 0x1_0000

  /** The values of the two-bit type field; 3 is treated like a percentage. */
  const LUT_PIXEL := 0
  const LUT_SPLITER := 2

  datatype Unit = Unit(kind: nat, logicSize: int, currentSize: nat)
  {
    predicate Splitter() { kind == LUT_SPLITER }

    /** Units that share what the others leave. */
    predicate Auto() { kind != LUT_SPLITER && logicSize == 0 }
  }

  function Div(a: nat, b: nat): nat
    requires b > 0
  {
    a / b
  }

  /** Division as in C, towards zero. */
  function Quot(a: int, b: nat): int
    requires b > 0
  {
    if a >= 0 then Div(Abs(a), b) else 0 - Div(Abs(a), b)
  }

  function Abs(a: int): nat { if a < 0 then -a else a }

  /** A value stored in 16 bits. */
  function Word(x: int): (r: nat)
    ensures r < WORD
  {
    if 0 <= x < WORD then x else x % WORD
  }

  /** What a unit with an explicit size asks for, in 16 bits. */
  function Asked(u: Unit, width: int): (r: nat)
    ensures r < WORD
  {
    Word(if u.kind == LUT_PIXEL then u.logicSize
         else if u.kind == LUT_SPLITER then SPLITER_SIZE
         else Quot(u.logicSize * width, 100))
  }

  function Min(a: nat, b: nat): nat { if a < b then a else b }

  /** What is left of the width after the first i units. */
  function Left(units: seq<Unit>, width: nat, i: nat): (r: nat)
    requires i <= |units|
    ensures r <= width
  {
    if i == 0 then width
    else
      var before := Left(units, width, i - 1);
      if units[i - 1].Auto() then before else before - Min(Asked(units[i - 1], width), before)
  }

  function Autos(units: seq<Unit>, i: nat): (r: nat)
    requires i <= |units|
    ensures r <= i
  {
    if i == 0 then 0 else Autos(units, i - 1) + if units[i - 1].Auto() then 1 else 0
  }

  /** The size of each automatic unit, if there is something left. */
  function Average(units: seq<Unit>, width: nat): nat {
    var n := Autos(units, |units|);
    Word(Div(Left(units, width, |units|), if n == 0 then 1 else n))
  }

  function NewSize(units: seq<Unit>, width: nat, i: nat): nat
    requires i < |units|
  {
    if !units[i].Auto() then Min(Asked(units[i], width), Left(units, width, i))
    else if Left(units, width, |units|) == 0 then units[i].currentSize
    else Average(units, width)
  }

  /** The units after recalca_units. */
  function Recalc(units: seq<Unit>, width: int): (r: seq<Unit>)
    ensures |r| == |units|
  {
    if width <= 0 then units
    else seq(|units|, i requires 0 <= i < |units| => units[i].(currentSize := NewSize(units, width, i)))
  }

  /** The units when the sizes of the first i are final, and of the rest those of the kind that comes first. */
  predicate PartlyDone(units: seq<Unit>, was: seq<Unit>, width: nat, explicitTo: nat, autoTo: nat) {
    && |units| == |was|
    && forall k :: 0 <= k < |was| ==>
         units[k] == if k < (if was[k].Auto() then autoTo else explicitTo)
                     then was[k].(currentSize := NewSize(was, width, k)) else was[k]
  }

  method RecalcaUnits(units: array<Unit>, width: int)
    modifies units
    ensures units[..] == Recalc(old(units[..]), width)
  {
    if width <= 0 { return; }
    hide Average, Word, Left;
    ghost var was := units[..];
    var recent, avgs := TakeExplicit(units, width);
    if recent <= 0 {
      assert units[..] == Recalc(was, width);
      return;
    }
    if avgs <= 0 { avgs := 1; }
    var avgSize := Div(recent, avgs);
    assert Word(avgSize) == Average(was, width) by { AverageIs(was, width); }
    ShareOut(units, was, width, avgs, avgSize);
    assert units[..] == Recalc(was, width);
  }

  lemma AverageIs(units: seq<Unit>, width: nat)
    ensures var n := Autos(units, |units|);
      Average(units, width) == Word(Div(Left(units, width, |units|), if n == 0 then 1 else n))
  {
  }

  method AskFor(u: Unit, width: int) returns (size: nat)
    ensures size == Asked(u, width)
  {
    if u.kind == LUT_PIXEL {
      size := Word(u.logicSize);
    } else if u.kind == LUT_SPLITER {
      size := SPLITER_SIZE;
    } else {
      size := Word(Quot(u.logicSize * width, 100));
    }
  }

  /** The first loop of recalca_units. */
  method TakeExplicit(units: array<Unit>, width: nat) returns (recent: nat, avgs: nat)
    modifies units
    ensures avgs == Autos(old(units[..]), units.Length)
    ensures recent == Left(old(units[..]), width, units.Length)
    ensures PartlyDone(units[..], old(units[..]), width, units.Length, 0)
  {
    hide Asked, Average, PartlyDone;
    ghost var was := units[..];
    var i := 0;
    avgs, recent := 0, width;
    assert PartlyDone(units[..], was, width, 0, 0) by { NothingDone(was, width); }
    while i < units.Length
      invariant i <= units.Length && avgs == Autos(was, i) && recent == Left(was, width, i)
      invariant |was| == units.Length && PartlyDone(units[..], was, width, i, 0)
    {
      var u := units[i];
      ghost var before := units[..];
      ExplicitStep(before, was, width, i);
      if u.kind != LUT_SPLITER && u.logicSize == 0 {
        avgs := avgs + 1;
      } else {
        var size := AskFor(u, width);
        if size > recent { size := recent; }
        units[i] := u.(currentSize := size);
        assert units[..] == before[i := was[i].(currentSize := NewSize(was, width, i))];
        recent := recent - size;
      }
      i := i + 1;
    }
  }

  lemma NothingDone(was: seq<Unit>, width: nat)
    ensures PartlyDone(was, was, width, 0, 0)
  {
  }

  lemma ExplicitStep(units: seq<Unit>, was: seq<Unit>, width: nat, i: nat)
    requires PartlyDone(units, was, width, i, 0) && i < |was|
    ensures units[i] == was[i]
    ensures var next := if was[i].Auto() then units else units[i := was[i].(currentSize := NewSize(was, width, i))];
      PartlyDone(next, was, width, i + 1, 0)
  {
  }

  /** The second loop of recalca_units. */
  method ShareOut(units: array<Unit>, ghost was: seq<Unit>, ghost width: nat, autos: nat, avgSize: nat)
    requires PartlyDone(units[..], was, width, |was|, 0) && Left(was, width, |was|) > 0
    requires autos == if Autos(was, |was|) == 0 then 1 else Autos(was, |was|)
    requires Word(avgSize) == Average(was, width)
    modifies units
    ensures PartlyDone(units[..], was, width, |was|, |was|)
  {
    hide Average, Word, Left;
    var n, avgs, i := units.Length, autos, 0;
    while i < n && avgs > 0
      invariant i <= n
      invariant avgs == Autos(was, n) - Autos(was, i) || (Autos(was, n) == 0 && avgs == 1)
      invariant PartlyDone(units[..], was, width, n, i)
    {
      AutosGrow(was, i, n);
      if units[i].kind != LUT_SPLITER && units[i].logicSize == 0 {
        AutosGrow(was, i + 1, n);
        units[i] := units[i].(currentSize := Word(avgSize));
        avgs := avgs - 1;
      }
      i := i + 1;
    }
    forall k | i <= k < n ensures !was[k].Auto() {
      AutosGrow(was, i, k);
      AutosGrow(was, k + 1, n);
    }
  }

  lemma {:induction false} AutosGrow(units: seq<Unit>, i: nat, k: nat)
    requires i <= k <= |units|
    ensures Autos(units, i) <= Autos(units, k)
    decreases k
  {
    if i == k {
    } else {
      AutosGrow(units, i, k - 1);
    }
  }

  // ------------------------------------------------------------------ positions

  /** getPosFromUnit: the sizes of the first i units together. */
  function Pos(units: seq<Unit>, i: nat): nat
    requires i <= |units|
  {
    if i == 0 then 0 else Pos(units, i - 1) + units[i - 1].currentSize
  }

  method GetPosFromUnit(units: array<Unit>, idx: nat) returns (pos: nat)
    requires idx <= units.Length
    ensures pos == Pos(units[..], idx)
  {
    pos := 0;
    var i := 0;
    while i < idx
      invariant i <= idx && pos == Pos(units[..], i)
    {
      pos := pos + units[i].currentSize;
      i := i + 1;
    }
  }

  lemma {:induction false} PosGrows(units: seq<Unit>, i: nat, k: nat)
    requires i <= k <= |units|
    ensures Pos(units, i) <= Pos(units, k)
    ensures i < k ==> Pos(units, i + 1) <= Pos(units, k)
    decreases k
  {
    if i == k {
    } else {
      PosGrows(units, i, k - 1);
    }
  }

  /** The sizes of the units with an explicit size among the first i. */
  function Explicit(units: seq<Unit>, i: nat): nat
    requires i <= |units|
  {
    if i == 0 then 0 else Explicit(units, i - 1) + if units[i - 1].Auto() then 0 else units[i - 1].currentSize
  }

  // ---------------------------------------------------------- what each size is

  /** The quotient that C gives, rounded towards zero. */
  predicate RoundsTo(v: int, dividend: int, divisor: nat) {
    if dividend >= 0 then divisor * v <= dividend < divisor * v + divisor
    else divisor * v - divisor < dividend <= divisor * v
  }

  lemma QuotRounds(v: int, dividend: int, divisor: nat)
    requires divisor > 0 && RoundsTo(v, dividend, divisor)
    ensures Quot(dividend, divisor) == v
  {
    var a := Abs(dividend);
    assert a == divisor * (a / divisor) + a % divisor;
    if dividend >= 0 {
      ProductsApart(divisor, v, a / divisor);
    } else {
      assert divisor * (0 - v) == 0 - divisor * v;
      ProductsApart(divisor, 0 - v, a / divisor);
    }
  }

  /** Less than one divisor apart, products of it are the same. */
  lemma ProductsApart(n: nat, v: int, w: int)
    requires n > 0 && 0 - n < n * v - n * w < n
    ensures v == w
  {
    assert n * v - n * w == n * (v - w) == 0 - n * (w - v);
    AtLeastFactor(n, v - w);
    AtLeastFactor(n, w - v);
  }

  lemma AtLeastFactor(n: nat, d: int)
    ensures d > 0 ==> n * d >= n
  {
    if d > 0 {
      ProductIsNatural(n, d - 1);
      assert n * d == n * (d - 1) + n;
    }
  }

  lemma WordIs(x: int, a: nat)
    requires a < 0x1_0000 && (a - x) % 0x1_0000 == 0
    ensures Word(x) == a
  {
    if 0 <= x < 0x1_0000 {
      assert 0 - 0x1_0000 < a - x < 0x1_0000;
    }
  }

  /**
   A unit of pixels asks for its size, a splitter (2) for 4 and any other unit for
   its part of the width in percent, rounded towards zero; each in 16 bits.  It
   gets what it asks for while so much is left, and then exactly the rest.
  */
  lemma ExplicitSizeIs(units: seq<Unit>, width: nat, i: nat, v: int, a: nat)
    requires width > 0 && i < |units| && !(units[i].kind != 2 && units[i].logicSize == 0)
    requires units[i].kind == 0 ==> v == units[i].logicSize
    requires units[i].kind == 2 ==> v == 4
    requires units[i].kind != 0 && units[i].kind != 2 ==> RoundsTo(v, units[i].logicSize * width, 100)
    requires a < 0x1_0000 && (a - v) % 0x1_0000 == 0
    ensures var r := Recalc(units, width); var left := width - Explicit(r, i);
      r[i].currentSize == if a <= left then a else left
  {
    ExplicitAndLeft(units, width, i);
    hide Left, Explicit;
    WordIs(v, a);
    if units[i].kind != 0 && units[i].kind != 2 { QuotRounds(v, units[i].logicSize * width, 100); }
    hide Word, Quot;
  }

  /** So a percentage that is left gets its part of the width, rounded down. */
  lemma PercentageIs(units: seq<Unit>, width: nat, i: nat)
    requires width > 0 && i < |units| && units[i].kind == 1 && 0 < units[i].logicSize
    requires units[i].logicSize * width < 100 * 0x1_0000
    requires units[i].logicSize * width < 100 * (width - Explicit(Recalc(units, width), i)) + 100
    ensures var size := Recalc(units, width)[i].currentSize;
      100 * size <= units[i].logicSize * width < 100 * size + 100
  {
    var x := units[i].logicSize * width;
    ProductIsNatural(units[i].logicSize, width);
    var v := x / 100;
    assert x == 100 * v + x % 100;
    ExplicitSizeIs(units, width, i, v, v);
  }

  lemma {:induction false} AutosAre(units: seq<Unit>, i: nat)
    requires i <= |units|
    ensures Autos(units, i) == |set k | 0 <= k < i && units[k].kind != 2 && units[k].logicSize == 0|
  {
    var s := set k | 0 <= k < i && units[k].kind != 2 && units[k].logicSize == 0;
    if i == 0 {
      assert s == {};
    } else {
      AutosAre(units, i - 1);
      var before := set k | 0 <= k < i - 1 && units[k].kind != 2 && units[k].logicSize == 0;
      assert s == if units[i - 1].Auto() then before + {i - 1} else before;
    }
  }

  /**
   A unit without a size gets its share of what the others leave, rounded down;
   if they leave nothing it keeps the size it had.
  */
  lemma AutoSizeIs(units: seq<Unit>, width: nat, i: nat)
    requires 0 < width < 0x1_0000 && i < |units| && units[i].kind != 2 && units[i].logicSize == 0
    ensures var r := Recalc(units, width); var left := width - Explicit(r, |r|);
      var n := |set k | 0 <= k < |units| && units[k].kind != 2 && units[k].logicSize == 0|;
      if left == 0 then r[i].currentSize == units[i].currentSize
      else n * r[i].currentSize <= left < n * r[i].currentSize + n
  {
    ExplicitAndLeft(units, width, |units|);
    AutosAre(units, |units|);
    AverageFits(units, width);
    hide Left, Explicit, Average;
    AutosGrow(units, i + 1, |units|);
  }

  /** Kinds and wanted sizes stay. */
  lemma OnlySizesChange(units: seq<Unit>, width: int, i: nat)
    requires i < |units|
    ensures var u := Recalc(units, width)[i];
      u.kind == units[i].kind && u.logicSize == units[i].logicSize && (width <= 0 ==> u == units[i])
  {
  }

  // ---------------------------------------------------------- what the sizes add up to

  lemma {:induction false} ExplicitAndLeft(units: seq<Unit>, width: nat, i: nat)
    requires width > 0 && i <= |units|
    ensures Explicit(Recalc(units, width), i) + Left(units, width, i) == width
  {
    if i == 0 {
    } else {
      ExplicitAndLeft(units, width, i - 1);
    }
  }

  lemma {:induction false} PosWithAverage(units: seq<Unit>, width: nat, i: nat)
    requires width > 0 && i <= |units| && Left(units, width, |units|) > 0
    ensures Pos(Recalc(units, width), i) == Explicit(Recalc(units, width), i) + Autos(units, i) * Average(units, width)
  {
    hide Average, Left, Asked;
    if i == 0 {
    } else {
      PosWithAverage(units, width, i - 1);
      assert (Autos(units, i - 1) + 1) * Average(units, width) ==
        Autos(units, i - 1) * Average(units, width) + Average(units, width);
    }
  }

  /** The sizes that the automatic units among the first i have from before. */
  function Stale(units: seq<Unit>, i: nat): nat
    requires i <= |units|
  {
    if i == 0 then 0 else Stale(units, i - 1) + if units[i - 1].Auto() then units[i - 1].currentSize else 0
  }

  lemma {:induction false} PosWithStale(units: seq<Unit>, width: nat, i: nat)
    requires width > 0 && i <= |units| && Left(units, width, |units|) == 0
    ensures Pos(Recalc(units, width), i) == Explicit(Recalc(units, width), i) + Stale(units, i)
  {
    if i == 0 {
    } else {
      PosWithStale(units, width, i - 1);
    }
  }

  lemma ProductIsNatural(a: nat, b: nat)
    ensures a * b >= 0
  {
  }

  lemma SharesOf(left: nat, n: nat)
    requires 0 < n
    ensures var share := left / n; share <= left && n * share <= left < n * share + n
  {
    var share := left / n;
    assert left == n * share + left % n;
    ProductIsNatural(n - 1, share);
    assert n * share == share + (n - 1) * share;
  }

  /** Units with an explicit size never take more than the width, whatever they ask for. */
  lemma ExplicitFits(units: seq<Unit>, width: nat)
    requires width > 0
    ensures Explicit(Recalc(units, width), |units|) <= width
  {
    ExplicitAndLeft(units, width, |units|);
  }

  /**
   If something is left, all units together fit, the automatic ones are equal, and
   less is left over than there are automatic units.
  */
  lemma SharesFit(units: seq<Unit>, width: nat)
    requires 0 < width < WORD && Left(units, width, |units|) > 0
    ensures var r := Recalc(units, width); var n := Autos(units, |units|);
      && Pos(r, |r|) <= width
      && (n > 0 ==> width - Pos(r, |r|) < n)
      && (forall i, k :: 0 <= i < |r| && 0 <= k < |r| && r[i].Auto() && r[k].Auto() ==>
        r[i].currentSize == r[k].currentSize)
  {
    hide Left, Average, Explicit, Pos;
    ExplicitAndLeft(units, width, |units|);
    PosWithAverage(units, width, |units|);
    AverageFits(units, width);
  }

  lemma AverageFits(units: seq<Unit>, width: nat)
    requires width < WORD
    ensures var n := Autos(units, |units|); var left := Left(units, width, |units|);
      && n * Average(units, width) <= left
      && (n > 0 ==> left < n * Average(units, width) + n)
  {
    hide Left;
    var n := Autos(units, |units|);
    if n > 0 { SharesOf(Left(units, width, |units|), n); }
  }

  /** What the units with an explicit size ask for together, the first i of them. */
  function AskedSum(units: seq<Unit>, width: int, i: nat): nat
    requires i <= |units|
  {
    if i == 0 then 0 else AskedSum(units, width, i - 1) + if units[i - 1].Auto() then 0 else Asked(units[i - 1], width)
  }

  lemma {:induction false} LeftIs(units: seq<Unit>, width: nat, i: nat)
    requires i <= |units|
    ensures var asked := AskedSum(units, width, i);
      Left(units, width, i) == if asked < width then width - asked else 0
  {
    hide Asked;
    if i == 0 {
    } else {
      LeftIs(units, width, i - 1);
    }
  }

  /**
   The units fit into the width exactly when those with an explicit size ask for
   less than the width, or the automatic units had no size before.
  */
  lemma FitsExactlyWhen(units: seq<Unit>, width: nat)
    requires 0 < width < WORD
    ensures Pos(Recalc(units, width), |units|) <= width <==>
      AskedSum(units, width, |units|) < width
      || forall i :: 0 <= i < |units| && units[i].Auto() ==> units[i].currentSize == 0
  {
    hide Pos, Recalc, AskedSum, Left;
    LeftIs(units, width, |units|);
    ExplicitAndLeft(units, width, |units|);
    if Left(units, width, |units|) > 0 {
      SharesFit(units, width);
    } else {
      PosWithStale(units, width, |units|);
      StaleIsZero(units, |units|);
    }
  }

  lemma {:induction false} StaleIsZero(units: seq<Unit>, i: nat)
    requires i <= |units|
    ensures Stale(units, i) == 0 <==> forall k :: 0 <= k < i && units[k].Auto() ==> units[k].currentSize == 0
  {
    if i == 0 {
    } else {
      StaleIsZero(units, i - 1);
    }
  }

  // ------------------------------------------------------------- doing it again

  lemma {:induction false} SameLeft(a: seq<Unit>, b: seq<Unit>, width: nat, i: nat)
    requires i <= |a| == |b|
    requires forall k :: 0 <= k < |a| ==> a[k].kind == b[k].kind && a[k].logicSize == b[k].logicSize
    ensures Left(a, width, i) == Left(b, width, i) && Autos(a, i) == Autos(b, i)
  {
    if i == 0 {
    } else {
      SameLeft(a, b, width, i - 1);
    }
  }

  /** Distributing the same width again changes nothing. */
  lemma RecalcTwice(units: seq<Unit>, width: int)
    ensures Recalc(Recalc(units, width), width) == Recalc(units, width)
  {
    var r := Recalc(units, width);
    if width > 0 {
      SameLeft(r, units, width, |units|);
      forall i | 0 <= i < |units| ensures NewSize(r, width, i) == r[i].currentSize {
        SameLeft(r, units, width, i);
      }
    }
  }
}
