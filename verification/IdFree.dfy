/**
 The ids of a range manager that no range holds yet (common/reseditor.cpp).
 Intervals are taken out of a list one by one; a split puts the upper part in
 front of the lower one, so that the list runs from the top down.
*/
module IdFree {

  import opened IdRange

  datatype Info = Info(min: nat, max: nat)
  {
    predicate Contains(id: int) { min < id <= max }
  }

  function Include(min: nat, max: nat): seq<Info> {
    if max <= min then [] else [Info(min, max)]
  }

  /** What excludeIDRange leaves, from position i on. */
  function ExcludeFrom(list: seq<Info>, i: nat, min: nat, max: nat): seq<Info>
    requires i <= |list|
    decreases |list| - i
  {
    if i == |list| || max <= list[i].min then list
    else if list[i].min < min then
      if list[i].max <= max then ExcludeFrom(list[i := Info(list[i].min, min)], i + 1, min, max)
      else list[..i] + [Info(max, list[i].max), Info(list[i].min, min)] + list[i + 1..]
    else if list[i].max <= max then ExcludeFrom(list[..i] + list[i + 1..], i, min, max)
    else list[i := Info(max, list[i].max)]
  }

  function Exclude(list: seq<Info>, min: nat, max: nat): seq<Info> {
    if max <= min then list else ExcludeFrom(list, 0, min, max)
  }

  /** Nothing is taken out for bounds in the wrong order. */
  lemma ExcludeNothing(list: seq<Info>, min: nat, max: nat)
    requires max <= min
    ensures Exclude(list, min, max) == list
  {
  }

  method ExcludeIDRange(list: seq<Info>, min: nat, max: nat) returns (left: seq<Info>)
    ensures left == Exclude(list, min, max)
  {
    left := list;
    if |list| == 0 || max <= min { return; }
    var i := 0;
    while i < |left|
      invariant i <= |left|
      invariant ExcludeFrom(left, i, min, max) == Exclude(list, min, max)
      decreases |left| - i
    {
      var it := left[i];
      if max <= it.min { return; }
      if it.min < min {
        if it.max <= max {
          left := left[i := Info(it.min, min)];
        } else {
          left := left[..i] + [Info(max, it.max), Info(it.min, min)] + left[i + 1..];
          return;
        }
      } else {
        if it.max <= max {
          left := left[..i] + left[i + 1..];
          continue;
        }
        left := left[i := Info(max, it.max)];
        return;
      }
      i := i + 1;
    }
  }

  /** getFreeIDRanges on an empty list, over the first k ranges. */
  function Free(rs: seq<Range>, limitMin: nat, limitMax: nat, k: nat): seq<Info>
    requires k <= |rs|
  {
    if k == 0 then Include(limitMin, limitMax)
    else Exclude(Free(rs, limitMin, limitMax, k - 1), rs[k - 1].min, rs[k - 1].max)
  }

  method GetFreeIDRanges(rs: seq<Range>, limitMin: nat, limitMax: nat) returns (list: seq<Info>)
    ensures list == Free(rs, limitMin, limitMax, |rs|)
  {
    list := if limitMax <= limitMin then [] else [Info(limitMin, limitMax)];
    var k := 0;
    while k < |rs|
      invariant k <= |rs|
      invariant list == Free(rs, limitMin, limitMax, k)
    {
      list := ExcludeIDRange(list, rs[k].min, rs[k].max);
      k := k + 1;
    }
  }

  // -------------------------------------------------------- what is left is free

  predicate Covers(list: seq<Info>, id: int) {
    exists i :: 0 <= i < |list| && list[i].Contains(id)
  }

  /** An id of one of the first k ranges. */
  predicate Used(rs: seq<Range>, k: nat, id: int)
    requires k <= |rs|
  {
    exists i :: 0 <= i < k && rs[i].Contains(id)
  }

  predicate TopDown(list: seq<Info>) {
    && (forall i :: 0 <= i < |list| ==> list[i].min < list[i].max)
    && (forall i, j :: 0 <= i < j < |list| ==> list[j].max <= list[i].min)
  }

  /** The list holds exactly the ids of the limit interval that the first k ranges leave. */
  ghost predicate IsFree(list: seq<Info>, rs: seq<Range>, limitMin: nat, limitMax: nat, k: nat)
    requires k <= |rs|
  {
    forall id :: Covers(list, id) <==> limitMin < id <= limitMax && !Used(rs, k, id)
  }

  predicate AllBelow(rs: seq<Range>, limitMax: nat, k: nat)
    requires k <= |rs|
  {
    forall i :: 0 <= i < k ==> rs[i].max < limitMax
  }

  /** Where the uppermost interval starts. */
  function Top(rs: seq<Range>, limitMin: nat, k: nat): nat
    requires k <= |rs|
  {
    if k == 0 || rs[k - 1].max < limitMin then limitMin else rs[k - 1].max
  }

  /** The first k ranges leave no id below the end of the last of them. */
  ghost predicate Filled(rs: seq<Range>, limitMin: nat, k: nat)
    requires k <= |rs|
  {
    forall id :: limitMin < id <= Top(rs, limitMin, k) ==> Used(rs, k, id)
  }

  /** What taking one range out of a top-down list does when the range ends inside its first interval. */
  lemma ExcludeBelowTop(list: seq<Info>, min: nat, max: nat)
    requires list != [] && min < max < list[0].max
    ensures Exclude(list, min, max) ==
      (if max <= list[0].min then list
       else if min <= list[0].min then [Info(max, list[0].max)] + list[1..]
       else [Info(max, list[0].max), Info(list[0].min, min)] + list[1..])
  {
    assert list[0 := Info(max, list[0].max)] == [Info(max, list[0].max)] + list[1..];
    assert list[..0] + [Info(max, list[0].max), Info(list[0].min, min)] + list[1..]
        == [Info(max, list[0].max), Info(list[0].min, min)] + list[1..];
  }

  /**
   As long as every range ends below the upper limit, the intervals are
   disjoint, from the top down, and hold exactly the ids that are left.
  */
  lemma {:induction false} FreeBelow(rs: seq<Range>, limitMin: nat, limitMax: nat, k: nat)
    requires Sorted(rs) && limitMin < limitMax && k <= |rs| && AllBelow(rs, limitMax, k)
    ensures var list := Free(rs, limitMin, limitMax, k);
      && list != [] && list[0] == Info(Top(rs, limitMin, k), limitMax)
      && TopDown(list) && IsFree(list, rs, limitMin, limitMax, k)
  {
    if k == 0 {
      var list := Free(rs, limitMin, limitMax, 0);
      assert list == [Info(limitMin, limitMax)];
      forall id ensures Covers(list, id) <==> limitMin < id <= limitMax {
        assert Covers(list, id) <==> list[0].Contains(id);
      }
    } else {
      FreeBelow(rs, limitMin, limitMax, k - 1);
      FreeBelowStep(rs, limitMin, limitMax, k - 1, Free(rs, limitMin, limitMax, k - 1));
    }
  }

  lemma FreeBelowStep(rs: seq<Range>, limitMin: nat, limitMax: nat, k: nat, list: seq<Info>)
    requires Sorted(rs) && limitMin < limitMax && k < |rs| && AllBelow(rs, limitMax, k + 1)
    requires list != [] && list[0] == Info(Top(rs, limitMin, k), limitMax)
    requires TopDown(list) && IsFree(list, rs, limitMin, limitMax, k)
    ensures var next := Exclude(list, rs[k].min, rs[k].max);
      && next != [] && next[0] == Info(Top(rs, limitMin, k + 1), limitMax)
      && TopDown(next) && IsFree(next, rs, limitMin, limitMax, k + 1)
  {
    var next := Exclude(list, rs[k].min, rs[k].max);
    ExcludeBelowTop(list, rs[k].min, rs[k].max);
    if rs[k].min < list[0].min { OnlyTop(list, rs, limitMin, limitMax, k); }
    forall id ensures Covers(next, id) <==> limitMin < id <= limitMax && !Used(rs, k + 1, id) {
      UsedStep(rs, k, id);
      CoversBelowTop(list, next, rs[k].min, rs[k].max, id);
    }
  }

  lemma UsedStep(rs: seq<Range>, k: nat, id: int)
    requires k < |rs|
    ensures Used(rs, k + 1, id) <==> Used(rs, k, id) || rs[k].Contains(id)
  {
  }

  /** Nothing lies below an uppermost interval that starts at the lower limit. */
  lemma OnlyTop(list: seq<Info>, rs: seq<Range>, limitMin: nat, limitMax: nat, k: nat)
    requires k <= |rs| && list != [] && list[0].min == limitMin
    requires TopDown(list) && IsFree(list, rs, limitMin, limitMax, k)
    ensures |list| == 1
  {
    if |list| > 1 {
      assert list[1].Contains(list[1].max);
      assert Covers(list, list[1].max);
    }
  }

  lemma CoversSplit(list: seq<Info>, id: int)
    requires list != []
    ensures Covers(list, id) <==> list[0].Contains(id) || Covers(list[1..], id)
  {
    if Covers(list[1..], id) {
      var i :| 0 <= i < |list[1..]| && list[1..][i].Contains(id);
      assert list[i + 1].Contains(id);
    }
    if Covers(list, id) && !list[0].Contains(id) {
      var i :| 0 <= i < |list| && list[i].Contains(id);
      assert list[1..][i - 1].Contains(id);
    }
  }

  lemma CoversBelowTop(list: seq<Info>, next: seq<Info>, min: nat, max: nat, id: int)
    requires list != [] && min < max < list[0].max && TopDown(list)
    requires list[0].min <= min || |list| == 1
    requires next ==
      (if max <= list[0].min then list
       else if min <= list[0].min then [Info(max, list[0].max)] + list[1..]
       else [Info(max, list[0].max), Info(list[0].min, min)] + list[1..])
    ensures Covers(next, id) <==> Covers(list, id) && !(min < id <= max)
  {
    CoversSplit(list, id);
    CoversSplit(next, id);
    assert Covers(list[1..], id) ==> id <= list[0].min;
    if min <= list[0].min {
      assert max > list[0].min ==> next[1..] == list[1..];
    } else {
      assert next[1..] == [Info(list[0].min, min)] + list[1..];
      CoversSplit(next[1..], id);
      assert next[1..][1..] == list[1..];
    }
  }

  /** The same intervals, all made to end at one bound. */
  function Stretched(list: seq<Info>, max: nat): (r: seq<Info>)
    ensures |r| == |list| && forall i :: 0 <= i < |list| ==> r[i] == Info(list[i].min, max)
  {
    seq(|list|, i requires 0 <= i < |list| => Info(list[i].min, max))
  }

  /** Intervals that start below a range and end no later than it does are all stretched to its start. */
  lemma {:induction false} ExcludeStretches(list: seq<Info>, i: nat, min: nat, max: nat)
    requires i <= |list| && forall j :: i <= j < |list| ==> list[j].min < min && list[j].max <= max
    requires min < max
    ensures ExcludeFrom(list, i, min, max) == list[..i] + Stretched(list[i..], min)
    decreases |list| - i
  {
    if i == |list| {
      assert list == list[..i] + Stretched(list[i..], min);
    } else {
      ExcludeStretches(list[i := Info(list[i].min, min)], i + 1, min, max);
    }
  }

  /** The intervals that a range ending at the upper limit or above does not take away. */
  function Kept(list: seq<Info>, min: nat): seq<Info>
    requires list != []
  {
    if list[0].min < min then list else list[1..]
  }

  lemma KeptBelow(list: seq<Info>, min: nat)
    requires list != [] && TopDown(list) && (list[0].min <= min || |list| == 1)
    ensures forall i :: 0 <= i < |Kept(list, min)| ==> Kept(list, min)[i].min < min
  {
    forall i | 0 < i < |list| ensures list[i].min < list[0].min {
      assert list[i].min < list[i].max <= list[0].min;
    }
  }

  /** An interval that begins and ends inside a range goes away. */
  lemma ExcludeFirst(list: seq<Info>, min: nat, max: nat)
    requires list != [] && min <= list[0].min < max && list[0].max <= max
    ensures Exclude(list, min, max) == ExcludeFrom(list[1..], 0, min, max)
  {
    assert list[..0] + list[1..] == list[1..];
  }

  lemma BelowTop(list: seq<Info>, min: nat, max: nat)
    requires list != [] && TopDown(list) && list[0].max <= max && (list[0].min <= min || |list| == 1)
    ensures forall j :: 0 < j < |list| ==> list[j].min < min && list[j].max <= max
  {
    forall j | 0 < j < |list| ensures list[j].min < min && list[j].max <= max {
      assert list[j].min < list[j].max <= list[0].min < list[0].max;
    }
  }

  lemma ExcludeToTop(list: seq<Info>, min: nat, max: nat)
    requires list != [] && TopDown(list) && min < max && list[0].max <= max && (list[0].min <= min || |list| == 1)
    ensures Exclude(list, min, max) == Stretched(Kept(list, min), min)
  {
    BelowTop(list, min, max);
    assert list[0].min < list[0].max;
    hide TopDown, ExcludeFrom, Stretched;
    var kept := Kept(list, min);
    if min <= list[0].min { ExcludeFirst(list, min, max); }
    ExcludeStretches(kept, 0, min, max);
    assert kept[0..] == kept && [] + Stretched(kept, min) == Stretched(kept, min);
  }

  /** From the first range on that ends at the upper limit or above, every range stretches what is left. */
  lemma {:induction false} FreeAbove(rs: seq<Range>, limitMin: nat, limitMax: nat, k: nat, n: nat)
    requires Sorted(rs) && limitMin < limitMax && k < n <= |rs| && AllBelow(rs, limitMax, k) && limitMax <= rs[k].max
    requires Free(rs, limitMin, limitMax, k) != []
    ensures Free(rs, limitMin, limitMax, n) ==
      Stretched(Kept(Free(rs, limitMin, limitMax, k), rs[k].min), rs[n - 1].min)
  {
    var list := Free(rs, limitMin, limitMax, k);
    FreeBelow(rs, limitMin, limitMax, k);
    if rs[k].min < list[0].min { OnlyTop(list, rs, limitMin, limitMax, k); }
    if n == k + 1 {
      ExcludeToTop(list, rs[k].min, rs[k].max);
    } else {
      FreeAbove(rs, limitMin, limitMax, k, n - 1);
      KeptBelow(list, rs[k].min);
      StretchedAgain(rs, limitMin, limitMax, k, n - 1, Kept(list, rs[k].min));
    }
  }

  lemma StretchedAgain(rs: seq<Range>, limitMin: nat, limitMax: nat, k: nat, n: nat, kept: seq<Info>)
    requires Sorted(rs) && k < n < |rs| && forall i :: 0 <= i < |kept| ==> kept[i].min < rs[k].min
    requires Free(rs, limitMin, limitMax, n) == Stretched(kept, rs[n - 1].min)
    ensures Free(rs, limitMin, limitMax, n + 1) == Stretched(kept, rs[n].min)
  {
    var was := Stretched(kept, rs[n - 1].min);
    assert rs[k].min <= rs[n - 1].min < rs[n - 1].max <= rs[n].min;
    ExcludeStretches(was, 0, rs[n].min, rs[n].max);
    assert was[0..] == was;
    assert Stretched(was, rs[n].min) == Stretched(kept, rs[n].min);
  }

  /** Nothing lies between limits in the wrong order. */
  lemma {:induction false} NothingFree(rs: seq<Range>, limitMin: nat, limitMax: nat, n: nat)
    requires limitMax <= limitMin && n <= |rs|
    ensures Free(rs, limitMin, limitMax, n) == []
  {
    if n == 0 {
    } else {
      NothingFree(rs, limitMin, limitMax, n - 1);
    }
  }

  /**
   With k ranges that end below the upper limit, the list is right exactly when
   these are all, or they leave nothing below their end and the next one begins
   there, or it is the last one and begins within the limits.
  */
  lemma FreeIsRight(rs: seq<Range>, limitMin: nat, limitMax: nat, k: nat)
    requires Sorted(rs) && k <= |rs| && AllBelow(rs, limitMax, k) && (k < |rs| ==> limitMax <= rs[k].max)
    ensures var n := |rs|; IsFree(Free(rs, limitMin, limitMax, n), rs, limitMin, limitMax, n) <==>
      || limitMax <= limitMin || k == n
      || (Filled(rs, limitMin, k) && (rs[k].min <= Top(rs, limitMin, k) || (k == n - 1 && rs[k].min <= limitMax)))
    ensures var list := Free(rs, limitMin, limitMax, |rs|);
      IsFree(list, rs, limitMin, limitMax, |rs|) ==> TopDown(list)
  {
    if limitMax <= limitMin {
      NothingFree(rs, limitMin, limitMax, |rs|);
    } else {
      FreeBelow(rs, limitMin, limitMax, k);
      if k < |rs| {
        FreeAbove(rs, limitMin, limitMax, k, |rs|);
        var list := Free(rs, limitMin, limitMax, k);
        if |list| == 1 { OneLeft(rs, limitMin, limitMax, k, list); } else { ManyLeft(rs, limitMin, limitMax, k, list); }
      }
    }
  }

  lemma OneLeft(rs: seq<Range>, limitMin: nat, limitMax: nat, k: nat, list: seq<Info>)
    requires Sorted(rs) && limitMin < limitMax && k < |rs| && AllBelow(rs, limitMax, k) && limitMax <= rs[k].max
    requires list == [Info(Top(rs, limitMin, k), limitMax)] && IsFree(list, rs, limitMin, limitMax, k)
    ensures Filled(rs, limitMin, k)
    ensures var n := |rs|; IsFree(Stretched(Kept(list, rs[k].min), rs[n - 1].min), rs, limitMin, limitMax, n) <==>
      rs[k].min <= list[0].min || (k == n - 1 && rs[k].min <= limitMax)
  {
    var n, top := |rs|, list[0].min;
    var next := Stretched(Kept(list, rs[k].min), rs[n - 1].min);
    forall id ensures Covers(list, id) <==> top < id <= limitMax { CoversSplit(list, id); }
    forall id ensures Covers(next, id) <==> top < rs[k].min && top < id <= rs[n - 1].min {
      if next != [] { CoversSplit(next, id); }
    }
    forall id | id <= limitMax ensures Used(rs, n, id) <==> Used(rs, k, id) || rs[k].Contains(id) { }
    if top < rs[k].min && k < n - 1 {
      assert rs[k].Contains(rs[k].min + 1) && Covers(next, rs[k].min + 1);
    } else if top < rs[k].min && limitMax < rs[k].min {
      assert Covers(next, rs[k].min);
    }
  }

  lemma ManyLeft(rs: seq<Range>, limitMin: nat, limitMax: nat, k: nat, list: seq<Info>)
    requires Sorted(rs) && limitMin < limitMax && k < |rs| && AllBelow(rs, limitMax, k) && limitMax <= rs[k].max
    requires |list| > 1 && list[0] == Info(Top(rs, limitMin, k), limitMax)
    requires TopDown(list) && IsFree(list, rs, limitMin, limitMax, k)
    ensures !Filled(rs, limitMin, k)
    ensures !IsFree(Stretched(Kept(list, rs[k].min), rs[|rs| - 1].min), rs, limitMin, limitMax, |rs|)
  {
    var next := Stretched(Kept(list, rs[k].min), rs[|rs| - 1].min);
    var top := list[0].min;
    assert list[1].Contains(list[1].max) && Covers(list, list[1].max);
    assert !Used(rs, k, list[1].max);
    assert rs[k - 1].Contains(top) && rs[k - 1].max <= rs[|rs| - 1].min;
    var i := if top < rs[k].min then 1 else 0;
    assert Kept(list, rs[k].min)[i] == list[1];
    assert next[i].Contains(top);
    assert Covers(next, top) && Used(rs, |rs|, top);
  }
}
