/**
 Growing a list of id ranges: extending one range, adding ranges at the tail and
 building a saved list up again (common/reseditor.cpp, mainframe/mainframe.cpp).
*/
module IdReload {

  import opened Common
  import opened IdRange

  function NewRange(min: nat, max: nat, owner: Owner): Range { Range(min, max, UNSET, owner, true) }

  /** An int stored in an unsigned short. */
  function Word16(x: int): (r: nat)
    ensures r <= 0xFFFF && (r - x) % 0x1_0000 == 0
  {
    if 0 <= x <= UNSET then x else x % TYPE_UNIT
  }

  /** The bounds that extend sets, in 16 bits; a bound that is not positive stays as it is. */
  function Extended(r: Range, min: int, max: int): Range {
    var lo := if min > 0 && min != r.min then Word16(min) else r.min;
    var hi := if max > 0 && max != r.max then Word16(max) else r.max;
    if (min > 0 && min != r.min) || (max > 0 && max != r.max) then r.(min := lo, max := hi, isNew := true) else r
  }

  /** The tests that let extend go ahead. */
  predicate CanExtend(rs: seq<Range>, i: nat, min: int, max: int)
    requires i < |rs|
  {
    && !(min > 0 && i > 0 && min < rs[i - 1].max)
    && !(max > 0 && i + 1 < |rs| && max > rs[i + 1].min)
    && !(min > 0 && min >= (if max > 0 then max else rs[i].max))
    && !(max > 0 && max <= (if min > 0 then min else rs[i].min))
  }

  /**
   The bounds become those asked for, as far as they are positive; owner and
   counter stay, and a change marks the range.
  */
  lemma ExtendedSays(r: Range, min: int, max: int)
    requires min <= 0xFFFF && max <= 0xFFFF
    ensures var e := Extended(r, min, max);
      && e.min == (if 0 < min then min else r.min) && e.max == (if 0 < max then max else r.max)
      && e.owner == r.owner && e.used == r.used
      && (e.isNew <==> r.isNew || e.min != r.min || e.max != r.max)
  {
  }

  function Extend(rs: seq<Range>, i: nat, min: int, max: int): (r: seq<Range>)
    requires i < |rs|
    ensures |r| == |rs|
  {
    if CanExtend(rs, i, min, max) then rs[i := Extended(rs[i], min, max)] else rs
  }

  /** extend never takes the list out of order, and does what was asked exactly when the outcome is in order. */
  lemma ExtendKeepsSorted(rs: seq<Range>, i: nat, min: int, max: int)
    requires Sorted(rs) && i < |rs| && min <= UNSET && max <= UNSET
    ensures Sorted(Extend(rs, i, min, max))
    ensures CanExtend(rs, i, min, max) <==> Sorted(rs[i := Extended(rs[i], min, max)])
  {
    var next := rs[i := Extended(rs[i], min, max)];
    if CanExtend(rs, i, min, max) {
      forall a, b | 0 <= a < b < |rs| ensures next[a].max <= next[b].min {
        assert rs[a].max <= rs[b].min;
        if b == i { assert a < i - 1 ==> rs[a].max <= rs[i - 1].min; }
        if a == i { assert i + 1 < b ==> rs[i + 1].max <= rs[b].min; }
      }
    } else {
      if i > 0 { assert Sorted(next) ==> next[i - 1].max <= next[i].min; }
      if i + 1 < |rs| { assert Sorted(next) ==> next[i].max <= next[i + 1].min; }
      assert Sorted(next) ==> GoodRange(next[i]);
    }
  }

  // --------------------------------------------------------- adding at the tail

  /** No range of the list starts so high that the new one would go before it. */
  predicate LandsLast(rs: seq<Range>, max: nat) {
    forall i :: 0 <= i < |rs| ==> rs[i].min < max
  }

  function AddLast(rs: seq<Range>, min: nat, max: nat, owner: Owner): seq<Range> {
    if max <= min then rs
    else if rs == [] then [NewRange(min, max, owner)]
    else
      var last := |rs| - 1;
      var prev := rs[last];
      if min <= prev.max && prev.owner == owner then
        Extend(rs, last, prev.min, if prev.max < max then max else prev.max)
      else if min <= prev.max then
        if max <= prev.max + 1 then rs else rs + [NewRange(prev.max + 1, max, owner)]
      else rs + [NewRange(min, max, owner)]
  }

  lemma AddLastKeeps(rs: seq<Range>, min: nat, max: nat, owner: Owner)
    requires Sorted(rs) && max <= UNSET && LandsLast(rs, max)
    ensures var r := AddLast(rs, min, max, owner);
      && Sorted(r) && |rs| <= |r| <= |rs| + 1
      && (forall i :: 0 <= i < |rs| ==> r[i].min == rs[i].min && r[i].owner == rs[i].owner)
      && (forall i :: 0 <= i < |r| ==> r[i].max <= max || (i < |rs| && r[i] == rs[i]))
  {
    hide Extend;
    if rs == [] || max <= min {
    } else if min <= rs[|rs| - 1].max && rs[|rs| - 1].owner == owner {
      var last := |rs| - 1;
      var hi := if rs[last].max < max then max else rs[last].max;
      ExtendKeepsSorted(rs, last, rs[last].min, hi);
      ExtendLast(rs, hi);
    } else {
      var lo := if min <= rs[|rs| - 1].max then rs[|rs| - 1].max + 1 else min;
      if lo < max { AppendSorted(rs, lo, max, owner); }
    }
  }

  lemma AppendSorted(rs: seq<Range>, min: nat, max: nat, owner: Owner)
    requires Sorted(rs) && min < max <= UNSET && rs != [] && rs[|rs| - 1].max <= min
    ensures Sorted(rs + [NewRange(min, max, owner)])
  {
    forall i | 0 <= i < |rs| ensures rs[i].max <= min {
      if i < |rs| - 1 { assert rs[i].max <= rs[|rs| - 1].min; }
    }
  }

  lemma ExtendLast(rs: seq<Range>, max: nat)
    requires Sorted(rs) && rs != [] && rs[|rs| - 1].max <= max <= UNSET
    ensures var last := |rs| - 1; var prev := rs[last];
      Extend(rs, last, prev.min, max)
        == rs[last := if prev.max == max then prev else prev.(max := max, isNew := true)]
  {
    var last := |rs| - 1;
    if last > 0 { assert rs[last - 1].max <= rs[last].min; }
  }

  predicate Holds(rs: seq<Range>, id: int) {
    exists i :: 0 <= i < |rs| && rs[i].Contains(id)
  }

  lemma HoldsLast(rs: seq<Range>, r: Range, id: int)
    ensures Holds(rs + [r], id) <==> Holds(rs, id) || r.Contains(id)
  {
    var all := rs + [r];
    assert all[|rs|] == r && forall i :: 0 <= i < |rs| ==> all[i] == rs[i];
    if Holds(rs, id) {
      var i :| 0 <= i < |rs| && rs[i].Contains(id);
      assert all[i].Contains(id);
    }
    if r.Contains(id) { assert all[|rs|].Contains(id); }
  }

  /**
   A range that does not begin below the last one adds its ids to those of the
   list, but for one: pushed behind a range of another owner it loses the first
   id after that range.
  */
  lemma AddLastHolds(rs: seq<Range>, min: nat, max: nat, owner: Owner, id: int)
    requires Sorted(rs) && rs != [] && min < max <= UNSET && rs[|rs| - 1].min <= min
    ensures var prev := rs[|rs| - 1];
      Holds(AddLast(rs, min, max, owner), id) <==>
        || Holds(rs, id)
        || (min < id <= max && !(min <= prev.max && prev.owner != owner && id == prev.max + 1))
  {
    hide Extend, Holds;
    var last := |rs| - 1;
    var prev := rs[last];
    assert rs == rs[..last] + [prev];
    HoldsLast(rs[..last], prev, id);
    if min <= prev.max && prev.owner == owner {
      var hi := if prev.max < max then max else prev.max;
      ExtendLast(rs, hi);
      var next := if prev.max == hi then prev else prev.(max := hi, isNew := true);
      assert rs[last := next] == rs[..last] + [next];
      HoldsLast(rs[..last], next, id);
    } else {
      var lo := if min <= prev.max then prev.max + 1 else min;
      HoldsLast(rs, NewRange(lo, max, owner), id);
    }
  }

  // ----------------------------------------------------- a saved list, added again

  /** The list that the first k ranges of a saved one give when they are added one by one. */
  function Reload(saved: seq<Range>, k: nat): seq<Range>
    requires k <= |saved|
  {
    if k == 0 then []
    else AddLast(Reload(saved, k - 1), saved[k - 1].min, saved[k - 1].max, saved[k - 1].owner)
  }

  /** Consecutive ranges have at least one bound between them. */
  predicate Separated(rs: seq<Range>, k: nat)
    requires k <= |rs|
  {
    forall i :: 0 < i < k ==> rs[i - 1].max < rs[i].min
  }

  /** The list has the first k ranges, marked as new and without a count (65535). */
  predicate Rebuilt(r: seq<Range>, saved: seq<Range>, k: nat)
    requires k <= |saved|
  {
    |r| == k && forall i :: 0 <= i < k ==> r[i] == Range(saved[i].min, saved[i].max, 0xFFFF, saved[i].owner, true)
  }

  lemma {:induction false} ReloadInOrder(saved: seq<Range>, k: nat)
    requires Sorted(saved) && k <= |saved|
    ensures var r := Reload(saved, k);
      && Sorted(r) && |r| <= k
      && (forall i :: 0 <= i < |r| ==> k > 0 && r[i].max <= saved[k - 1].max)
    ensures k < |saved| ==> LandsLast(Reload(saved, k), saved[k].max)
  {
    if k == 0 {
    } else {
      ReloadInOrder(saved, k - 1);
      AddLastKeeps(Reload(saved, k - 1), saved[k - 1].min, saved[k - 1].max, saved[k - 1].owner);
    }
  }

  lemma {:induction false} ReloadSeparated(saved: seq<Range>, k: nat)
    requires Sorted(saved) && k <= |saved| && Separated(saved, k)
    ensures Rebuilt(Reload(saved, k), saved, k)
  {
    if k == 0 {
    } else {
      ReloadSeparated(saved, k - 1);
      AddSeparated(Reload(saved, k - 1), saved, k - 1);
    }
  }

  lemma AddSeparated(r: seq<Range>, saved: seq<Range>, k: nat)
    requires Sorted(saved) && k < |saved| && Rebuilt(r, saved, k)
    requires k > 0 ==> saved[k - 1].max < saved[k].min
    ensures Rebuilt(AddLast(r, saved[k].min, saved[k].max, saved[k].owner), saved, k + 1)
  {
    hide Extend;
  }

  lemma AddTouching(r: seq<Range>, saved: seq<Range>, k: nat)
    requires Sorted(saved) && 0 < k < |saved| && Rebuilt(r, saved, k) && saved[k - 1].max == saved[k].min
    ensures var next := AddLast(r, saved[k].min, saved[k].max, saved[k].owner);
      |next| <= k || next[k].min != saved[k].min
  {
    assert r[k - 1].max == saved[k - 1].max;
  }

  /** Once a range came out differently it stays different. */
  lemma {:induction false} ReloadTouching(saved: seq<Range>, i: nat, k: nat)
    requires Sorted(saved) && 0 < i < k <= |saved| && saved[i - 1].max == saved[i].min && Separated(saved, i)
    ensures var r := Reload(saved, k); |r| < k || r[i].min != saved[i].min
    decreases k
  {
    hide AddLast;
    if k == i + 1 {
      ReloadSeparated(saved, i);
      AddTouching(Reload(saved, i), saved, i);
    } else {
      ReloadInOrder(saved, k - 1);
      AddLastKeeps(Reload(saved, k - 1), saved[k - 1].min, saved[k - 1].max, saved[k - 1].owner);
      ReloadTouching(saved, i, k - 1);
    }
  }

  /** The first pair of neighbours that touch. */
  lemma {:induction false} FirstTouching(saved: seq<Range>, k: nat) returns (i: nat)
    requires Sorted(saved) && k <= |saved| && !Separated(saved, k)
    ensures 0 < i < k && saved[i - 1].max == saved[i].min && Separated(saved, i)
    decreases k
  {
    if Separated(saved, k - 1) {
      i := k - 1;
    } else {
      i := FirstTouching(saved, k - 1);
    }
  }

  /**
   Saving a list and adding its ranges again gives the same bounds and owners in
   the same order exactly when no two neighbours touch.
  */
  lemma ReloadRebuilds(saved: seq<Range>)
    requires Sorted(saved)
    ensures Rebuilt(Reload(saved, |saved|), saved, |saved|) <==> Separated(saved, |saved|)
    ensures Sorted(Reload(saved, |saved|))
  {
    ReloadInOrder(saved, |saved|);
    if Separated(saved, |saved|) {
      ReloadSeparated(saved, |saved|);
    } else {
      var i := FirstTouching(saved, |saved|);
      ReloadTouching(saved, i, |saved|);
    }
  }
}
